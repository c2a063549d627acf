/** What the decoder makes of the encoder's output. */
module RoundTrip {
  import opened CText
  import opened Diagnostics
  import opened Tokenizer
  import opened Metadata
  import opened TextCodec

  /** A rendering the tokenizer reads back as one token: not empty, no
      whitespace, no NUL, and not starting a comment. */
  predicate IsToken(t: string) {
    t != [] && t[0] != '%' && '\0' !in t && forall i :: 0 <= i < |t| ==> !IsSpace(t[i])
  }

  /** The hypothesis on "%.16g" and atof for one element: the rendering is a
      token and converts back to the element. */
  ghost predicate Survives<T>(x: T, fmt: T -> string, parse: string -> T) {
    IsToken(fmt(x)) && parse(fmt(x)) == x
  }

  ghost predicate AllSurvive<T>(xs: seq<T>, fmt: T -> string, parse: string -> T) {
    forall k :: 0 <= k < |xs| ==> Survives(xs[k], fmt, parse)
  }

  // ---------------------------------------------------------------- reading tokens

  /** Reading k1 + k2 elements is reading k1 and then k2 more. */
  lemma {:induction false} ReadValuesSplit<T>(s: string, k1: nat, k2: nat, read: string -> (T, string))
    ensures ReadValues(s, k1 + k2, read).0 ==
              ReadValues(s, k1, read).0 + ReadValues(ReadValues(s, k1, read).1, k2, read).0
    ensures ReadValues(s, k1 + k2, read).1 == ReadValues(ReadValues(s, k1, read).1, k2, read).1
    decreases k2
  {
    var a := ReadValues(s, k1, read).0;
    var m := ReadValues(s, k1, read).1;
    if k2 == 0 {
      assert a + [] == a;
    } else {
      ReadValuesSplit(s, k1, k2 - 1, read);
      var b' := ReadValues(m, k2 - 1, read).0;
      var x := read(ReadValues(m, k2 - 1, read).1).0;
      assert (a + b') + [x] == a + (b' + [x]);
    }
  }

  /** Reading 1 + k elements: the first one, then k more. */
  lemma ReadValuesFront<T>(s: string, k: nat, read: string -> (T, string))
    ensures ReadValues(s, 1 + k, read).0 == [read(s).0] + ReadValues(read(s).1, k, read).0
    ensures ReadValues(s, 1 + k, read).1 == ReadValues(read(s).1, k, read).1
  {
    ReadValuesSplit(s, 1, k, read);
    assert ReadValues(s, 1, read).0 == [] + [read(s).0];
  }

  /** Reading starts with skip_comment, so inputs that agree past their
      comments read the same. */
  lemma ReadValuesAfterComments<T>(a: string, b: string, k: nat, parse: string -> T)
    requires k > 0 && AfterComments(a) == AfterComments(b)
    ensures ReadValues(a, k, TokenReader(parse)) == ReadValues(b, k, TokenReader(parse))
  {
    ReadValuesFront(a, k - 1, TokenReader(parse));
    ReadValuesFront(b, k - 1, TokenReader(parse));
    assert TokenReader(parse)(a) == ReadToken(a, parse) == ReadToken(b, parse) == TokenReader(parse)(b);
  }

  /** A token after whitespace and before one whitespace character is read
      back as its element, and reading stops after that character. */
  lemma ReadOne<T>(ws: string, x: T, c: char, rest: string, fmt: T -> string, parse: string -> T)
    requires AllSpaces(ws) && IsSpace(c) && Survives(x, fmt, parse)
    ensures ReadToken(ws + fmt(x) + [c] + rest, parse) == (x, rest)
  {
    var t := fmt(x);
    assert ws + t + [c] + rest == ws + (t + [c] + rest);
    AfterCommentsSpaces(ws, t + [c] + rest);
    AfterCommentsStops(t + [c] + rest);
    NextTokenOf(t, c, rest);
    CStrWhole(t);
  }

  /** What the reading loop needs of its reader: every cell and every
      element line is read back as its element, and a line break before the
      next element is skipped. */
  ghost predicate ReadsCells<T>(read: string -> (T, string), xs: seq<T>, fmt: T -> string) {
    forall k, more :: 0 <= k < |xs| ==> read(Cell(xs[k], fmt) + more) == (xs[k], more)
  }

  ghost predicate ReadsLines<T>(read: string -> (T, string), xs: seq<T>, fmt: T -> string) {
    forall k, more :: 0 <= k < |xs| ==> read(fmt(xs[k]) + "\n" + more) == (xs[k], more)
  }

  ghost predicate SkipsBreak<T>(read: string -> (T, string)) {
    forall x :: read("\n" + x) == read(x)
  }

  /** The decoder's reader reads each element back from its cell. */
  lemma TokenReaderReadsCells<T>(xs: seq<T>, fmt: T -> string, parse: string -> T)
    requires AllSurvive(xs, fmt, parse)
    ensures ReadsCells(TokenReader(parse), xs, fmt)
  {
    var read := TokenReader(parse);
    forall k, more | 0 <= k < |xs| ensures read(Cell(xs[k], fmt) + more) == (xs[k], more) {
      var t := fmt(xs[k]);
      var p := Pad(t, FIELD_WIDTH);
      var ws := p[..|p| - |t|];
      assert p == ws + t;
      assert Cell(xs[k], fmt) + more == ws + t + [' '] + more;
      assert Survives(xs[k], fmt, parse);
      ReadOne(ws, xs[k], ' ', more, fmt, parse);
    }
  }

  /** The decoder's reader reads each element back from its own line. */
  lemma TokenReaderReadsLines<T>(xs: seq<T>, fmt: T -> string, parse: string -> T)
    requires AllSurvive(xs, fmt, parse)
    ensures ReadsLines(TokenReader(parse), xs, fmt)
  {
    var read := TokenReader(parse);
    forall k, more | 0 <= k < |xs| ensures read(fmt(xs[k]) + "\n" + more) == (xs[k], more) {
      assert fmt(xs[k]) + "\n" + more == "" + fmt(xs[k]) + ['\n'] + more;
      assert Survives(xs[k], fmt, parse);
      ReadOne("", xs[k], '\n', more, fmt, parse);
    }
  }

  /** The decoder's reader passes over a line break. */
  lemma TokenReaderSkipsBreak<T>(parse: string -> T)
    ensures SkipsBreak(TokenReader(parse))
  {
    var read := TokenReader(parse);
    forall x ensures read("\n" + x) == read(x) {
      AfterCommentsSpaces("\n", x);
    }
  }

  /** A line break in front of the elements does not change what is read. */
  lemma ReadValuesSkip<T>(x: string, k: nat, read: string -> (T, string))
    requires k > 0 && SkipsBreak(read)
    ensures ReadValues("\n" + x, k, read) == ReadValues(x, k, read)
  {
    ReadValuesFront("\n" + x, k - 1, read);
    ReadValuesFront(x, k - 1, read);
  }

  /** Reading one element and then the elements after it. */
  lemma ReadCons<T>(xs: seq<T>, i: nat, e: nat, x: string, mid: string, rest: string,
                    read: string -> (T, string))
    requires i < e <= |xs|
    requires read(x) == (xs[i], mid) && ReadValues(mid, e - i - 1, read) == (xs[i + 1..e], rest)
    ensures ReadValues(x, e - i, read) == (xs[i..e], rest)
  {
    ReadValuesFront(x, e - i - 1, read);
    assert [xs[i]] + xs[i + 1..e] == xs[i..e];
  }

  /** The cells of xs[i..e] read back as xs[i..e]. */
  lemma {:induction false} ReadCells<T>(xs: seq<T>, i: nat, e: nat, tail: string,
                                         fmt: T -> string, read: string -> (T, string))
    requires i <= e <= |xs| && ReadsCells(read, xs, fmt)
    ensures ReadValues(CellsFrom(xs, i, e, fmt) + tail, e - i, read) == (xs[i..e], tail)
    decreases e - i
  {
    if i < e {
      var more := CellsFrom(xs, i + 1, e, fmt) + tail;
      ConcatAssoc(Cell(xs[i], fmt), CellsFrom(xs, i + 1, e, fmt), tail);
      assert read(Cell(xs[i], fmt) + more) == (xs[i], more);
      ReadCells(xs, i + 1, e, tail, fmt, read);
      ReadCons(xs, i, e, CellsFrom(xs, i, e, fmt) + tail, more, tail, read);
    } else {
      assert CellsFrom(xs, i, e, fmt) + tail == tail && xs[i..e] == [];
    }
  }

  /** Reading joins: elements i..e read up to some point, then the elements
      from e on read from there, are the elements from i on. */
  lemma ReadJoin<T>(xs: seq<T>, i: nat, e: nat, x: string, mid: string, rest: string,
                    read: string -> (T, string))
    requires i <= e <= |xs|
    requires ReadValues(x, e - i, read) == (xs[i..e], mid)
    requires ReadValues(mid, |xs| - e, read) == (xs[e..], rest)
    ensures ReadValues(x, |xs| - i, read) == (xs[i..], rest)
  {
    ReadValuesSplit(x, e - i, |xs| - e, read);
    assert xs[i..e] + xs[e..] == xs[i..];
  }

  /** The first row, its line break, and the rows after it. */
  lemma RowsSplit<T>(xs: seq<T>, i: nat, s: nat, tail: string, fmt: T -> string)
    requires s > 0 && i < |xs|
    ensures RowsFrom(xs, i, s, fmt) + tail
         == CellsFrom(xs, i, Min(i + s, |xs|), fmt) + ("\n" + (RowsFrom(xs, i + s, s, fmt) + tail))
  {
    var c := CellsFrom(xs, i, Min(i + s, |xs|), fmt);
    var n := RowsFrom(xs, i + s, s, fmt);
    assert RowsFrom(xs, i, s, fmt) == c + "\n" + n;
    ConcatAssoc(c + "\n", n, tail);
    ConcatAssoc(c, "\n", n + tail);
  }

  /** The rows from element i on read back as xs[i..]; reading stops at the
      last row's line break. */
  lemma {:induction false} ReadRows<T>(xs: seq<T>, i: nat, s: nat, tail: string,
                                        fmt: T -> string, read: string -> (T, string))
    requires s > 0 && i < |xs| && ReadsCells(read, xs, fmt) && SkipsBreak(read)
    ensures ReadValues(RowsFrom(xs, i, s, fmt) + tail, |xs| - i, read) == (xs[i..], "\n" + tail)
    decreases |xs| - i, 1
  {
    var e := Min(i + s, |xs|);
    var next := RowsFrom(xs, i + s, s, fmt);
    var after := "\n" + (next + tail);
    RowsSplit(xs, i, s, tail, fmt);
    ReadCells(xs, i, e, after, fmt, read);
    if e == |xs| {
      assert next == "" && next + tail == tail;
      assert xs[i..e] == xs[i..];
    } else {
      ReadRowsNext(xs, i, e, s, next, tail, fmt, read);
    }
  }

  /** A row that is not the last: the rows after it read back the rest. */
  lemma {:induction false} ReadRowsNext<T>(xs: seq<T>, i: nat, e: nat, s: nat, next: string, tail: string,
                                            fmt: T -> string, read: string -> (T, string))
    requires s > 0 && i < e < |xs| && e == i + s && next == RowsFrom(xs, e, s, fmt)
    requires ReadsCells(read, xs, fmt) && SkipsBreak(read)
    requires ReadValues(CellsFrom(xs, i, e, fmt) + ("\n" + (next + tail)), e - i, read) == (xs[i..e], "\n" + (next + tail))
    ensures ReadValues(CellsFrom(xs, i, e, fmt) + ("\n" + (next + tail)), |xs| - i, read) == (xs[i..], "\n" + tail)
    decreases |xs| - i, 0
  {
    var after := "\n" + (next + tail);
    ReadValuesSkip(next + tail, |xs| - e, read);
    ReadRows(xs, e, s, tail, fmt, read);
    ReadJoin(xs, i, e, CellsFrom(xs, i, e, fmt) + after, after, "\n" + tail, read);
  }

  /** The element lines from element i on read back as xs[i..]. */
  lemma {:induction false} ReadLines<T>(xs: seq<T>, i: nat, tail: string,
                                         fmt: T -> string, read: string -> (T, string))
    requires i <= |xs| && ReadsLines(read, xs, fmt)
    ensures ReadValues(LinesFrom(xs, i, fmt) + tail, |xs| - i, read) == (xs[i..|xs|], tail)
    decreases |xs| - i
  {
    if i < |xs| {
      var more := LinesFrom(xs, i + 1, fmt) + tail;
      assert LinesFrom(xs, i, fmt) + tail == fmt(xs[i]) + "\n" + more;
      assert read(fmt(xs[i]) + "\n" + more) == (xs[i], more);
      ReadLines(xs, i + 1, tail, fmt, read);
      ReadCons(xs, i, |xs|, LinesFrom(xs, i, fmt) + tail, more, tail, read);
    } else {
      assert LinesFrom(xs, i, fmt) + tail == tail && xs[i..|xs|] == [];
    }
  }

  /** The element lines of a nonempty vector read back whole, in either layout. */
  lemma ReadBody<T>(xs: seq<T>, s: nat, tail: string, fmt: T -> string, parse: string -> T)
    requires xs != [] && AllSurvive(xs, fmt, parse)
    ensures ReadValues(Body(xs, s, fmt) + tail, |xs|, TokenReader(parse)).0 == xs
  {
    if s > 1 {
      ReadBodyRows(xs, s, tail, fmt, parse);
    } else {
      ReadBodyLines(xs, tail, fmt, parse);
    }
  }

  lemma ReadBodyRows<T>(xs: seq<T>, s: nat, tail: string, fmt: T -> string, parse: string -> T)
    requires xs != [] && s > 0 && AllSurvive(xs, fmt, parse)
    ensures ReadValues(RowsFrom(xs, 0, s, fmt) + tail, |xs|, TokenReader(parse)).0 == xs
  {
    TokenReaderReadsCells(xs, fmt, parse);
    TokenReaderSkipsBreak(parse);
    ReadRows(xs, 0, s, tail, fmt, TokenReader(parse));
    assert xs[0..] == xs;
  }

  lemma ReadBodyLines<T>(xs: seq<T>, tail: string, fmt: T -> string, parse: string -> T)
    requires AllSurvive(xs, fmt, parse)
    ensures ReadValues(LinesFrom(xs, 0, fmt) + tail, |xs|, TokenReader(parse)).0 == xs
  {
    TokenReaderReadsLines(xs, fmt, parse);
    ReadLines(xs, 0, tail, fmt, TokenReader(parse));
    assert xs[0..|xs|] == xs;
  }

  // ---------------------------------------------------------------- the count line

  /** The count line is the count, a blank, and a comment line. */
  lemma CountLineSplit(t: string, body: string)
    ensures t + COUNT_SUFFIX + body == t + [' '] + (Lines([COUNT_COMMENT]) + body)
  {
    assert Lines([COUNT_COMMENT]) == COUNT_COMMENT + "\n" + Lines([]);
    assert COUNT_SUFFIX == [' '] + (COUNT_COMMENT + "\n");
  }

  /** Regrouping of an encoded text between comment lines and what follows. */
  lemma ShapeOfText(ls: string, count: string, b: string, tail: string)
    ensures ls + ((count + COUNT_SUFFIX) + b) + tail == ls + count + COUNT_SUFFIX + (b + tail)
  {
    var e := (count + COUNT_SUFFIX) + b;
    ConcatAssoc(ls, e, tail);
    ConcatAssoc(count + COUNT_SUFFIX, b, tail);
    ConcatAssoc(ls, count + COUNT_SUFFIX, b + tail);
    ConcatAssoc(ls, count, COUNT_SUFFIX);
  }

  /** Past comment lines, the first token of a count line is the count, and
      what follows it is the count line's own comment. */
  lemma ReadCountLine(ls: seq<string>, c: int, body: string)
    requires forall i :: 0 <= i < |ls| ==> IsCommentLine(ls[i])
    ensures var s := Lines(ls) + IntToString(c) + COUNT_SUFFIX + body;
      && (s == [] || s[0] != 'V')
      && NextToken(AfterComments(s)) == (IntToString(c), Lines([COUNT_COMMENT]) + body)
  {
    var t := IntToString(c);
    var rest := Lines([COUNT_COMMENT]) + body;
    var x := t + [' '] + rest;
    CountLineSplit(t, body);
    var s := Lines(ls) + t + COUNT_SUFFIX + body;
    ConcatAssoc(Lines(ls), t, COUNT_SUFFIX);
    ConcatAssoc(Lines(ls), t + COUNT_SUFFIX, body);
    assert s == Lines(ls) + x;
    LeadingComment(ls, x);
    AfterCommentsBlock(ls, x);
    AfterCommentsStops(x);
    NextTokenOf(t, ' ', rest);
  }

  /** Comment lines in front of a text that does not start with 'V' keep it
      from starting with 'V'. */
  lemma LeadingComment(ls: seq<string>, x: string)
    requires forall i :: 0 <= i < |ls| ==> IsCommentLine(ls[i])
    requires x != [] && x[0] != 'V'
    ensures Lines(ls) + x != [] && (Lines(ls) + x)[0] != 'V'
  {
    if ls != [] {
      assert Lines(ls) == ls[0] + "\n" + Lines(ls[1..]);
      assert (Lines(ls) + x)[0] == ls[0][0];
    } else {
      assert Lines(ls) + x == x;
    }
  }

  /** The count line stands apart from "nil" and reads back as the count. */
  lemma CountToken(c: int)
    ensures CStr(IntToString(c)) == IntToString(c) && IntToString(c) != "nil"
    ensures Atoi(IntToString(c)) == c
  {
    CStrWhole(IntToString(c));
    AtoiOfIntToString(c);
  }

  /** The count line's own comment is skipped before the first element. */
  lemma SkipCountComment<T>(body: string, k: nat, parse: string -> T)
    requires k > 0
    ensures ReadValues(Lines([COUNT_COMMENT]) + body, k, TokenReader(parse))
         == ReadValues(body, k, TokenReader(parse))
  {
    assert IsCommentLine(COUNT_COMMENT);
    AfterCommentsBlock([COUNT_COMMENT], body);
    ReadValuesAfterComments(Lines([COUNT_COMMENT]) + body, body, k, parse);
  }

  // ---------------------------------------------------------------- round trips

  /** The decoder on a text whose first token past its comments is a count. */
  lemma DecodeCount<T>(s: string, c: int, rest: string, parse: string -> T, prec: Precision)
    requires (s == [] || s[0] != 'V') && NextToken(AfterComments(s)) == (IntToString(c), rest)
    ensures var o := DecodeText(s, parse, prec);
      && o.status == 0 && o.reports == []
      && (0 < c < SIZE_T_MODULUS ==> o.result == Vector(c, Some(ReadValues(rest, c, TokenReader(parse)).0)))
      && (c == 0 ==> o.result == Vector(0, None) && o.rest == rest)
  {
    CountToken(c);
    var t := IntToString(c);
    assert DecodeText(s, parse, prec) == DecodeTokens(s, parse);
    assert CStr(t) != "nil" && Atoi(CStr(t)) == c;
  }

  lemma NilIsToken()
    ensures IsToken("nil")
  {
    assert forall i :: 0 <= i < 3 ==> "nil"[i] in {'n', 'i', 'l'};
  }

  /** The decoder on a text whose first token past its comments is "nil". */
  lemma DecodeNilToken<T>(s: string, rest: string, parse: string -> T, prec: Precision)
    requires (s == [] || s[0] != 'V') && NextToken(AfterComments(s)) == ("nil", rest)
    ensures DecodeText(s, parse, prec) == Outcome(0, Vector(SIZE_MAX, None), [], rest)
  {
    CStrWhole("nil");
  }

  /** The text round trip: after any block of header, hint or message lines,
      a nonempty vector written in either layout decodes to the same count and
      the same elements in order, without reports. */
  lemma DecodeEncode<T>(ls: seq<string>, xs: seq<T>, s: nat, tail: string,
                        fmt: T -> string, parse: string -> T, prec: Precision)
    requires forall i :: 0 <= i < |ls| ==> IsCommentLine(ls[i])
    requires 0 < |xs| < SIZE_T_MODULUS && AllSurvive(xs, fmt, parse)
    ensures var o := DecodeText(Lines(ls) + EncodeText(|xs|, Some(xs), s, fmt) + tail, parse, prec);
      o.status == 0 && o.reports == [] && o.result == Vector(|xs|, Some(xs))
  {
    var n := |xs|;
    var body := Body(xs, s, fmt) + tail;
    var text := Lines(ls) + EncodeText(n, Some(xs), s, fmt) + tail;
    ShapeOfText(Lines(ls), IntToString(n), Body(xs, s, fmt), tail);
    assert text == Lines(ls) + IntToString(n) + COUNT_SUFFIX + body;
    ReadCountLine(ls, n, body);
    DecodeCount(text, n, Lines([COUNT_COMMENT]) + body, parse, prec);
    SkipCountComment(body, n, parse);
    ReadBody(xs, s, tail, fmt, parse);
  }

  /** The encoder as written round-trips too, as long as the count fits the
      %d it is printed with. */
  lemma DecodeEncodeAsWritten<T>(ls: seq<string>, xs: seq<T>, s: nat, tail: string,
                                 fmt: T -> string, parse: string -> T, prec: Precision)
    requires forall i :: 0 <= i < |ls| ==> IsCommentLine(ls[i])
    requires 0 < |xs| <= INT_MAX && AllSurvive(xs, fmt, parse)
    ensures var o := DecodeText(Lines(ls) + EncodeTextAsWritten(|xs|, Some(xs), s, fmt) + tail, parse, prec);
      o.status == 0 && o.reports == [] && o.result == Vector(|xs|, Some(xs))
  {
    EncodersAgree(|xs|, Some(xs), s, fmt);
    DecodeEncode(ls, xs, s, tail, fmt, parse, prec);
  }

  /** A zero count decodes as the empty vector and no element is read: what
      follows is the rest of the count line. */
  lemma DecodeEncodeEmpty<T>(ls: seq<string>, v: Option<seq<T>>, s: nat, tail: string,
                             fmt: T -> string, parse: string -> T, prec: Precision)
    requires forall i :: 0 <= i < |ls| ==> IsCommentLine(ls[i])
    requires v.Some? ==> v.value == []
    ensures var o := DecodeText(Lines(ls) + EncodeText(0, v, s, fmt) + tail, parse, prec);
      o.status == 0 && o.reports == [] && o.result == Vector(0, None) &&
      o.rest == Lines([COUNT_COMMENT]) + ("0\n" + tail)
  {
    var body := "0\n" + tail;
    var text := Lines(ls) + EncodeText(0, v, s, fmt) + tail;
    ShapeOfText(Lines(ls), IntToString(0), "0\n", tail);
    assert text == Lines(ls) + IntToString(0) + COUNT_SUFFIX + body;
    ReadCountLine(ls, 0, body);
    DecodeCount(text, 0, Lines([COUNT_COMMENT]) + body, parse, prec);
  }

  /** The nil text starts with the token "nil". */
  lemma ReadNilFront(tail: string)
    ensures var x := NIL_TEXT + tail;
      && x[0] == 'n' && AfterComments(x) == x && NextToken(x) == ("nil", "\n" + tail)
  {
    var x := "nil" + ['\n'] + ("\n" + tail);
    assert NIL_TEXT == "nil" + ['\n'] + "\n";
    ConcatAssoc("nil" + ['\n'], "\n", tail);
    assert NIL_TEXT + tail == x;
    AfterCommentsStops(x);
    NilIsToken();
    NextTokenOf("nil", '\n', "\n" + tail);
  }

  /** Past comment lines, the first token of the nil text is "nil". */
  lemma ReadNilText(ls: seq<string>, tail: string)
    requires forall i :: 0 <= i < |ls| ==> IsCommentLine(ls[i])
    ensures var text := Lines(ls) + NIL_TEXT + tail;
      && text != [] && text[0] != 'V'
      && NextToken(AfterComments(text)) == ("nil", "\n" + tail)
  {
    var x := NIL_TEXT + tail;
    ConcatAssoc(Lines(ls), NIL_TEXT, tail);
    ReadNilFront(tail);
    LeadingComment(ls, x);
    AfterCommentsBlock(ls, x);
  }

  /** The nil text decodes as the nil vector: count SIZE_MAX, no elements. */
  lemma DecodeNil<T>(ls: seq<string>, tail: string, parse: string -> T, prec: Precision)
    requires forall i :: 0 <= i < |ls| ==> IsCommentLine(ls[i])
    ensures DecodeText(Lines(ls) + NIL_TEXT + tail, parse, prec)
            == Outcome(0, Vector(SIZE_MAX, None), [], "\n" + tail)
  {
    ReadNilText(ls, tail);
    DecodeNilToken(Lines(ls) + NIL_TEXT + tail, "\n" + tail, parse, prec);
  }

  /** The corrected encoder's nil output decodes as nil. */
  lemma DecodeEncodeNil<T>(ls: seq<string>, n: SizeT, s: nat, tail: string,
                           fmt: T -> string, parse: string -> T, prec: Precision)
    requires forall i :: 0 <= i < |ls| ==> IsCommentLine(ls[i])
    requires n > 0
    ensures DecodeText(Lines(ls) + EncodeText(n, None, s, fmt) + tail, parse, prec).result
            == Vector(SIZE_MAX, None)
  {
    DecodeNil(ls, tail, parse, prec);
  }

  /** As written, a missing vector of count n is written as a count line
      followed by "nil", and reads back as n elements, not as nil. */
  lemma NilAsWrittenIsNotNil<T>(n: SizeT, s: nat, tail: string,
                                fmt: T -> string, parse: string -> T, prec: Precision)
    requires 0 < n <= INT_MAX
    ensures var o := DecodeText(EncodeTextAsWritten(n, None, s, fmt) + tail, parse, prec);
      o.result.Vector? && o.result.n == n && o.result.values.Some? &&
      o.result != Vector(SIZE_MAX, None)
  {
    var body := NIL_TEXT + tail;
    assert EncodeTextAsWritten(n, None, s, fmt) + tail == Lines([]) + IntToString(n) + COUNT_SUFFIX + body;
    ReadCountLine([], n, body);
    CountToken(n);
  }

  /** As written, the decoder's own nil vector (count SIZE_MAX, no
      elements) is written with the count line "-1 % ..." before "nil", and
      reads back with count SIZE_MAX and elements present: not as nil. */
  lemma NilSentinelAsWritten<T>(s: nat, tail: string,
                                fmt: T -> string, parse: string -> T, prec: Precision)
    ensures var o := DecodeText(EncodeTextAsWritten(SIZE_MAX, None, s, fmt) + tail, parse, prec);
      o.result.Vector? && o.result.n == SIZE_MAX && o.result.values.Some? &&
      o.result != Vector(SIZE_MAX, None)
  {
    var body := NIL_TEXT + tail;
    assert PrintfD(SIZE_MAX) == -1;
    assert EncodeTextAsWritten(SIZE_MAX, None, s, fmt) + tail == Lines([]) + IntToString(-1) + COUNT_SUFFIX + body;
    ReadCountLine([], -1, body);
    CountToken(-1);
    assert ToSizeT(-1) == SIZE_MAX;
  }

  /** The smallest case: a missing single element comes back as one element,
      atof's reading of "nil". */
  lemma NilAsWrittenOne<T>(s: nat, fmt: T -> string, parse: string -> T, prec: Precision)
    ensures DecodeText(EncodeTextAsWritten(1, None, s, fmt), parse, prec).result
            == Vector(1, Some([parse("nil")]))
  {
    var text := EncodeTextAsWritten(1, None, s, fmt);
    var rest := Lines([COUNT_COMMENT]) + NIL_TEXT;
    assert PrintfD(1) == 1;
    assert text == Lines([]) + IntToString(1) + COUNT_SUFFIX + NIL_TEXT;
    ReadCountLine([], 1, NIL_TEXT);
    DecodeCount(text, 1, rest, parse, prec);
    ReadNilOne(parse);
  }

  /** Past the count line's comment, one element read from the nil text is
      atof's reading of "nil". */
  lemma ReadNilOne<T>(parse: string -> T)
    ensures ReadValues(Lines([COUNT_COMMENT]) + NIL_TEXT, 1, TokenReader(parse)).0 == [parse("nil")]
  {
    SkipCountComment(NIL_TEXT, 1, parse);
    ReadValuesFront(NIL_TEXT, 0, TokenReader(parse));
    ReadNilText([], "");
    assert Lines([]) + NIL_TEXT + "" == NIL_TEXT;
    CStrWhole("nil");
    assert TokenReader(parse)(NIL_TEXT) == (parse("nil"), "\n");
    assert ReadValues(NIL_TEXT, 1, TokenReader(parse)).0 == [parse("nil")] + [];
  }

  /** As written, "%d" prints only the low 32 bits of the count: a vector of
      2^32 elements is written with the count 0 and reads back empty. */
  lemma WideCountAsWritten<T>(xs: seq<T>, s: nat, tail: string,
                              fmt: T -> string, parse: string -> T, prec: Precision)
    requires |xs| == INT_MODULUS
    ensures DecodeText(EncodeTextAsWritten(|xs|, Some(xs), s, fmt) + tail, parse, prec).result
            == Vector(0, None)
  {
    var body := Body(xs, s, fmt) + tail;
    assert PrintfD(|xs|) == 0;
    assert EncodeTextAsWritten(|xs|, Some(xs), s, fmt) + tail
        == Lines([]) + IntToString(0) + COUNT_SUFFIX + body;
    ReadCountLine([], 0, body);
    CountToken(0);
  }

  /** The binary encoder's output makes the decoder take the binary path with
      a warning, and its magic is accepted. */
  lemma DecodeBinaryOutput<T>(word: string, payload: string, tail: string,
                              parse: string -> T, prec: Precision)
    ensures var o := DecodeText(MAGIC + word + payload + tail, parse, prec);
      o.status == 0 && o.result == BinaryPayload && o.reports == [FALLS_TO_BINARY]
  {
    var s := MAGIC + word + payload + tail;
    assert s[..4] == MAGIC[..4];
  }

  /** A leading 'V' always selects the binary decoder after a warning, on the
      whole input; it succeeds exactly when the magic matches, and otherwise
      yields the empty vector with status 1 and a bad-magic error. */
  lemma DecodeLeadingV<T>(s: string, parse: string -> T, prec: Precision)
    requires s != [] && s[0] == 'V'
    ensures var o := DecodeText(s, parse, prec);
      var good := |s| >= 4 && s[..4] == "VCTR";
      && |o.reports| >= 1 && o.reports[0] == FALLS_TO_BINARY
      && (o.status == 0 <==> good)
      && (good ==> o.result == BinaryPayload && o.reports == [FALLS_TO_BINARY])
      && (!good ==> o.result == Vector(0, None) && o.status == 1 &&
                    o.reports == [FALLS_TO_BINARY, Report(ERROR, BinaryName(prec) + ": bad magic")])
  {
  }
}
