/** The vector codec of vec.c.  The float and double variants share their
    control flow and differ only in the element type, the conversions and the
    function names in their reports, so one generic member models both: `fmt`
    stands for printf's "%.16g" applied to an element, `parse` for atof
    followed by the conversion to the element type, and `prec` picks the name
    used in reports. */
module TextCodec {
  import opened CText
  import opened Streams
  import opened Diagnostics
  import opened Tokenizer
  import opened Metadata

  /** The comment that follows the count on the count line. */
  const COUNT_COMMENT: string := "% Number of elements"
  const COUNT_SUFFIX: string := " " + COUNT_COMMENT + "\n"
  /** The field width of "%18.16g". */
  const FIELD_WIDTH: nat := 18
  /** The eight bytes that open a binary vector; the decoder checks four. */
  const MAGIC: string := "VCTR****"

  // ---------------------------------------------------------------- encoder

  /** The count line as written: "%d" applied to the size_t count. */
  function CountLine(n: SizeT): string {
    IntToString(PrintfD(n)) + COUNT_SUFFIX
  }

  /** The count line with the count printed in full. */
  function FullCountLine(n: SizeT): string {
    IntToString(n) + COUNT_SUFFIX
  }

  /** One element of a row: "%18.16g" and a blank. */
  function Cell<T>(x: T, fmt: T -> string): string {
    Pad(fmt(x), FIELD_WIDTH) + " "
  }

  /** The cells of xs[i..e], in order. */
  function CellsFrom<T>(xs: seq<T>, i: nat, e: nat, fmt: T -> string): string
    requires e <= |xs|
    decreases e - i
  {
    if i >= e then "" else Cell(xs[i], fmt) + CellsFrom(xs, i + 1, e, fmt)
  }

  /** The rows that start at element i, i + s, ...: each holds the cells of
      the next s elements that exist and ends in a line break. */
  function RowsFrom<T>(xs: seq<T>, i: nat, s: nat, fmt: T -> string): string
    requires s > 0
    decreases |xs| - i
  {
    if i >= |xs| then ""
    else CellsFrom(xs, i, Min(i + s, |xs|), fmt) + "\n" + RowsFrom(xs, i + s, s, fmt)
  }

  /** One "%.16g" line per element, from element i on. */
  function LinesFrom<T>(xs: seq<T>, i: nat, fmt: T -> string): string
    decreases |xs| - i
  {
    if i >= |xs| then "" else fmt(xs[i]) + "\n" + LinesFrom(xs, i + 1, fmt)
  }

  /** The element lines: rows of s elements when s > 1, else one per line. */
  function Body<T>(xs: seq<T>, s: nat, fmt: T -> string): string {
    if s > 1 then RowsFrom(xs, 0, s, fmt) else LinesFrom(xs, 0, fmt)
  }

  /** What vec_put_double_vector_to_file writes, as written: the count line
      always comes first, then the elements, or "0" for a count of zero, or
      the nil text when the elements are missing. */
  function EncodeTextAsWritten<T>(n: SizeT, v: Option<seq<T>>, s: nat, fmt: T -> string): string
    requires v.Some? ==> |v.value| == n
  {
    CountLine(n) +
      if n > 0 && v.Some? then Body(v.value, s, fmt)
      else if n == 0 then "0\n"
      else NIL_TEXT
  }

  /** The encoding the decoder can read back: the count in full, and the nil
      text alone, without a count line, for missing elements. */
  function EncodeText<T>(n: SizeT, v: Option<seq<T>>, s: nat, fmt: T -> string): string
    requires v.Some? ==> |v.value| == n
  {
    if n > 0 && v.None? then NIL_TEXT
    else FullCountLine(n) + if n > 0 then Body(v.value, s, fmt) else "0\n"
  }

  // ---------------------------------------------------------------- decoder

  /** The outcome of a decoder: the count and the elements, NULL elements
      being None, or a binary vector whose payload is read natively. */
  datatype Decoded<T> = Vector(n: SizeT, values: Option<seq<T>>) | BinaryPayload

  datatype Outcome<T> = Outcome(status: int, result: Decoded<T>, reports: seq<Report>, rest: string)

  /** skip_comment, then get_token, then the conversion of the token (read
      as a C string). */
  function ReadToken<T>(s: string, parse: string -> T): (T, string) {
    var (t, rest) := NextToken(AfterComments(s));
    (parse(CStr(t)), rest)
  }

  /** ReadToken as a value, so that the reading loop can be reasoned about
      without looking inside the tokenizer. */
  function TokenReader<T>(parse: string -> T): string -> (T, string) {
    s => ReadToken(s, parse)
  }

  /** k elements read one after another by `read`, each where the previous
      one stopped, and what follows them. */
  function ReadValues<T>(s: string, k: nat, read: string -> (T, string)): (r: (seq<T>, string))
    ensures |r.0| == k
  {
    if k == 0 then ([], s)
    else
      var (vs, rest) := ReadValues(s, k - 1, read);
      var (x, rest') := read(rest);
      (vs + [x], rest')
  }

  function BinaryName(prec: Precision): string {
    "vec_new_" + TypeName(prec) + "_vector_from_file_binary"
  }

  /** vec_new_double_vector_from_file_binary on input `s`: eight bytes are
      read and the first four compared with the magic. */
  function DecodeBinary<T>(s: string, prec: Precision): Outcome<T> {
    var k := Min(8, |s|);
    if |s| >= 4 && s[..4] == MAGIC[..4] then Outcome(0, BinaryPayload, [], s[k..])
    else Outcome(1, Vector(0, None), [Report(ERROR, BinaryName(prec) + ": bad magic")], s[k..])
  }

  const FALLS_TO_BINARY: Report := Report(WARNING, "falls to binary mode")

  /** The text path of the decoder on input `s`: the first token past the
      comments is "nil" or the count, and a positive count is followed by
      that many elements. */
  function DecodeTokens<T>(s: string, parse: string -> T): Outcome<T> {
    var (t, rest) := NextToken(AfterComments(s));
    if CStr(t) == "nil" then Outcome(0, Vector(SIZE_MAX, None), [], rest)
    else
      var n := ToSizeT(Atoi(CStr(t)));
      if n > 0 then
        var (vs, rest') := ReadValues(rest, n, TokenReader(parse));
        Outcome(0, Vector(n, Some(vs)), [], rest')
      else Outcome(0, Vector(0, None), [], rest)
  }

  /** vec_new_double_vector_from_file on input `s`. */
  function DecodeText<T>(s: string, parse: string -> T, prec: Precision): Outcome<T> {
    if s != [] && s[0] == 'V' then
      var b := DecodeBinary<T>(s, prec);
      b.(reports := [FALLS_TO_BINARY] + b.reports)
    else DecodeTokens(s, parse)
  }

  // ---------------------------------------------------------------- properties of the encoder

  lemma {:induction false} LinesFromCount<T>(xs: seq<T>, i: nat, fmt: T -> string)
    requires i <= |xs|
    requires forall k :: i <= k < |xs| ==> '\n' !in fmt(xs[k])
    ensures Count(LinesFrom(xs, i, fmt), '\n') == |xs| - i
    decreases |xs| - i
  {
    if i < |xs| {
      LinesFromCount(xs, i + 1, fmt);
      CountAppend(fmt(xs[i]) + "\n", LinesFrom(xs, i + 1, fmt), '\n');
      CountAppend(fmt(xs[i]), "\n", '\n');
      CountAbsent(fmt(xs[i]), '\n');
      assert Count("\n", '\n') == 1 by {
        assert "\n"[1..] == "";
      }
    }
  }

  lemma SpacesHaveNoNewline(n: nat)
    ensures '\n' !in Spaces(n)
  {
    forall c | c in Spaces(n) ensures c == ' ' {
      var k :| 0 <= k < n && Spaces(n)[k] == c;
    }
  }

  lemma {:induction false} CellsFromCount<T>(xs: seq<T>, i: nat, e: nat, fmt: T -> string)
    requires e <= |xs|
    requires forall k :: i <= k < e ==> '\n' !in fmt(xs[k])
    ensures Count(CellsFrom(xs, i, e, fmt), '\n') == 0
    decreases e - i
  {
    if i < e {
      CellsFromCount(xs, i + 1, e, fmt);
      var x := fmt(xs[i]);
      CountAppend(Cell(xs[i], fmt), CellsFrom(xs, i + 1, e, fmt), '\n');
      CountAppend(Pad(x, FIELD_WIDTH), " ", '\n');
      CountAbsent(x, '\n');
      CountAbsent(" ", '\n');
      if |x| < FIELD_WIDTH {
        SpacesHaveNoNewline(FIELD_WIDTH - |x|);
        CountAbsent(Spaces(FIELD_WIDTH - |x|), '\n');
        CountAppend(Spaces(FIELD_WIDTH - |x|), x, '\n');
      }
    }
  }

  /** The number of rows of at most s elements that hold d elements. */
  function RowCount(d: nat, s: nat): nat
    requires s > 0
    decreases d
  {
    if d == 0 then 0 else if d <= s then 1 else 1 + RowCount(d - s, s)
  }

  /** The row count is ceil(d / s). */
  lemma {:induction false} RowCountIsCeiling(d: nat, s: nat)
    requires s > 0
    ensures RowCount(d, s) == (d + s - 1) / s
    decreases d
  {
    if d == 0 {
      DivUnique(s - 1, s, 0, s - 1);
    } else if d <= s {
      DivUnique(d + s - 1, s, 1, d - 1);
    } else {
      RowCountIsCeiling(d - s, s);
      DivStep(d - s + s - 1, s);
      assert d + s - 1 == s + (d - s + s - 1);
    }
  }

  /** Each row adds one line break. */
  lemma RowsFromStep<T>(xs: seq<T>, i: nat, s: nat, fmt: T -> string)
    requires s > 0 && i < |xs|
    requires forall k :: i <= k < |xs| ==> '\n' !in fmt(xs[k])
    ensures Count(RowsFrom(xs, i, s, fmt), '\n') == 1 + Count(RowsFrom(xs, i + s, s, fmt), '\n')
  {
    var cells := CellsFrom(xs, i, Min(i + s, |xs|), fmt);
    var rest := RowsFrom(xs, i + s, s, fmt);
    assert RowsFrom(xs, i, s, fmt) == cells + "\n" + rest;
    CellsFromCount(xs, i, Min(i + s, |xs|), fmt);
    CountAppend(cells + "\n", rest, '\n');
    CountAppend(cells, "\n", '\n');
    assert Count("\n", '\n') == 1 by {
      assert "\n"[1..] == "";
    }
  }

  /** Rows from element i on hold one line break per row. */
  lemma {:induction false} RowsFromCount<T>(xs: seq<T>, i: nat, s: nat, fmt: T -> string)
    requires s > 0 && i <= |xs|
    requires forall k :: i <= k < |xs| ==> '\n' !in fmt(xs[k])
    ensures Count(RowsFrom(xs, i, s, fmt), '\n') == RowCount(|xs| - i, s)
    decreases |xs| - i
  {
    if i < |xs| {
      RowsFromStep(xs, i, s, fmt);
      if i + s < |xs| {
        RowsFromCount(xs, i + s, s, fmt);
      } else {
        assert RowsFrom(xs, i + s, s, fmt) == "";
      }
    }
  }

  /** Division by d is determined by any quotient and remainder. */
  lemma DivStep(x: nat, s: nat)
    requires s > 0
    ensures (s + x) / s == 1 + x / s
  {
    DivUnique(s + x, s, 1 + x / s, x % s);
  }

  lemma DivOne(x: nat, s: nat)
    requires s > 0 && s <= x < 2 * s
    ensures x / s == 1
  {
    DivUnique(x, s, 1, x - s);
  }

  /** With stride s <= 1 the body is exactly n lines; with s > 1 it is
      ceil(n / s) rows, each ended by its line break. */
  lemma BodyLineCount<T>(xs: seq<T>, s: nat, fmt: T -> string)
    requires forall k :: 0 <= k < |xs| ==> '\n' !in fmt(xs[k])
    ensures s <= 1 ==> Count(Body(xs, s, fmt), '\n') == |xs|
    ensures s > 1 ==> Count(Body(xs, s, fmt), '\n') == (|xs| + s - 1) / s
    ensures Body(xs, s, fmt) == [] || Body(xs, s, fmt)[|Body(xs, s, fmt)| - 1] == '\n'
  {
    if s > 1 {
      RowsFromCount(xs, 0, s, fmt);
      RowCountIsCeiling(|xs|, s);
    } else {
      LinesFromCount(xs, 0, fmt);
    }
    if s > 1 {
      RowsEndLine(xs, 0, s, fmt);
    } else {
      LinesEndLine(xs, 0, fmt);
    }
  }

  lemma {:induction false} RowsEndLine<T>(xs: seq<T>, i: nat, s: nat, fmt: T -> string)
    requires s > 0
    ensures var r := RowsFrom(xs, i, s, fmt); r == [] || r[|r| - 1] == '\n'
    decreases |xs| - i
  {
    if i < |xs| {
      RowsEndLine(xs, i + s, s, fmt);
      var c := CellsFrom(xs, i, Min(i + s, |xs|), fmt);
      var rest := RowsFrom(xs, i + s, s, fmt);
      EndsInLine(c, rest);
    }
  }

  /** A line break followed by text that is empty or ends in a line break
      ends in a line break. */
  lemma EndsInLine(c: string, rest: string)
    requires rest == [] || rest[|rest| - 1] == '\n'
    ensures var r := c + "\n" + rest; r[|r| - 1] == '\n'
  {
  }

  lemma {:induction false} LinesEndLine<T>(xs: seq<T>, i: nat, fmt: T -> string)
    ensures var r := LinesFrom(xs, i, fmt); r == [] || r[|r| - 1] == '\n'
    decreases |xs| - i
  {
    if i < |xs| {
      LinesEndLine(xs, i + 1, fmt);
      EndsInLine(fmt(xs[i]), LinesFrom(xs, i + 1, fmt));
    }
  }

  /** The two encoders differ only in the nil case and in counts that "%d"
      cannot print. */
  lemma EncodersAgree<T>(n: SizeT, v: Option<seq<T>>, s: nat, fmt: T -> string)
    requires v.Some? ==> |v.value| == n
    requires n <= INT_MAX && (n == 0 || v.Some?)
    ensures EncodeTextAsWritten(n, v, s, fmt) == EncodeText(n, v, s, fmt)
  {
  }

  // ---------------------------------------------------------------- encoder methods

  function PutName(prec: Precision): string {
    "vec_put_" + TypeName(prec) + "_vector_to_file"
  }

  /** The inner loop of the row layout (vec.c:320-324): the j loop visits all
      s places of the row but prints only those inside the vector. */
  method PutRow<T>(v: array<T>, n: nat, i: nat, s: nat, w: Writer, fmt: T -> string)
    requires n <= v.Length && i < n && s > 1
    modifies w
    ensures w.out == old(w.out) + CellsFrom(v[..n], i, Min(i + s, n), fmt)
  {
    ghost var xs := v[..n];
    ghost var e := Min(i + s, n);
    ghost var out0 := w.out;
    var j := 0;
    while j < s
      invariant v[..n] == xs
      invariant j <= s
      invariant out0 + CellsFrom(xs, i, e, fmt) == w.out + CellsFrom(xs, Min(i + j, e), e, fmt)
    {
      CellsStep(xs, i, j, s, e, fmt);
      if i + j < n {
        ghost var before := w.out;
        assert xs[i + j] == v[i + j];
        w.Put(Cell(v[i + j], fmt));
        ConcatAssoc(before, Cell(xs[i + j], fmt), CellsFrom(xs, Min(i + j + 1, e), e, fmt));
      }
      j := j + 1;
    }
    assert w.out + "" == w.out;
  }

  /** One place of a row: inside the vector it is the next cell, past its
      end it adds nothing. */
  lemma CellsStep<T>(xs: seq<T>, i: nat, j: nat, s: nat, e: nat, fmt: T -> string)
    requires j < s && e == Min(i + s, |xs|)
    ensures i + j < |xs| ==>
      CellsFrom(xs, Min(i + j, e), e, fmt) == Cell(xs[i + j], fmt) + CellsFrom(xs, Min(i + j + 1, e), e, fmt)
    ensures i + j >= |xs| ==> Min(i + j, e) == Min(i + j + 1, e)
  {
  }

  /** The row layout (vec.c:317-326). */
  method PutRows<T>(v: array<T>, n: nat, s: nat, w: Writer, fmt: T -> string)
    requires n <= v.Length && s > 1
    modifies w
    ensures w.out == old(w.out) + RowsFrom(v[..n], 0, s, fmt)
  {
    ghost var xs := v[..n];
    ghost var out0 := w.out;
    var i := 0;
    while i < n
      invariant v[..n] == xs
      invariant out0 + RowsFrom(xs, 0, s, fmt) == w.out + RowsFrom(xs, i, s, fmt)
      decreases n - i
    {
      ghost var before := w.out;
      ghost var cells := CellsFrom(xs, i, Min(i + s, n), fmt);
      ghost var next := RowsFrom(xs, i + s, s, fmt);
      assert RowsFrom(xs, i, s, fmt) == cells + "\n" + next;
      PutRow(v, n, i, s, w, fmt);
      w.Put("\n");
      assert w.out == before + cells + "\n";
      ConcatAssoc(before, cells + "\n", next);
      ConcatAssoc(before, cells, "\n");
      i := i + s;
    }
    assert w.out + "" == w.out;
  }

  /** The one-per-line layout (vec.c:328-333). */
  method PutLines<T>(v: array<T>, n: nat, w: Writer, fmt: T -> string)
    requires n <= v.Length
    modifies w
    ensures w.out == old(w.out) + LinesFrom(v[..n], 0, fmt)
  {
    ghost var xs := v[..n];
    ghost var out0 := w.out;
    var i := 0;
    while i < n
      invariant v[..n] == xs
      invariant i <= n
      invariant out0 + LinesFrom(xs, 0, fmt) == w.out + LinesFrom(xs, i, fmt)
    {
      ghost var before := w.out;
      assert xs[i] == v[i];
      w.Put(fmt(v[i]) + "\n");
      ConcatAssoc(before, fmt(xs[i]) + "\n", LinesFrom(xs, i + 1, fmt));
      i := i + 1;
    }
    assert w.out + "" == w.out;
  }

  /** vec_put_double_vector_to_file and vec_put_float_vector_to_file
      (vec.c:313-348, 190-224). */
  method PutVector<T>(n: SizeT, v: array?<T>, s: nat, w: Writer?, fmt: T -> string, prec: Precision)
    returns (status: int, reports: seq<Report>)
    requires v != null ==> n <= v.Length
    modifies w
    ensures w == null ==> status == 1 && reports == [Report(ERROR, PutName(prec) + ": fout == NULL")]
    ensures w != null ==> (status == 0 && reports == [] &&
      w.out == old(w.out) + EncodeTextAsWritten(n, if v == null then None else Some(v[..n]), s, fmt))
  {
    if w == null {
      return 1, [Report(ERROR, PutName(prec) + ": fout == NULL")];
    }
    ghost var out0 := w.out;
    w.Put(CountLine(n));
    ghost var out1 := w.out;
    if n > 0 && v != null {
      if s > 1 {
        PutRows(v, n, s, w, fmt);
      } else {
        PutLines(v, n, w, fmt);
      }
    } else if n == 0 {
      w.Put("0\n");
    } else {
      var _, _ := PutNil(w);
    }
    ConcatAssoc(out0, CountLine(n), w.out[|out1|..]);
    return 0, [];
  }

  function PutBinaryName(prec: Precision): string {
    "vec_put_" + TypeName(prec) + "_vector_to_file_binary"
  }

  /** vec_put_double_vector_to_file_binary (vec.c:398-409): the magic, then
      the count and the elements in the machine's own layout, written by
      `word` and `payload`.  Every refusal reports the NULL-stream text. */
  method PutVectorBinary<T>(n: SizeT, v: array?<T>, w: Writer?, word: SizeT -> string,
                            payload: seq<T> -> string, prec: Precision)
    returns (status: int, reports: seq<Report>)
    requires v != null ==> n <= v.Length
    modifies w
    ensures w == null || v == null || n == 0 ==>
      status == 1 && reports == [Report(ERROR, PutBinaryName(prec) + ": fout == NULL")]
    ensures w != null && v != null && n > 0 ==>
      status == 0 && reports == [] && w.out == old(w.out) + MAGIC + word(n) + payload(v[..n])
  {
    if w != null && v != null && n > 0 {
      w.Put(MAGIC);
      w.Put(word(n));
      w.Put(payload(v[..n]));
      return 0, [];
    } else {
      return 1, [Report(ERROR, PutBinaryName(prec) + ": fout == NULL")];
    }
  }

  // ---------------------------------------------------------------- decoder methods

  /** The element loop of the decoder (vec.c:369-373): n tokens, each read
      after skip_comment, converted into a fresh array. */
  method ReadInto<T(0)>(r: Reader, n: nat, parse: string -> T) returns (a: array<T>)
    requires r.Valid()
    modifies r
    ensures fresh(a) && a.Length == n
    ensures r.Valid() && (a[..], r.Rest()) == ReadValues(old(r.Rest()), n, TokenReader(parse))
  {
    ghost var s0 := r.Rest();
    a := new T[n];
    var i := 0;
    while i < n
      invariant i <= n && r.Valid()
      invariant (a[..i], r.Rest()) == ReadValues(s0, i, TokenReader(parse))
    {
      ghost var before := r.Rest();
      SkipComment(r);
      var t := GetToken(r);
      a[i] := parse(CStr(t));
      assert (a[i], r.Rest()) == TokenReader(parse)(before);
      ghost var prev := ReadValues(s0, i, TokenReader(parse));
      assert ReadValues(s0, i + 1, TokenReader(parse)) == (prev.0 + [a[i]], r.Rest());
      assert a[..i + 1] == a[..i] + [a[i]];
      i := i + 1;
    }
    assert a[..] == a[..n];
  }

  /** vec_new_double_vector_from_file_binary (vec.c:411-434), the payload
      excluded.  `previous` is what the caller's *n and *v held before the
      call: a null stream leaves them as they were. */
  method NewVectorBinary<T>(r: Reader?, prec: Precision, previous: Decoded<T>)
    returns (status: int, result: Decoded<T>, reports: seq<Report>)
    requires r != null ==> r.Valid()
    modifies r
    ensures r == null ==>
      status == 1 && result == previous && reports == [Report(ERROR, BinaryName(prec) + ": fin == NULL")]
    ensures r != null ==> (r.Valid() &&
      var o := DecodeBinary<T>(old(r.Rest()), prec);
      status == o.status && result == o.result && reports == o.reports && r.Rest() == o.rest)
  {
    if r == null {
      return 1, previous, [Report(ERROR, BinaryName(prec) + ": fin == NULL")];
    }
    ghost var s := r.Rest();
    var buff := Fread(r, 8);
    if |buff| >= 4 && buff[..4] == MAGIC[..4] {
      assert s[..4] == buff[..4];
      return 0, BinaryPayload, [];
    } else {
      assert |s| >= 4 ==> |buff| >= 4 && s[..4] == buff[..4];
      return 1, Vector(0, None), [Report(ERROR, BinaryName(prec) + ": bad magic")];
    }
  }

  function NewName(prec: Precision): string {
    "vec_new_" + TypeName(prec) + "_vector_from_file"
  }

  /** The text path of the decoder (vec.c:363-383). */
  method NewVectorText<T(0)>(r: Reader, parse: string -> T)
    returns (result: Decoded<T>)
    requires r.Valid()
    modifies r
    ensures r.Valid()
    ensures var o := DecodeTokens(old(r.Rest()), parse);
      result == o.result && r.Rest() == o.rest
  {
    SkipComment(r);
    var t := GetToken(r);
    if CStr(t) != "nil" {
      var n := ToSizeT(Atoi(CStr(t)));
      if n > 0 {
        var a := ReadInto(r, n, parse);
        result := Vector(n, Some(a[..]));
      } else {
        result := Vector(0, None);
      }
    } else {
      result := Vector(SIZE_MAX, None);
    }
  }

  /** vec_new_double_vector_from_file and vec_new_float_vector_from_file
      (vec.c:350-390, 226-267): a one-character look-ahead for 'V' switches
      to the binary decoder and leaves the character in the stream.  A null
      stream leaves the caller's *n and *v, given as `previous`, untouched. */
  method NewVector<T(0)>(r: Reader?, parse: string -> T, prec: Precision, previous: Decoded<T>)
    returns (status: int, result: Decoded<T>, reports: seq<Report>)
    requires r != null ==> r.Valid()
    modifies r
    ensures r == null ==>
      status == 1 && result == previous && reports == [Report(ERROR, NewName(prec) + ": fin == NULL")]
    ensures r != null ==> (r.Valid() &&
      var o := DecodeText(old(r.Rest()), parse, prec);
      status == o.status && result == o.result && reports == o.reports && r.Rest() == o.rest)
  {
    if r == null {
      return 1, previous, [Report(ERROR, NewName(prec) + ": fin == NULL")];
    }
    if r.pos < |r.data| && r.data[r.pos] == 'V' {
      status, result, reports := NewVectorBinary(r, prec, previous);
      reports := [FALLS_TO_BINARY] + reports;
    } else {
      result := NewVectorText(r, parse);
      status, reports := 0, [];
    }
  }
}
