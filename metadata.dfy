/** The metadata writers of vec.c: the header, hint, message and nil lines,
    and the filter that copies message lines from one stream to another. */
module Metadata {
  import opened CText
  import opened Streams
  import opened Diagnostics
  import opened Tokenizer

  /** The three header lines.  They are written with fputs, so the third line
      starts with two percent signs; `package` is the configured package
      string. */
  function HeaderText(package: string): string {
    "%!VCTR\n" + "%-format=1.1\n" + "%%Created with " + package + "\n"
  }

  /** The hint line "%*<hint>=<parameter>". */
  function HintLine(hint: string, parameter: int): string {
    "%*" + hint + "=" + IntToString(parameter) + "\n"
  }

  /** The message with every line break turned into a blank. */
  function Flatten(s: string): (r: string)
    ensures |r| == |s| && '\n' !in r
    ensures forall i :: 0 <= i < |s| ==> r[i] == if s[i] == '\n' then ' ' else s[i]
  {
    seq(|s|, i requires 0 <= i < |s| => if s[i] == '\n' then ' ' else s[i])
  }

  /** The message line "%?<message>" with the message flattened. */
  function MessageLine(comment: string): string {
    "%?" + Flatten(comment) + "\n"
  }

  const NIL_TEXT: string := "nil\n\n"

  /** Whether fgets stored a line that starts with "%?". */
  predicate IsMessageChunk(c: string) {
    |c| >= 2 && c[0] == '%' && c[1] == '?'
  }

  /** What the message scan copies from input `s`: the input is read in
      fgets chunks of at most MAXIMUM_LINE_LENGTH - 1 characters, and every
      chunk that starts with "%?" is written out with fputs, that is up to
      its first NUL. */
  function Forwarded(s: string): string
    decreases |s|
  {
    if s == [] then ""
    else
      var c := FgetsChunk(s, MAXIMUM_LINE_LENGTH - 1);
      (if IsMessageChunk(c) then CStr(c) else "") + Forwarded(s[|c|..])
  }

  /** One step of the scan. */
  lemma ForwardedStep(s: string)
    requires s != []
    ensures var c := FgetsChunk(s, MAXIMUM_LINE_LENGTH - 1);
      Forwarded(s) == (if IsMessageChunk(c) then CStr(c) else "") + Forwarded(s[|c|..])
  {
  }

  /** The lines of `ls` that are message lines, in order. */
  function MessageLines(ls: seq<string>): (r: seq<string>)
    ensures |r| <= |ls|
    ensures forall i :: 0 <= i < |r| ==> r[i] in ls && IsMessageChunk(r[i] + "\n")
  {
    if ls == [] then []
    else (if IsMessageChunk(ls[0] + "\n") then [ls[0]] else []) + MessageLines(ls[1..])
  }

  // ---------------------------------------------------------------- properties

  /** The message line is one line, starts with "%?" and keeps every other
      character of the message. */
  lemma MessageLineShape(comment: string)
    ensures var l := MessageLine(comment);
      && IsMessageChunk(l) && l[|l| - 1] == '\n' && '\n' !in l[..|l| - 1]
      && l[2..|l| - 1] == Flatten(comment)
  {
    var l := MessageLine(comment);
    assert l[..|l| - 1] == "%?" + Flatten(comment);
  }

  /** The scan reads a line shorter than its buffer as one chunk. */
  lemma {:induction false} ForwardedLine(l: string, rest: string)
    requires '\n' !in l && '\0' !in l && |l| + 1 < MAXIMUM_LINE_LENGTH
    ensures Forwarded(l + "\n" + rest) ==
              (if IsMessageChunk(l + "\n") then l + "\n" else "") + Forwarded(rest)
  {
    var s := l + "\n" + rest;
    FgetsWholeLine(l, rest, MAXIMUM_LINE_LENGTH - 1);
    var c := l + "\n";
    assert s[|c|..] == rest;
    assert '\0' !in c;
    IndexOfAbsent(c, '\0');
    assert CStr(c) == c;
  }

  /** The scan forwards exactly the message lines of its input, unchanged
      and in order, when every line fits in the buffer. */
  lemma {:induction false} ForwardedLines(ls: seq<string>)
    requires forall i :: 0 <= i < |ls| ==>
      '\n' !in ls[i] && '\0' !in ls[i] && |ls[i]| + 1 < MAXIMUM_LINE_LENGTH
    ensures Forwarded(Lines(ls)) == Lines(MessageLines(ls))
  {
    if ls != [] {
      ForwardedLine(ls[0], Lines(ls[1..]));
      ForwardedLines(ls[1..]);
      assert Lines(ls) == ls[0] + "\n" + Lines(ls[1..]);
      if IsMessageChunk(ls[0] + "\n") {
        assert MessageLines(ls) == [ls[0]] + MessageLines(ls[1..]);
        assert ([ls[0]] + MessageLines(ls[1..]))[1..] == MessageLines(ls[1..]);
      } else {
        assert MessageLines(ls) == MessageLines(ls[1..]);
      }
    }
  }

  /** A message written by PutMessage is forwarded by the scan. */
  lemma MessageIsForwarded(comment: CString, rest: string)
    requires |comment| + 3 < MAXIMUM_LINE_LENGTH
    ensures Forwarded(MessageLine(comment) + rest) == MessageLine(comment) + Forwarded(rest)
  {
    var l := "%?" + Flatten(comment);
    assert '\0' !in Flatten(comment) by {
      forall i | 0 <= i < |comment| ensures Flatten(comment)[i] != '\0' {
        assert comment[i] in comment;
      }
    }
    assert '\n' !in l && '\0' !in l by {
      assert forall x :: x in l ==> x == '%' || x == '?' || x in Flatten(comment);
    }
    assert MessageLine(comment) + rest == l + "\n" + rest;
    ForwardedLine(l, rest);
  }

  // ---------------------------------------------------------------- methods

  /** vec_put_header_to_file (vec.c:115-127). */
  method PutHeader(w: Writer?, package: string) returns (status: int, reports: seq<Report>)
    modifies w
    ensures w == null ==>
      status == 1 && reports == [Report(ERROR, "vec_put_header_to_file: fout == NULL")]
    ensures w != null ==>
      status == 0 && reports == [] && w.out == old(w.out) + HeaderText(package)
  {
    if w != null {
      w.Put(HeaderText(package));
      return 0, [];
    } else {
      return 1, [Report(ERROR, "vec_put_header_to_file: fout == NULL")];
    }
  }

  /** vec_put_hint_to_file (vec.c:129-138). */
  method PutHint(hint: CString, parameter: int, w: Writer?) returns (status: int, reports: seq<Report>)
    modifies w
    ensures w == null ==>
      status == 1 && reports == [Report(ERROR, "vec_put_hint_to_file: fout == NULL")]
    ensures w != null ==>
      status == 0 && reports == [] && w.out == old(w.out) + HintLine(hint, parameter)
  {
    if w != null {
      w.Put(HintLine(hint, parameter));
      return 0, [];
    } else {
      return 1, [Report(ERROR, "vec_put_hint_to_file: fout == NULL")];
    }
  }

  /** The in-place rewrite of vec_put_message_to_file (vec.c:145-152): a copy
      of the message is walked once and every '\n' in it overwritten. */
  method FlattenCopy(comment: string) returns (flat: string)
    ensures flat == Flatten(comment)
  {
    var buff := new char[|comment|];
    forall k | 0 <= k < |comment| {
      buff[k] := comment[k];
    }
    var i := 0;
    while i < buff.Length
      invariant i <= buff.Length == |comment|
      invariant forall k :: 0 <= k < i ==> buff[k] == Flatten(comment)[k]
      invariant forall k :: i <= k < buff.Length ==> buff[k] == comment[k]
    {
      if buff[i] == '\n' {
        buff[i] := ' ';
      }
      i := i + 1;
    }
    flat := buff[..];
  }

  /** vec_put_message_to_file (vec.c:140-160).  A NULL message reports the
      same text as a NULL stream. */
  method PutMessage(comment: Option<CString>, w: Writer?) returns (status: int, reports: seq<Report>)
    modifies w
    ensures w == null || comment.None? ==>
      status == 1 && reports == [Report(ERROR, "vec_put_message_to_file: fout == NULL")]
    ensures w != null && comment.Some? ==>
      status == 0 && reports == [] && w.out == old(w.out) + MessageLine(comment.value)
  {
    if w != null && comment.Some? {
      var flat := FlattenCopy(comment.value);
      w.Put("%?" + flat + "\n");
      return 0, [];
    } else {
      return 1, [Report(ERROR, "vec_put_message_to_file: fout == NULL")];
    }
  }

  /** vec_put_nil_to_file (vec.c:179-188). */
  method PutNil(w: Writer?) returns (status: int, reports: seq<Report>)
    modifies w
    ensures w == null ==>
      status == 1 && reports == [Report(ERROR, "vec_put_nil_to_file: fout == NULL")]
    ensures w != null ==>
      status == 0 && reports == [] && w.out == old(w.out) + NIL_TEXT
  {
    if w != null {
      w.Put(NIL_TEXT);
      return 0, [];
    } else {
      return 1, [Report(ERROR, "vec_put_nil_to_file: fout == NULL")];
    }
  }

  /** The copying loop of the message scan (vec.c:164-170). */
  method CopyMessages(r: Reader, w: Writer)
    requires r.Valid()
    modifies r, w
    ensures r.Valid() && r.Rest() == []
    ensures w.out == old(w.out) + Forwarded(old(r.Rest()))
  {
    ghost var s0 := r.Rest();
    ghost var out0 := w.out;
    while r.pos < |r.data|
      invariant r.Valid()
      invariant out0 + Forwarded(s0) == w.out + Forwarded(r.Rest())
      decreases |r.data| - r.pos
    {
      ghost var s := r.Rest();
      ghost var before := w.out;
      var chunk := Fgets(r, MAXIMUM_LINE_LENGTH);
      ghost var piece := if IsMessageChunk(chunk) then CStr(chunk) else "";
      ghost var next := r.Rest();
      ForwardedStep(s);
      assert Forwarded(s) == piece + Forwarded(next);
      if IsMessageChunk(chunk) {
        w.Put(CStr(chunk));
      }
      assert w.out == before + piece;
      ConcatAssoc(before, piece, Forwarded(next));
    }
    assert Forwarded(r.Rest()) == [];
    assert w.out + [] == w.out;
  }

  /** vec_scan_messages_from_file_and_put_to_file (vec.c:162-177): the input
      is read to its end in line chunks and every "%?" chunk is copied. */
  method ScanMessages(r: Reader?, w: Writer?) returns (status: int, reports: seq<Report>)
    requires r != null ==> r.Valid()
    modifies r, w
    ensures r == null || w == null ==>
      status == 1 &&
      reports == [Report(ERROR, "vec_scan_messages_from_file_and_put_to_file: fin == fout == NULL")]
    ensures r != null && w != null ==>
      status == 0 && reports == [] && r.Valid() && r.Rest() == [] &&
      w.out == old(w.out) + Forwarded(old(r.Rest()))
  {
    if r != null && w != null {
      CopyMessages(r, w);
      return 0, [];
    } else {
      return 1, [Report(ERROR, "vec_scan_messages_from_file_and_put_to_file: fin == fout == NULL")];
    }
  }
}
