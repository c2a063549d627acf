/** The splice tool's interleave: two decoded vectors cut to the shorter
    length and merged into pairs, written as rows of two. */
module Splice {
  import opened CText
  import opened Tokenizer
  import opened TextCodec
  import opened RoundTrip

  /** The common length of the two vectors. */
  function SpliceLength(n1: nat, n2: nat): nat {
    Min(n1, n2)
  }

  /** The warning splice prints on stderr, when the lengths differ. */
  function SpliceWarning(n1: nat, n2: nat): (r: seq<string>)
    ensures |r| <= 1
    ensures r != [] <==> n1 != n2
  {
    if n1 != n2 then ["splice: warning: vector size was adjusted to: " + IntToString(Min(n1, n2)) + "\n"] else []
  }

  /** The pairs (v1[i], v2[i]) one after another, for the common length. */
  function Interleaved(v1: seq<real>, v2: seq<real>): (r: seq<real>)
    ensures |r| == 2 * Min(|v1|, |v2|)
  {
    var n := Min(|v1|, |v2|);
    seq(2 * n, k requires 0 <= k < 2 * n => if k % 2 == 0 then v1[k / 2] else v2[k / 2])
  }

  /** The elements at even and at odd positions. */
  function Evens(r: seq<real>): (e: seq<real>)
    ensures |e| == (|r| + 1) / 2
  {
    seq((|r| + 1) / 2, i requires 0 <= i < (|r| + 1) / 2 => r[2 * i])
  }

  function Odds(r: seq<real>): (o: seq<real>)
    ensures |o| == |r| / 2
  {
    seq(|r| / 2, i requires 0 <= i < |r| / 2 => r[2 * i + 1])
  }

  /** Element 2i is v1[i] and element 2i + 1 is v2[i]. */
  lemma InterleavedAt(v1: seq<real>, v2: seq<real>, i: nat)
    requires i < Min(|v1|, |v2|)
    ensures Interleaved(v1, v2)[2 * i] == v1[i] && Interleaved(v1, v2)[2 * i + 1] == v2[i]
  {
    BlockDivMod(i, 2, 0);
    BlockDivMod(i, 2, 1);
  }

  /** Taking the pairs apart gives back both inputs, cut to the common
      length. */
  lemma Unzip(v1: seq<real>, v2: seq<real>)
    ensures var n := Min(|v1|, |v2|);
      Evens(Interleaved(v1, v2)) == v1[..n] && Odds(Interleaved(v1, v2)) == v2[..n]
  {
    var n := Min(|v1|, |v2|);
    var r := Interleaved(v1, v2);
    DivUnique(2 * n + 1, 2, n, 1);
    DivUnique(2 * n, 2, n, 0);
    forall i | 0 <= i < n ensures Evens(r)[i] == v1[i] && Odds(r)[i] == v2[i] {
      InterleavedAt(v1, v2, i);
    }
  }

  /** A sequence of twice the common length holding v1[i] at 2i and v2[i]
      at 2i + 1 is the interleave. */
  lemma AlternatingIsInterleaved(r: seq<real>, v1: seq<real>, v2: seq<real>)
    requires |r| == 2 * Min(|v1|, |v2|)
    requires forall k :: 0 <= k < Min(|v1|, |v2|) ==> r[2 * k] == v1[k] && r[2 * k + 1] == v2[k]
    ensures r == Interleaved(v1, v2)
  {
    forall j | 0 <= j < |r| ensures r[j] == Interleaved(v1, v2)[j] {
      var k := j / 2;
      assert j == 2 * k + j % 2;
      InterleavedAt(v1, v2, k);
    }
  }

  /** process_files: the output array of length 2N filled pair by pair; the
      inputs are only read. */
  method Interleave(v1: array<real>, n1: nat, v2: array<real>, n2: nat) returns (v: array<real>, warnings: seq<string>)
    requires n1 <= v1.Length && n2 <= v2.Length
    ensures fresh(v)
    ensures v[..] == Interleaved(v1[..n1], v2[..n2])
    ensures warnings == SpliceWarning(n1, n2)
  {
    var n := SpliceLength(n1, n2);
    warnings := SpliceWarning(n1, n2);
    v := new real[n * 2];
    for i := 0 to n
      invariant forall k :: 0 <= k < i ==> v[2 * k] == v1[k] && v[2 * k + 1] == v2[k]
    {
      v[i * 2 + 0] := v1[i];
      v[i * 2 + 1] := v2[i];
    }
    AlternatingIsInterleaved(v[..], v1[..n1], v2[..n2]);
  }

  // ---------------------------------------------------------------- layout

  /** One row per pair: the cell of v1[i], the cell of v2[i], a line break. */
  function PairRows(v1: seq<real>, v2: seq<real>, i: nat, fmt: real -> string): string
    requires |v1| == |v2|
    decreases |v1| - i
  {
    if i >= |v1| then "" else Cell(v1[i], fmt) + Cell(v2[i], fmt) + "\n" + PairRows(v1, v2, i + 1, fmt)
  }

  /** r holds v1 at its even places and v2 at its odd places. */
  ghost predicate Alternates(r: seq<real>, v1: seq<real>, v2: seq<real>) {
    |v1| == |v2| && |r| == 2 * |v1| &&
    forall k :: 0 <= k < |v1| ==> r[2 * k] == v1[k] && r[2 * k + 1] == v2[k]
  }

  lemma InterleavedAlternates(v1: seq<real>, v2: seq<real>)
    requires |v1| == |v2|
    ensures Alternates(Interleaved(v1, v2), v1, v2)
  {
    forall k | 0 <= k < |v1| ensures Interleaved(v1, v2)[2 * k] == v1[k] && Interleaved(v1, v2)[2 * k + 1] == v2[k] {
      InterleavedAt(v1, v2, k);
    }
  }

  /** Written with stride 2, the spliced vector has one text row per pair. */
  lemma SpliceRows(v1: seq<real>, v2: seq<real>, fmt: real -> string)
    requires |v1| == |v2|
    ensures Body(Interleaved(v1, v2), 2, fmt) == PairRows(v1, v2, 0, fmt)
  {
    InterleavedAlternates(v1, v2);
    RowsOfPairs(Interleaved(v1, v2), v1, v2, 0, fmt);
  }

  lemma {:induction false} RowsOfPairs(r: seq<real>, v1: seq<real>, v2: seq<real>, i: nat, fmt: real -> string)
    requires Alternates(r, v1, v2) && i <= |v1|
    ensures RowsFrom(r, 2 * i, 2, fmt) == PairRows(v1, v2, i, fmt)
    decreases |v1| - i
  {
    if i < |v1| {
      var j := 2 * i;
      RowsOfPairs(r, v1, v2, i + 1, fmt);
      PairCells(r, v1, v2, i, fmt);
      RowOfTwo(r, j, fmt);
      assert j + 2 == 2 * (i + 1);
    }
  }

  /** A row of two cells inside the vector, then the rows after it. */
  lemma RowOfTwo<T>(r: seq<T>, j: nat, fmt: T -> string)
    requires j + 2 <= |r|
    ensures RowsFrom(r, j, 2, fmt) == CellsFrom(r, j, j + 2, fmt) + "\n" + RowsFrom(r, j + 2, 2, fmt)
  {
    assert Min(j + 2, |r|) == j + 2;
  }

  /** The row of pair i holds the cells of v1[i] and v2[i]. */
  lemma PairCells(r: seq<real>, v1: seq<real>, v2: seq<real>, i: nat, fmt: real -> string)
    requires Alternates(r, v1, v2) && i < |v1|
    ensures CellsFrom(r, 2 * i, 2 * i + 2, fmt) == Cell(v1[i], fmt) + Cell(v2[i], fmt)
  {
    assert r[2 * i] == v1[i] && r[2 * i + 1] == v2[i];
    assert CellsFrom(r, 2 * i + 2, 2 * i + 2, fmt) == "";
    assert CellsFrom(r, 2 * i + 1, 2 * i + 2, fmt) == Cell(v2[i], fmt) + "";
  }

  /** What splice writes after the header decodes to the pairs, and taking
      them apart gives back both inputs cut to the common length. */
  lemma SpliceReadsBack(ls: seq<string>, v1: seq<real>, v2: seq<real>, tail: string,
                        fmt: real -> string, parse: string -> real, prec: Diagnostics.Precision)
    requires forall i :: 0 <= i < |ls| ==> IsCommentLine(ls[i])
    requires 0 < Min(|v1|, |v2|) && 2 * Min(|v1|, |v2|) < SIZE_T_MODULUS
    requires AllSurvive(v1, fmt, parse) && AllSurvive(v2, fmt, parse)
    ensures var r := Interleaved(v1, v2);
      var o := DecodeText(Lines(ls) + EncodeText(|r|, Some(r), 2, fmt) + tail, parse, prec);
      && o.status == 0 && o.result == Vector(|r|, Some(r))
      && Evens(o.result.values.value) == v1[..Min(|v1|, |v2|)]
      && Odds(o.result.values.value) == v2[..Min(|v1|, |v2|)]
  {
    var r := Interleaved(v1, v2);
    InterleavedSurvives(v1, v2, fmt, parse);
    DecodeEncode(ls, r, 2, tail, fmt, parse, prec);
    Unzip(v1, v2);
  }

  /** What splice actually writes, with the %d count line, reads back the
      same way while the 2N elements fit an int. */
  lemma SpliceReadsBackAsWritten(ls: seq<string>, v1: seq<real>, v2: seq<real>, tail: string,
                                 fmt: real -> string, parse: string -> real, prec: Diagnostics.Precision)
    requires forall i :: 0 <= i < |ls| ==> IsCommentLine(ls[i])
    requires 0 < Min(|v1|, |v2|) && 2 * Min(|v1|, |v2|) <= INT_MAX
    requires AllSurvive(v1, fmt, parse) && AllSurvive(v2, fmt, parse)
    ensures var r := Interleaved(v1, v2);
      var o := DecodeText(Lines(ls) + EncodeTextAsWritten(|r|, Some(r), 2, fmt) + tail, parse, prec);
      && o.status == 0 && o.result == Vector(|r|, Some(r))
      && Evens(o.result.values.value) == v1[..Min(|v1|, |v2|)]
      && Odds(o.result.values.value) == v2[..Min(|v1|, |v2|)]
  {
    var r := Interleaved(v1, v2);
    InterleavedSurvives(v1, v2, fmt, parse);
    DecodeEncodeAsWritten(ls, r, 2, tail, fmt, parse, prec);
    Unzip(v1, v2);
  }

  /** Every element of the interleave comes from one of the inputs. */
  lemma InterleavedSurvives(v1: seq<real>, v2: seq<real>, fmt: real -> string, parse: string -> real)
    requires AllSurvive(v1, fmt, parse) && AllSurvive(v2, fmt, parse)
    ensures AllSurvive(Interleaved(v1, v2), fmt, parse)
  {
    var r := Interleaved(v1, v2);
    forall k | 0 <= k < |r| ensures Survives(r[k], fmt, parse) {
      var i := k / 2;
      BlockDivMod(i, 2, k % 2);
      InterleavedAt(v1, v2, i);
    }
  }
}
