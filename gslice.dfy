/** The gslice tool: the ':'-separated size lists of its options, the
    inference of the first length, and the generalized slice of clause
    [gslice] of ISO/IEC 14882, with the selected index set written out. */
module GSlice {
  import opened CText
  import Loader
  import Kernels

  // ---------------------------------------------------------------- parse_numbers

  /** One piece of a size list: atoi, stored into a size_t. */
  function SizeOf(piece: string): SizeT {
    ToSizeT(Atoi(piece))
  }

  /** parse_numbers: the pieces between ':' separators through atoi, in
      order. */
  method ParseNumbers(s: CString) returns (values: seq<SizeT>)
    ensures |values| == Count(s, ':') + 1
    ensures values == MapSeq(Split(s, ':'), SizeOf)
  {
    var pieces := Loader.SplitPieces(s);
    values := Loader.ConvertAll(pieces, SizeOf);
  }

  /** The option text for a list of sizes: each printed in decimal, joined
      with ':'. */
  function SizeList(ns: seq<SizeT>): string {
    Join(MapSeq(ns, (n: SizeT) => IntToString(n)), ':')
  }

  /** parse_numbers reads back every non-empty list of sizes. */
  lemma ParseSizeList(ns: seq<SizeT>)
    requires |ns| > 0
    ensures MapSeq(Split(SizeList(ns), ':'), SizeOf) == ns
  {
    var p := MapSeq(ns, (n: SizeT) => IntToString(n));
    forall i | 0 <= i < |p| ensures ':' !in p[i] {
      var t := IntToString(ns[i]);
      assert forall k :: 0 <= k < |t| ==> t[k] != ':';
    }
    SplitJoin(p, ':');
    forall i | 0 <= i < |ns| ensures SizeOf(p[i]) == ns[i] {
      AtoiOfIntToString(ns[i]);
    }
  }

  // ---------------------------------------------------------------- first length

  /** A first length of 0 becomes the number of whole strides in the
      vector; nothing else changes. */
  function InferLengths(lengths: seq<SizeT>, n: SizeT, strides: seq<SizeT>): (r: seq<SizeT>)
    requires |lengths| > 0 && |strides| > 0 && (lengths[0] == 0 ==> strides[0] > 0)
    ensures |r| == |lengths| && r[1..] == lengths[1..]
    ensures lengths[0] != 0 ==> r == lengths
    ensures lengths[0] == 0 ==> r[0] as int * strides[0] <= n < (r[0] as int + 1) * strides[0]
  {
    if lengths[0] == 0 then
      WholeBlocks(n, strides[0]);
      lengths[0 := n / strides[0]]
    else lengths
  }

  method InferFirstLength(lengths: array<SizeT>, n: SizeT, strides: array<SizeT>)
    requires lengths.Length > 0 && strides.Length > 0 && (lengths[0] == 0 ==> strides[0] > 0)
    requires lengths != strides
    modifies lengths
    ensures lengths[..] == InferLengths(old(lengths[..]), n, strides[..])
  {
    if lengths[0] == 0 {
      lengths[0] := n / strides[0];
      assert lengths[..] == old(lengths[..])[0 := n / strides[0]];
    }
  }

  // ---------------------------------------------------------------- the index set

  /** The number of elements a gslice selects: the product of its lengths. */
  function Size(lengths: seq<nat>): nat {
    if |lengths| == 0 then 1 else lengths[0] * Size(lengths[1..])
  }

  /** The selected indices, last dimension fastest: for each index of the
      first dimension in turn, the selection of the remaining dimensions
      moved by that many first strides. */
  function Indices(offset: nat, lengths: seq<nat>, strides: seq<nat>): (r: seq<nat>)
    requires |lengths| == |strides|
    ensures |r| == Size(lengths)
    decreases |lengths|, if |lengths| == 0 then 0 else lengths[0] + 1
  {
    if |lengths| == 0 then [offset] else Along(offset, lengths, strides, 0)
  }

  /** The selections for first indices i, i + 1, ..., lengths[0] - 1. */
  function Along(offset: nat, lengths: seq<nat>, strides: seq<nat>, i: nat): (r: seq<nat>)
    requires |lengths| == |strides| > 0 && i <= lengths[0]
    ensures |r| == (lengths[0] - i) * Size(lengths[1..])
    decreases |lengths|, lengths[0] - i
  {
    if i == lengths[0] then []
    else
      assert (lengths[0] - i) * Size(lengths[1..]) == Size(lengths[1..]) + (lengths[0] - i - 1) * Size(lengths[1..]);
      Indices(offset + i * strides[0], lengths[1..], strides[1..]) + Along(offset, lengths, strides, i + 1)
  }

  /** A multi-index within the lengths. */
  predicate InRange(idx: seq<nat>, lengths: seq<nat>) {
    |idx| == |lengths| && forall k :: 0 <= k < |idx| ==> idx[k] < lengths[k]
  }

  /** The position of a multi-index in the selection: mixed radix with the
      last dimension least significant. */
  function Rank(idx: seq<nat>, lengths: seq<nat>): nat
    requires |idx| == |lengths|
  {
    if |idx| == 0 then 0 else idx[0] * Size(lengths[1..]) + Rank(idx[1..], lengths[1..])
  }

  /** The element index a multi-index selects, less the offset. */
  function Offset(idx: seq<nat>, strides: seq<nat>): nat
    requires |idx| == |strides|
  {
    if |idx| == 0 then 0 else idx[0] * strides[0] + Offset(idx[1..], strides[1..])
  }

  /** The multi-index at a position of the selection. */
  function Unrank(p: nat, lengths: seq<nat>): (idx: seq<nat>)
    requires p < Size(lengths)
    ensures InRange(idx, lengths) && Rank(idx, lengths) == p
  {
    if |lengths| == 0 then []
    else
      var q := Size(lengths[1..]);
      Digit(p, q, lengths[0]);
      var d, m := p / q, p % q;
      var rest := Unrank(m, lengths[1..]);
      RankCons(p, lengths, d, m, rest);
      [d] + rest
  }

  /** A leading digit in front of a multi-index of the remaining
      dimensions. */
  lemma RankCons(p: nat, lengths: seq<nat>, d: nat, m: nat, rest: seq<nat>)
    requires |lengths| > 0 && d < lengths[0] && InRange(rest, lengths[1..])
    requires Rank(rest, lengths[1..]) == m && d * Size(lengths[1..]) + m == p
    ensures InRange([d] + rest, lengths) && Rank([d] + rest, lengths) == p
  {
    var idx := [d] + rest;
    assert idx[0] == d && idx[1..] == rest;
  }

  /** The leading digit of p in a radix-q place below l. */
  lemma Digit(p: nat, q: nat, l: nat)
    requires p < l * q
    ensures q > 0 && p / q < l && p % q < q && (p / q) * q + p % q == p
  {
    if p / q >= l {
      MulMono(l, p / q, q);
    }
  }

  /** Every multi-index within the lengths has its place in the selection,
      and that place holds offset + sum of idx[k] * strides[k]. */
  lemma {:induction false} IndicesAt(offset: nat, lengths: seq<nat>, strides: seq<nat>, idx: seq<nat>)
    requires |lengths| == |strides| && InRange(idx, lengths)
    ensures Rank(idx, lengths) < Size(lengths)
    ensures Indices(offset, lengths, strides)[Rank(idx, lengths)] == offset + Offset(idx, strides)
    decreases |lengths|
  {
    if |lengths| > 0 {
      var q := Size(lengths[1..]);
      assert InRange(idx[1..], lengths[1..]);
      IndicesAt(offset + idx[0] * strides[0], lengths[1..], strides[1..], idx[1..]);
      var r := Rank(idx[1..], lengths[1..]);
      AlongAt(offset, lengths, strides, 0, idx[0], q, r, idx[0] * q + r, offset + idx[0] * strides[0]);
    }
  }

  /** Place x = k * q + r of Along from i is place r of the selection for
      first index i + k, which starts at o. */
  lemma {:induction false} AlongAt(offset: nat, lengths: seq<nat>, strides: seq<nat>, i: nat, k: nat,
                                   q: nat, r: nat, x: nat, o: nat)
    requires |lengths| == |strides| > 0 && q == Size(lengths[1..]) && i + k < lengths[0] && r < q
    requires x == k * q + r && o == offset + (i + k) * strides[0]
    ensures x < |Along(offset, lengths, strides, i)|
    ensures Along(offset, lengths, strides, i)[x] == Indices(o, lengths[1..], strides[1..])[r]
    decreases k, 1
  {
    if k > 0 {
      AlongAtNext(offset, lengths, strides, i, k, q, r, x, o);
    } else {
      AlongFirst(offset, lengths, strides, i, r);
    }
  }

  /** AlongAt past the first block: one block further on from i + 1. */
  lemma {:induction false} AlongAtNext(offset: nat, lengths: seq<nat>, strides: seq<nat>, i: nat, k: nat,
                                       q: nat, r: nat, x: nat, o: nat)
    requires |lengths| == |strides| > 0 && q == Size(lengths[1..]) && i + k < lengths[0] && r < q && k > 0
    requires x == k * q + r && o == offset + (i + k) * strides[0]
    ensures x < |Along(offset, lengths, strides, i)|
    ensures Along(offset, lengths, strides, i)[x] == Indices(o, lengths[1..], strides[1..])[r]
    decreases k, 0
  {
    PlaceStep(k, q, r, x);
    var y := x - q;
    assert (i + 1) + (k - 1) == i + k;
    AlongAt(offset, lengths, strides, i + 1, k - 1, q, r, y, o);
    AlongStep(offset, lengths, strides, i, y);
  }

  /** One block further on in a radix-q layout. */
  lemma PlaceStep(k: nat, q: nat, r: nat, x: nat)
    requires k > 0 && x == k * q + r
    ensures q <= x && x - q == (k - 1) * q + r
  {
  }

  /** Past the first block, Along from i is Along from i + 1. */
  lemma AlongStep(offset: nat, lengths: seq<nat>, strides: seq<nat>, i: nat, y: nat)
    requires |lengths| == |strides| > 0 && i < lengths[0]
    requires y < |Along(offset, lengths, strides, i + 1)|
    ensures Size(lengths[1..]) + y < |Along(offset, lengths, strides, i)|
    ensures Along(offset, lengths, strides, i)[Size(lengths[1..]) + y] == Along(offset, lengths, strides, i + 1)[y]
  {
  }

  /** The first block of Along from i is the selection for first index i. */
  lemma AlongFirst(offset: nat, lengths: seq<nat>, strides: seq<nat>, i: nat, r: nat)
    requires |lengths| == |strides| > 0 && i < lengths[0] && r < Size(lengths[1..])
    ensures r < |Along(offset, lengths, strides, i)|
    ensures Along(offset, lengths, strides, i)[r] == Indices(offset + i * strides[0], lengths[1..], strides[1..])[r]
  {
  }

  /** Every position of the selection holds the element its multi-index
      selects. */
  lemma IndicesEvery(offset: nat, lengths: seq<nat>, strides: seq<nat>, p: nat)
    requires |lengths| == |strides| && p < Size(lengths)
    ensures Indices(offset, lengths, strides)[p] == offset + Offset(Unrank(p, lengths), strides)
  {
    IndicesAt(offset, lengths, strides, Unrank(p, lengths));
  }

  /** Stepping the last index by one steps the position by one: the last
      dimension runs fastest. */
  lemma {:induction false} RankLastStep(idx: seq<nat>, lengths: seq<nat>)
    requires |idx| == |lengths| > 0
    ensures var last := |idx| - 1;
      Rank(idx[last := idx[last] + 1], lengths) == Rank(idx, lengths) + 1
    decreases |idx|
  {
    var last := |idx| - 1;
    var idx' := idx[last := idx[last] + 1];
    if |idx| == 1 {
      assert Size(lengths[1..]) == 1;
    } else {
      assert idx'[1..] == idx[1..][last - 1 := idx[1..][last - 1] + 1];
      RankLastStep(idx[1..], lengths[1..]);
    }
  }

  /** One dimension is the plain slice. */
  lemma {:induction false} OneDimension(offset: nat, length: nat, stride: nat, i: nat)
    requires i <= length
    ensures Along(offset, [length], [stride], i) == seq(length - i, k => offset + (i + k) * stride)
    decreases length - i
  {
    assert [length][1..] == [] && [stride][1..] == [];
    if i < length {
      OneDimension(offset, length, stride, i + 1);
      assert Indices(offset + i * stride, [], []) == [offset + i * stride];
      var s := seq(length - i, k => offset + (i + k) * stride);
      var t := seq(length - (i + 1), k => offset + ((i + 1) + k) * stride);
      assert s == [offset + i * stride] + t by {
        forall k | 0 <= k < |t| ensures s[k + 1] == t[k] {
          assert i + (k + 1) == (i + 1) + k;
        }
      }
    }
  }

  // ---------------------------------------------------------------- process_vector

  /** The elements the selection picks from v, in selection order. */
  function Gather(v: seq<real>, idx: seq<nat>): (r: seq<real>)
    requires forall k :: 0 <= k < |idx| ==> idx[k] < |v|
    ensures |r| == |idx|
    ensures forall k :: 0 <= k < |idx| ==> r[k] == v[idx[k]]
  {
    seq(|idx|, k requires 0 <= k < |idx| => v[idx[k]])
  }

  /** Gathering along a concatenation of index lists gathers each list in
      turn: the selection is taken block by block, as Along builds it. */
  lemma GatherAppend(v: seq<real>, a: seq<nat>, b: seq<nat>)
    requires forall k :: 0 <= k < |a| ==> a[k] < |v|
    requires forall k :: 0 <= k < |b| ==> b[k] < |v|
    ensures forall k :: 0 <= k < |a + b| ==> (a + b)[k] < |v|
    ensures Gather(v, a + b) == Gather(v, a) + Gather(v, b)
  {
    assert forall k :: 0 <= k < |b| ==> (a + b)[|a| + k] == b[k];
  }

  /** The element the selection holds for the index tuple idx, at the
      tuple's last-dimension-fastest rank, is v[offset + Σ idx_i*strides[i]]. */
  lemma GatherAt(v: seq<real>, offset: nat, lengths: seq<nat>, strides: seq<nat>, idx: seq<nat>)
    requires |lengths| == |strides| && InRange(idx, lengths)
    requires Selectable(offset, lengths, strides, |v|)
    ensures Rank(idx, lengths) < Size(lengths)
    ensures offset + Offset(idx, strides) < |v|
    ensures Gather(v, Indices(offset, lengths, strides))[Rank(idx, lengths)] == v[offset + Offset(idx, strides)]
  {
    IndicesAt(offset, lengths, strides, idx);
  }

  /** With one dimension, the generalized slice is the slice kernel. */
  lemma GatherOneDimension(v: seq<real>, offset: nat, length: nat, stride: nat)
    requires length > 0 && offset + (length - 1) * stride < |v|
    ensures forall k :: 0 <= k < |Indices(offset, [length], [stride])| ==> Indices(offset, [length], [stride])[k] < |v|
    ensures Gather(v, Indices(offset, [length], [stride])) == Kernels.Sliced(v, offset, length, stride)
  {
    OneDimension(offset, length, stride, 0);
    forall k | 0 <= k < length ensures offset + k * stride < |v| {
      MulMono(k, length - 1, stride);
    }
  }

  /** Ten elements, lengths [0] and strides [2]: the first length becomes 5
      and the result is the slice of 5 elements with stride 2. */
  lemma InferredExample(v: seq<real>)
    requires |v| == 10
    ensures InferLengths([0], 10, [2]) == [5]
    ensures Gather(v, Indices(0, [5], [2])) == Kernels.Sliced(v, 0, 5, 2)
  {
    GatherOneDimension(v, 0, 5, 2);
  }

  /** The selected indices all lie inside the first n elements. */
  predicate Selectable(offset: nat, lengths: seq<nat>, strides: seq<nat>, n: nat)
    requires |lengths| == |strides|
  {
    forall k :: 0 <= k < Size(lengths) ==> Indices(offset, lengths, strides)[k] < n
  }

  /** process_vector: infer the first length, select, and copy the
      selection into a fresh buffer. */
  method ProcessVector(v: array<real>, n: SizeT, offset: SizeT, lengths: array<SizeT>, strides: array<SizeT>)
    returns (vf: array<real>)
    requires n <= v.Length && lengths.Length == strides.Length > 0 && lengths != strides
    requires lengths[0] == 0 ==> strides[0] > 0
    requires Selectable(offset, InferLengths(lengths[..], n, strides[..]), strides[..], n)
    modifies lengths
    ensures lengths[..] == InferLengths(old(lengths[..]), n, strides[..])
    ensures fresh(vf) && vf[..] == Gather(v[..n], Indices(offset, lengths[..], strides[..]))
  {
    InferFirstLength(lengths, n, strides);
    var idx := Indices(offset, lengths[..], strides[..]);
    var sliced := Gather(v[..n], idx);
    vf := Copy(sliced);
  }

  /** The calloc'ed buffer filled from the selection, element by element. */
  method Copy(sliced: seq<real>) returns (vf: array<real>)
    ensures fresh(vf) && vf[..] == sliced
  {
    vf := new real[|sliced|];
    for i := 0 to |sliced|
      invariant forall k :: 0 <= k < i ==> vf[k] == sliced[k]
    {
      vf[i] := sliced[i];
    }
    assert vf[..] == sliced;
  }
}
