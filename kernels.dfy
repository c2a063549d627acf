/** The numeric kernels of vec.c: slice, pairwise and broadcast add, and the
    block multiplies with a per-block or a shared matrix.  Each kernel writes
    into a caller-supplied array and is proved against a function on
    sequences; the lemmas relate those functions to one another.  Elements
    are `real`: the sums are exact here. */
module Kernels {
  import opened CText
  import opened Diagnostics

  // ---------------------------------------------------------------- slice

  /** `length` elements of v from `offset` on, `stride` apart. */
  function Sliced(v: seq<real>, offset: nat, length: nat, stride: nat): (r: seq<real>)
    requires length > 0 ==> offset + (length - 1) * stride < |v|
    ensures |r| == length
  {
    seq(length, i requires 0 <= i < length =>
      MulMono(i, length - 1, stride); v[offset + i * stride])
  }

  /** Taking a slice of a slice is one slice of the original, with the
      offsets combined and the strides multiplied. */
  lemma SliceOfSlice(v: seq<real>, o1: nat, l1: nat, s1: nat, o2: nat, l2: nat, s2: nat)
    requires l1 > 0 ==> o1 + (l1 - 1) * s1 < |v|
    requires l2 > 0 ==> o2 + (l2 - 1) * s2 < l1
    ensures l2 > 0 ==> (o1 + o2 * s1) + (l2 - 1) * (s1 * s2) < |v|
    ensures Sliced(Sliced(v, o1, l1, s1), o2, l2, s2) == Sliced(v, o1 + o2 * s1, l2, s1 * s2)
  {
    if l2 > 0 {
      var last := o2 + (l2 - 1) * s2;
      MulMono(last, l1 - 1, s1);
      assert (o1 + o2 * s1) + (l2 - 1) * (s1 * s2) == o1 + last * s1;
      var a := Sliced(Sliced(v, o1, l1, s1), o2, l2, s2);
      var b := Sliced(v, o1 + o2 * s1, l2, s1 * s2);
      forall i | 0 <= i < l2 ensures a[i] == b[i] {
        MulMono(i, l2 - 1, s2);
        assert (o1 + o2 * s1) + i * (s1 * s2) == o1 + (o2 + i * s2) * s1;
      }
    }
  }

  /** With stride 1 a slice is the contiguous run from the offset. */
  lemma SliceContiguous(v: seq<real>, offset: nat, length: nat)
    requires offset + length <= |v|
    ensures Sliced(v, offset, length, 1) == v[offset..offset + length]
  {
  }

  lemma SliceExample()
    ensures Sliced([0.0, 1.0, 2.0, 3.0, 4.0, 5.0, 6.0, 7.0, 8.0, 9.0], 1, 3, 2) == [1.0, 3.0, 5.0]
  {
  }

  /** The reports of a refused slice: one per failing condition, in the
      order the source checks them. */
  function SliceReports(destinationNull: bool, sourceNull: bool, length: nat, stride: nat): (r: seq<Report>)
    ensures r == [] <==> !destinationNull && !sourceNull && length > 0 && stride > 0
    ensures forall k :: 0 <= k < |r| ==> r[k].errorType == ERROR
  {
    (if destinationNull then [Report(ERROR, "vec_slice_double_vector: destination null")] else []) +
    (if sourceNull then [Report(ERROR, "vec_slice_double_vector: source null")] else []) +
    (if length == 0 then [Report(ERROR, "vec_slice_double_vector: length is 0")] else []) +
    (if stride == 0 then [Report(ERROR, "vec_slice_double_vector: stride is 0")] else [])
  }

  /** The copying loop of vec_slice_double_vector (vec.c:439-444).  The
      destination may be the source: every element is read before it can be
      overwritten, since offset + i * stride >= i. */
  method SliceCopy(a: array<real>, v: array<real>, offset: nat, length: nat, stride: nat)
    requires length <= a.Length && stride > 0
    requires length > 0 ==> offset + (length - 1) * stride < v.Length
    modifies a
    ensures a[..length] == Sliced(old(v[..]), offset, length, stride)
    ensures a[length..] == old(a[length..])
  {
    ghost var src := v[..];
    ghost var dst := a[..];
    var i := 0;
    while i < length
      invariant i <= length
      invariant forall k :: 0 <= k < i ==> a[k] == Sliced(src, offset, length, stride)[k]
      invariant forall k :: i <= k < a.Length ==> a[k] == dst[k]
      invariant forall k :: i <= k < v.Length ==> v[k] == src[k]
    {
      var j := offset + i * stride;
      SlicedAt(src, offset, length, stride, i);
      MulMono(1, stride, i);
      a[i] := v[j];
      i := i + 1;
    }
    assert a[..length] == Sliced(src, offset, length, stride);
    assert a[length..] == dst[length..];
  }

  /** vec_slice_double_vector (vec.c:436-461). */
  method Slice(a: array?<real>, v: array?<real>, offset: nat, length: nat, stride: nat)
    returns (status: int, reports: seq<Report>)
    requires a != null && v != null && length > 0 && stride > 0 ==>
               length <= a.Length && offset + (length - 1) * stride < v.Length
    modifies a
    ensures var ok := a != null && v != null && length > 0 && stride > 0;
      && (ok ==> status == 0 && a[..length] == Sliced(old(v[..]), offset, length, stride) &&
                 a[length..] == old(a[length..]))
      && (!ok ==> status == 1 && (a != null ==> a[..] == old(a[..])))
      && reports == SliceReports(a == null, v == null, length, stride)
  {
    if a != null && v != null && length > 0 && stride > 0 {
      SliceCopy(a, v, offset, length, stride);
      return 0, [];
    }
    return 1, SliceReports(a == null, v == null, length, stride);
  }

  /** Every element of a slice is the source element at offset + i * stride. */
  lemma SlicedAt(v: seq<real>, offset: nat, length: nat, stride: nat, i: nat)
    requires length > 0 ==> offset + (length - 1) * stride < |v|
    requires i < length
    ensures offset + i * stride < |v| && Sliced(v, offset, length, stride)[i] == v[offset + i * stride]
  {
    MulMono(i, length - 1, stride);
  }

  // ---------------------------------------------------------------- add

  /** Element-wise sum over the common length. */
  function Pairwise(v1: seq<real>, v2: seq<real>): (r: seq<real>)
    ensures |r| == Min(|v1|, |v2|)
  {
    seq(Min(|v1|, |v2|), i requires 0 <= i < Min(|v1|, |v2|) => v1[i] + v2[i])
  }

  /** The first s elements of v1 added to every block of s elements of v2,
      the last block clipped to the length of v2. */
  function Broadcast(v1: seq<real>, v2: seq<real>, s: nat): (r: seq<real>)
    requires 0 < s <= |v1|
    ensures |r| == |v2|
  {
    seq(|v2|, k requires 0 <= k < |v2| => v1[k % s] + v2[k])
  }

  /** c copies of b, one after another. */
  function Repeat(b: seq<real>, c: nat): (r: seq<real>)
    ensures |r| == c * |b|
  {
    if c == 0 then [] else b + Repeat(b, c - 1)
  }

  lemma {:induction false} RepeatAt(b: seq<real>, c: nat, k: nat)
    requires k < c * |b|
    ensures |b| > 0 && Repeat(b, c)[k] == b[k % |b|]
    decreases c
  {
    NextBlock(c - 1, |b|);
    assert Repeat(b, c) == b + Repeat(b, c - 1);
    if k < |b| {
      BlockDivMod(0, |b|, k);
      assert Repeat(b, c)[k] == b[k];
    } else {
      RepeatAt(b, c - 1, k - |b|);
      DivModShift(k - |b|, |b|);
    }
  }

  /** Broadcasting is the pairwise sum with the block repeated along v2. */
  lemma BroadcastIsPairwiseOfRepeat(v1: seq<real>, v2: seq<real>, s: nat)
    requires 0 < s <= |v1|
    ensures Broadcast(v1, v2, s) == Pairwise(Repeat(v1[..s], |v2| / s + 1), v2)
  {
    WholeBlocks(|v2|, s);
    BroadcastRepeat(v1, v2, s, |v2| / s + 1);
  }

  /** Any number of copies of the block that covers v2 will do. */
  lemma BroadcastRepeat(v1: seq<real>, v2: seq<real>, s: nat, c: nat)
    requires 0 < s <= |v1| && |v2| <= c * s
    ensures Broadcast(v1, v2, s) == Pairwise(Repeat(v1[..s], c), v2)
  {
    var b := v1[..s];
    var r := Repeat(b, c);
    assert |b| == s && |r| == c * s;
    assert |Pairwise(r, v2)| == |v2|;
    forall k | 0 <= k < |v2| ensures Broadcast(v1, v2, s)[k] == Pairwise(r, v2)[k] {
      RepeatAt(b, c, k);
      assert r[k] == v1[k % s];
    }
  }

  /** With one block's worth of elements in v1 and v2 the two adds agree. */
  lemma BroadcastOneBlock(v1: seq<real>, v2: seq<real>)
    requires 0 < |v1| && |v2| <= |v1|
    ensures Broadcast(v1, v2, |v1|) == Pairwise(v1, v2)
  {
    forall k | 0 <= k < |v2| ensures Broadcast(v1, v2, |v1|)[k] == Pairwise(v1, v2)[k] {
      BlockDivMod(0, |v1|, k);
    }
  }

  lemma BroadcastExample()
    ensures Broadcast([1.0, 1.0], [0.0, 0.0, 10.0, 10.0, 20.0, 20.0], 2)
         == [1.0, 1.0, 11.0, 11.0, 21.0, 21.0]
  {
    var r := Broadcast([1.0, 1.0], [0.0, 0.0, 10.0, 10.0, 20.0, 20.0], 2);
    assert r[2] == 11.0 && r[3] == 11.0 && r[4] == 21.0 && r[5] == 21.0;
  }

  lemma PairwiseExample()
    ensures Pairwise([1.0, 2.0, 3.0], [10.0, 20.0]) == [11.0, 22.0]
  {
  }

  const ADD_PAIRWISE_ERROR := Report(ERROR, "vec_add_double_multi_vector_to_multi_vector: bad parameters")
  const ADD_BROADCAST_ERROR := Report(ERROR, "vec_add_double_single_vector_to_multi_vector: bad parameters")

  /** vec_add_double_multi_vector_to_multi_vector (vec.c:463-477): v1 holds
      n1 elements, v2 holds n2.  The destination may be either input. */
  method AddPairwise(a: array?<real>, s: nat, n1: nat, v1: array?<real>, n2: nat, v2: array?<real>)
    returns (status: int, reports: seq<Report>)
    requires a != null && s > 0 && n1 > 0 && v1 != null && n2 > 0 && v2 != null ==>
               n1 <= v1.Length && n2 <= v2.Length && Min(n1, n2) <= a.Length
    modifies a
    ensures var ok := a != null && s > 0 && n1 > 0 && v1 != null && n2 > 0 && v2 != null;
      && (ok ==> status == 0 && reports == [] &&
                 a[..Min(n1, n2)] == Pairwise(old(v1[..n1]), old(v2[..n2])) &&
                 a[Min(n1, n2)..] == old(a[Min(n1, n2)..]))
      && (!ok ==> status == 1 && reports == [ADD_PAIRWISE_ERROR] &&
                  (a != null ==> a[..] == old(a[..])))
  {
    if a != null && s > 0 && n1 > 0 && v1 != null && n2 > 0 && v2 != null {
      ghost var x1 := v1[..n1];
      ghost var x2 := v2[..n2];
      var n := if n1 < n2 then n1 else n2;
      var i := 0;
      while i < n
        invariant i <= n == Min(n1, n2)
        invariant forall k :: 0 <= k < i ==> a[k] == x1[k] + x2[k]
        invariant forall k :: i <= k < a.Length ==> a[k] == old(a[k])
        invariant forall k :: i <= k < n1 ==> v1[k] == x1[k]
        invariant forall k :: i <= k < n2 ==> v2[k] == x2[k]
      {
        a[i] := v1[i] + v2[i];
        i := i + 1;
      }
      return 0, [];
    }
    return 1, [ADD_PAIRWISE_ERROR];
  }

  /** One block of the broadcast add: positions j*s .. j*s+s-1 that lie
      before n2 (vec.c:483-490). */
  method AddBlock(a: array<real>, s: nat, j: nat, x1: seq<real>, v2: array<real>, n2: nat)
    requires 0 < s <= |x1| && n2 <= a.Length && n2 <= v2.Length
    modifies a
    ensures forall k :: 0 <= k < a.Length ==>
      a[k] == if j * s <= k < Min(j * s + s, n2) then x1[k % s] + old(v2[k]) else old(a[k])
  {
    ghost var y2 := v2[..];
    var i := 0;
    while i < s
      invariant i <= s
      invariant forall k :: 0 <= k < a.Length ==>
        a[k] == if j * s <= k < Min(j * s + i, n2) then x1[k % s] + y2[k] else old(a[k])
      invariant forall k :: j * s + i <= k < v2.Length ==> v2[k] == y2[k]
    {
      var k := j * s + i;
      if k < n2 {
        BlockDivMod(j, s, i);
        a[k] := x1[i] + v2[k];
      }
      i := i + 1;
    }
  }

  /** The block loop of the broadcast add (vec.c:482-491), x1 holding the
      elements of v1: n2/s + 1 blocks, the last one clipped at n2. */
  method BroadcastBlocks(a: array<real>, s: nat, x1: seq<real>, v2: array<real>, n2: nat)
    requires 0 < s <= |x1| && n2 <= a.Length && n2 <= v2.Length
    modifies a
    ensures a[..n2] == Broadcast(x1, old(v2[..n2]), s)
    ensures a[n2..] == old(a[n2..])
  {
    ghost var y2 := v2[..n2];
    var blocks := n2 / s + 1;
    WholeBlocks(n2, s);
    var j := 0;
    while j < blocks
      invariant j <= blocks
      invariant forall k :: 0 <= k < a.Length ==>
        a[k] == if k < Min(j * s, n2) then x1[k % s] + y2[k] else old(a[k])
      invariant forall k :: j * s <= k < n2 ==> v2[k] == y2[k]
    {
      NextBlock(j, s);
      AddBlock(a, s, j, x1, v2, n2);
      j := j + 1;
    }
    assert Min(j * s, n2) == n2;
    assert a[..n2] == Broadcast(x1, y2, s);
  }

  /** vec_add_double_single_vector_to_multi_vector (vec.c:479-497): the
      loop runs over n2/s + 1 blocks but writes no position at or past n2.
      The destination may be v2 but not v1, whose first block it would
      overwrite before the later blocks read it. */
  method AddBroadcast(a: array?<real>, s: nat, n1: nat, v1: array?<real>, n2: nat, v2: array?<real>)
    returns (status: int, reports: seq<Report>)
    requires a != null && s > 0 && n1 >= s && v1 != null && n2 / s >= n1 / s && v2 != null ==>
               n1 <= v1.Length && n2 <= v2.Length && n2 <= a.Length && a != v1
    modifies a
    ensures var ok := a != null && s > 0 && n1 >= s && v1 != null && n2 / s >= n1 / s && v2 != null;
      && (ok ==> status == 0 && reports == [] &&
                 a[..n2] == Broadcast(old(v1[..n1]), old(v2[..n2]), s) &&
                 a[n2..] == old(a[n2..]))
      && (!ok ==> status == 1 && reports == [ADD_BROADCAST_ERROR] &&
                  (a != null ==> a[..] == old(a[..])))
  {
    if a != null && s > 0 && n1 >= s && v1 != null && n2 / s >= n1 / s && v2 != null {
      BroadcastBlocks(a, s, v1[..n1], v2, n2);
      return 0, [];
    }
    return 1, [ADD_BROADCAST_ERROR];
  }

  // ---------------------------------------------------------------- multiply

  /** Where the matrix element for input i and output j sits in an s-by-s
      block: row-major i, j, or j, i when the transpose flag is set. */
  function MatIndex(s: nat, i: nat, j: nat, transpose: int): (q: nat)
    requires i < s && j < s
    ensures q < s * s
  {
    MulMono(i, s - 1, s);
    MulMono(j, s - 1, s);
    if transpose == 0 then i * s + j else j * s + i
  }

  /** Sum over the first n inputs of the block at mb (in m) and vb (in v)
      for output j. */
  function Dot(m: seq<real>, mb: nat, v: seq<real>, vb: nat, s: nat, j: nat, n: nat, transpose: int): real
    requires n <= s && j < s && mb + s * s <= |m| && vb + s <= |v|
    decreases n
  {
    if n == 0 then 0.0
    else Dot(m, mb, v, vb, s, j, n - 1, transpose) + m[mb + MatIndex(s, n - 1, j, transpose)] * v[vb + n - 1]
  }

  /** The s outputs of one block. */
  function BlockOut(m: seq<real>, mb: nat, v: seq<real>, vb: nat, s: nat, transpose: int): (r: seq<real>)
    requires mb + s * s <= |m| && vb + s <= |v|
    ensures |r| == s
  {
    seq(s, j requires 0 <= j < s => Dot(m, mb, v, vb, s, j, s, transpose))
  }

  /** Where block k's matrix starts: at 0 for a shared matrix, at k*s*s for
      one matrix per block. */
  function MatBase(k: nat, s: nat, shared: bool): nat {
    if shared then 0 else k * (s * s)
  }

  predicate MatricesFit(nm: nat, s: nat, blocks: nat, shared: bool) {
    if shared then s * s <= nm else blocks * (s * s) <= nm
  }

  lemma MatrixFits(nm: nat, s: nat, blocks: nat, k: nat, shared: bool)
    requires MatricesFit(nm, s, blocks, shared) && k < blocks
    ensures MatBase(k, s, shared) + s * s <= nm
  {
    if !shared {
      MulMono(k + 1, blocks, s * s);
    }
  }

  /** The outputs of the first `blocks` blocks. */
  function Blocks(m: seq<real>, v: seq<real>, s: nat, transpose: int, shared: bool, blocks: nat): (r: seq<real>)
    requires blocks * s <= |v| && MatricesFit(|m|, s, blocks, shared)
    ensures |r| == blocks * s
    decreases blocks
  {
    if blocks == 0 then []
    else
      MatrixFits(|m|, s, blocks, blocks - 1, shared);
      MulMono(blocks - 1, blocks, s);
      assert MatricesFit(|m|, s, blocks - 1, shared) by {
        if !shared { MulMono(blocks - 1, blocks, s * s); }
      }
      Blocks(m, v, s, transpose, shared, blocks - 1) +
      BlockOut(m, MatBase(blocks - 1, s, shared), v, (blocks - 1) * s, s, transpose)
  }

  function Zeros(n: nat): (r: seq<real>)
    ensures |r| == n && forall k :: 0 <= k < n ==> r[k] == 0.0
  {
    seq(n, k => 0.0)
  }

  /** The result of a block multiply on nv elements: the whole blocks, then
      zeros for the elements past the last whole block. */
  function Product(m: seq<real>, v: seq<real>, s: nat, transpose: int, shared: bool): (r: seq<real>)
    requires s > 0 && MatricesFit(|m|, s, |v| / s, shared)
    ensures |r| == |v|
    ensures forall k :: (|v| / s) * s <= k < |v| ==> r[k] == 0.0
  {
    WholeBlocks(|v|, s);
    Blocks(m, v, s, transpose, shared, |v| / s) + Zeros(|v| - (|v| / s) * s)
  }

  // ---------------------------------------------------------------- multiply properties

  /** Output j of block k is the dot product of block k's matrix column (row,
      when transposed) with the block's inputs: the `a[k*s+j] += ...` of the
      kernels, stated per element. */
  lemma ProductAt(m: seq<real>, v: seq<real>, s: nat, transpose: int, shared: bool, k: nat, j: nat)
    requires s > 0 && MatricesFit(|m|, s, |v| / s, shared)
    requires k < |v| / s && j < s
    ensures MatBase(k, s, shared) + s * s <= |m| && k * s + s <= |v|
    ensures Product(m, v, s, transpose, shared)[k * s + j] ==
            Dot(m, MatBase(k, s, shared), v, k * s, s, j, s, transpose)
  {
    MatrixFits(|m|, s, |v| / s, k, shared);
    WholeBlocks(|v|, s);
    BlockFits(k, |v| / s, s);
    BlocksAt(m, v, s, transpose, shared, |v| / s, k, j);
  }

  lemma {:induction false} BlocksAt(m: seq<real>, v: seq<real>, s: nat, transpose: int, shared: bool,
                                    blocks: nat, k: nat, j: nat)
    requires blocks * s <= |v| && MatricesFit(|m|, s, blocks, shared)
    requires k < blocks && j < s
    ensures MatBase(k, s, shared) + s * s <= |m| && k * s + s <= blocks * s
    ensures Blocks(m, v, s, transpose, shared, blocks)[k * s + j] ==
            Dot(m, MatBase(k, s, shared), v, k * s, s, j, s, transpose)
    decreases blocks
  {
    MatrixFits(|m|, s, blocks, k, shared);
    BlockFits(k, blocks, s);
    BlockFits(blocks - 1, blocks, s);
    if k < blocks - 1 {
      BlockFits(k, blocks - 1, s);
      FitsFewer(|m|, s, blocks, blocks - 1, shared);
      BlocksAt(m, v, s, transpose, shared, blocks - 1, k, j);
    }
  }


  /** A shared matrix is the per-block case with that matrix repeated once
      per block. */
  lemma SharedIsPerBlockRepeated(b: seq<real>, v: seq<real>, s: nat, transpose: int)
    requires s > 0 && s * s <= |b|
    ensures MatricesFit(|Repeat(b[..s * s], |v| / s)|, s, |v| / s, false)
    ensures Product(b, v, s, transpose, true) == Product(Repeat(b[..s * s], |v| / s), v, s, transpose, false)
  {
    var r := Repeat(b[..s * s], |v| / s);
    WholeBlocks(|v|, s);
    SharedBlocks(b, r, v, s, transpose, |v| / s);
  }

  lemma {:induction false} SharedBlocks(b: seq<real>, r: seq<real>, v: seq<real>, s: nat, transpose: int, n: nat)
    requires s > 0 && s * s <= |b| && r == Repeat(b[..s * s], |v| / s)
    requires n <= |v| / s
    ensures n * s <= |v| && MatricesFit(|r|, s, n, false)
    ensures Blocks(b, v, s, transpose, true, n) == Blocks(r, v, s, transpose, false, n)
    decreases n
  {
    WholeBlocks(|v|, s);
    MulMono(n, |v| / s, s);
    MulMono(n, |v| / s, s * s);
    if n > 0 {
      SharedBlocks(b, r, v, s, transpose, n - 1);
      BlockFits(n - 1, n, s);
      SharedBlock(b, r, |v| / s, v, s, transpose, n - 1);
    }
  }

  lemma SharedBlock(b: seq<real>, r: seq<real>, c: nat, v: seq<real>, s: nat, transpose: int, k: nat)
    requires s > 0 && s * s <= |b| && r == Repeat(b[..s * s], c)
    requires k < c && k * s + s <= |v|
    ensures k * (s * s) + s * s <= |r|
    ensures BlockOut(b, 0, v, k * s, s, transpose) == BlockOut(r, k * (s * s), v, k * s, s, transpose)
  {
    var mb := k * (s * s);
    RepeatedBlock(b[..s * s], c, k, mb);
    forall x | 0 <= x < s * s ensures b[x] == r[x - 0 + mb] {
      assert r[mb + x] == b[..s * s][x];
    }
    SameMatrix(b, 0, r, mb, v, k * s, s, transpose);
  }

  /** Copy k of the repeated block starts at k * |b|. */
  lemma RepeatedBlock(b: seq<real>, c: nat, k: nat, mb: nat)
    requires k < c && mb == k * |b|
    ensures mb + |b| <= |Repeat(b, c)|
    ensures forall x :: 0 <= x < |b| ==> Repeat(b, c)[mb + x] == b[x]
  {
    BlockFits(k, c, |b|);
    forall x | 0 <= x < |b| ensures Repeat(b, c)[mb + x] == b[x] {
      RepeatAt(b, c, mb + x);
      BlockDivMod(k, |b|, x);
    }
  }

  /** Two blocks multiplied by matrices with the same elements agree. */
  lemma SameMatrix(m: seq<real>, mb: nat, m': seq<real>, mb': nat, v: seq<real>, vb: nat, s: nat, transpose: int)
    requires mb + s * s <= |m| && mb' + s * s <= |m'| && vb + s <= |v|
    requires forall x :: mb <= x < mb + s * s ==> m[x] == m'[x - mb + mb']
    ensures BlockOut(m, mb, v, vb, s, transpose) == BlockOut(m', mb', v, vb, s, transpose)
  {
    forall j | 0 <= j < s
      ensures Dot(m, mb, v, vb, s, j, s, transpose) == Dot(m', mb', v, vb, s, j, s, transpose)
    {
      forall i | 0 <= i < s ensures m[mb + MatIndex(s, i, j, transpose)] == m'[mb' + MatIndex(s, i, j, transpose)] {
        var x := mb + MatIndex(s, i, j, transpose);
        assert m[x] == m'[x - mb + mb'];
      }
      DotAgree(m, mb, transpose, m', mb', transpose, v, vb, s, j, s);
    }
  }

  /** Two sums agree when the matrix elements they read agree. */
  lemma {:induction false} DotAgree(m: seq<real>, mb: nat, t: int, m': seq<real>, mb': nat, t': int,
                                    v: seq<real>, vb: nat, s: nat, j: nat, n: nat)
    requires n <= s && j < s && mb + s * s <= |m| && mb' + s * s <= |m'| && vb + s <= |v|
    requires forall i :: 0 <= i < n ==> m[mb + MatIndex(s, i, j, t)] == m'[mb' + MatIndex(s, i, j, t')]
    ensures Dot(m, mb, v, vb, s, j, n, t) == Dot(m', mb', v, vb, s, j, n, t')
    decreases n
  {
    if n > 0 {
      DotAgree(m, mb, t, m', mb', t', v, vb, s, j, n - 1);
    }
  }

  /** The s-by-s identity matrix. */
  function Identity(s: nat): (r: seq<real>)
    requires s > 0
    ensures |r| == s * s
  {
    seq(s * s, q requires 0 <= q < s * s => if q / s == q % s then 1.0 else 0.0)
  }

  lemma {:induction false} IdentityDot(v: seq<real>, vb: nat, s: nat, j: nat, n: nat, transpose: int)
    requires j < s && n <= s && vb + s <= |v|
    ensures Dot(Identity(s), 0, v, vb, s, j, n, transpose) == if j < n then v[vb + j] else 0.0
    decreases n
  {
    if n > 0 {
      IdentityDot(v, vb, s, j, n - 1, transpose);
      var i := n - 1;
      BlockDivMod(i, s, j);
      BlockDivMod(j, s, i);
    }
  }

  /** The identity matrix, shared or transposed, copies every whole block
      and zeroes the rest. */
  lemma IdentityProduct(v: seq<real>, s: nat, transpose: int)
    requires s > 0
    ensures (|v| / s) * s <= |v|
    ensures Product(Identity(s), v, s, transpose, true) == v[..(|v| / s) * s] + Zeros(|v| - (|v| / s) * s)
  {
    var n := |v| / s;
    WholeBlocks(|v|, s);
    IdentityBlocks(v, s, transpose, n);
    assert Product(Identity(s), v, s, transpose, true) == Blocks(Identity(s), v, s, transpose, true, n) + Zeros(|v| - n * s);
  }

  lemma {:induction false} IdentityBlocks(v: seq<real>, s: nat, transpose: int, n: nat)
    requires s > 0 && n * s <= |v|
    ensures Blocks(Identity(s), v, s, transpose, true, n) == v[..n * s]
    decreases n
  {
    if n > 0 {
      BlockFits(n - 1, n, s);
      IdentityBlocks(v, s, transpose, n - 1);
      var vb := (n - 1) * s;
      forall j | 0 <= j < s ensures BlockOut(Identity(s), 0, v, vb, s, transpose)[j] == v[vb + j] {
        IdentityDot(v, vb, s, j, s, transpose);
      }
      assert v[..n * s] == v[..vb] + v[vb..vb + s];
    }
  }

  /** Where element q of the transposed s-by-s matrix comes from. */
  function TransposedIndex(q: nat, s: nat): (p: nat)
    requires q < s * s
    ensures p < s * s
  {
    InBlock(q, s);
    MatIndex(s, q % s, q / s, 0)
  }

  lemma InBlock(q: nat, s: nat)
    requires q < s * s
    ensures s > 0 && q / s < s && q % s < s
  {
    if q / s >= s {
      MulMono(s, q / s, s);
    }
  }

  /** The s-by-s matrix b with rows and columns exchanged. */
  function Transposed(b: seq<real>, s: nat): (r: seq<real>)
    requires s * s <= |b|
    ensures |r| == s * s
  {
    seq(s * s, q requires 0 <= q < s * s => b[TransposedIndex(q, s)])
  }

  /** Row i, column j of the transposed matrix is row j, column i of b. */
  lemma TransposedAt(b: seq<real>, s: nat, i: nat, j: nat)
    requires s * s <= |b| && i < s && j < s
    ensures Transposed(b, s)[MatIndex(s, i, j, 0)] == b[MatIndex(s, j, i, 0)]
  {
    BlockDivMod(i, s, j);
  }

  lemma TransposedDot(b: seq<real>, v: seq<real>, vb: nat, s: nat, j: nat, transpose: int)
    requires transpose != 0 && s * s <= |b| && j < s && vb + s <= |v|
    ensures Dot(b, 0, v, vb, s, j, s, transpose) == Dot(Transposed(b, s), 0, v, vb, s, j, s, 0)
  {
    forall i | 0 <= i < s ensures b[MatIndex(s, i, j, transpose)] == Transposed(b, s)[MatIndex(s, i, j, 0)] {
      TransposedTerm(b, s, i, j, transpose);
    }
    DotAgree(b, 0, transpose, Transposed(b, s), 0, 0, v, vb, s, j, s);
  }

  lemma TransposedTerm(b: seq<real>, s: nat, i: nat, j: nat, transpose: int)
    requires transpose != 0 && s * s <= |b| && i < s && j < s
    ensures b[MatIndex(s, i, j, transpose)] == Transposed(b, s)[MatIndex(s, i, j, 0)]
  {
    TransposedAt(b, s, i, j);
  }

  /** The transpose flag multiplies by the transposed matrix: it is the
      index swap of the source, and the same as exchanging rows and columns
      of the shared matrix first. */
  lemma TransposeShared(b: seq<real>, v: seq<real>, s: nat, transpose: int)
    requires transpose != 0 && s > 0 && s * s <= |b|
    ensures Product(b, v, s, transpose, true) == Product(Transposed(b, s), v, s, 0, true)
  {
    var n := |v| / s;
    WholeBlocks(|v|, s);
    TransposedBlocks(b, v, s, transpose, n);
    var t := Transposed(b, s);
    assert Product(b, v, s, transpose, true) == Blocks(b, v, s, transpose, true, n) + Zeros(|v| - n * s);
    assert Product(t, v, s, 0, true) == Blocks(t, v, s, 0, true, n) + Zeros(|v| - n * s);
  }

  lemma {:induction false} TransposedBlocks(b: seq<real>, v: seq<real>, s: nat, transpose: int, n: nat)
    requires transpose != 0 && s > 0 && s * s <= |b| && n * s <= |v|
    ensures Blocks(b, v, s, transpose, true, n) == Blocks(Transposed(b, s), v, s, 0, true, n)
    decreases n
  {
    if n > 0 {
      BlockFits(n - 1, n, s);
      TransposedBlocks(b, v, s, transpose, n - 1);
      var vb := (n - 1) * s;
      forall j | 0 <= j < s
        ensures BlockOut(b, 0, v, vb, s, transpose)[j] == BlockOut(Transposed(b, s), 0, v, vb, s, 0)[j]
      {
        TransposedDot(b, v, vb, s, j, transpose);
      }
    }
  }

  lemma MultiplyExamples()
    ensures Product([1.0, 0.0, 0.0, 1.0], [3.0, 4.0, 5.0, 6.0], 2, 0, true) == [3.0, 4.0, 5.0, 6.0]
    ensures Product([1.0, 2.0, 0.0, 1.0], [3.0, 4.0, 5.0, 6.0], 2, 0, true) == [3.0, 10.0, 5.0, 16.0]
    ensures Product([1.0, 2.0, 0.0, 1.0], [3.0, 4.0, 5.0, 6.0], 2, 1, true) == [11.0, 4.0, 17.0, 6.0]
  {
    ProductExample([1.0, 0.0, 0.0, 1.0], 0);
    ProductExample([1.0, 2.0, 0.0, 1.0], 0);
    ProductExample([1.0, 2.0, 0.0, 1.0], 1);
  }

  /** A shared 2-by-2 matrix on the two blocks of [3, 4, 5, 6]. */
  lemma ProductExample(b: seq<real>, transpose: int)
    requires |b| == 4
    ensures Product(b, [3.0, 4.0, 5.0, 6.0], 2, transpose, true)
         == Blocks(b, [3.0, 4.0, 5.0, 6.0], 2, transpose, true, 2)
  {
    assert 4 / 2 == 2;
  }

  const MULTIPLY_PER_BLOCK_ERROR := Report(ERROR, "vec_multiply_double_multi_matrix_to_multi_vector: bad parameters")
  const MULTIPLY_SHARED_ERROR := Report(ERROR, "vec_multiply_double_single_matrix_to_multi_vector: bad parameters")

  /** The innermost loop of both multiplies (vec.c:510-517 and vec.c:537-544):
      output j of the block at vb gains, input by input, matrix element
      times input. */
  method AccumulateOutput(a: array<real>, m: array<real>, mb: nat, v: array<real>, vb: nat, s: nat,
                          j: nat, transpose: int)
    requires a != m && a != v && j < s
    requires mb + s * s <= m.Length && vb + s <= v.Length && vb + s <= a.Length
    requires a[vb + j] == 0.0
    modifies a
    ensures a[vb + j] == Dot(m[..], mb, v[..], vb, s, j, s, transpose)
    ensures forall q :: 0 <= q < a.Length && q != vb + j ==> a[q] == old(a[q])
  {
    ghost var mm := m[..];
    ghost var vv := v[..];
    var i := 0;
    while i < s
      invariant i <= s
      invariant a[vb + j] == Dot(mm, mb, vv, vb, s, j, i, transpose)
      invariant forall q :: 0 <= q < a.Length && q != vb + j ==> a[q] == old(a[q])
      invariant m[..] == mm && v[..] == vv
    {
      var x, y := m[mb + MatIndex(s, i, j, transpose)], v[vb + i];
      DotStep(mm, mb, vv, vb, s, j, i, transpose, a[vb + j], x, y);
      a[vb + j] := a[vb + j] + x * y;
      i := i + 1;
    }
  }

  /** One more input added to the running sum. */
  lemma DotStep(m: seq<real>, mb: nat, v: seq<real>, vb: nat, s: nat, j: nat, i: nat, transpose: int,
                acc: real, x: real, y: real)
    requires i < s && j < s && mb + s * s <= |m| && vb + s <= |v|
    requires acc == Dot(m, mb, v, vb, s, j, i, transpose)
    requires x == m[mb + MatIndex(s, i, j, transpose)] && y == v[vb + i]
    ensures acc + x * y == Dot(m, mb, v, vb, s, j, i + 1, transpose)
  {
  }

  /** The accumulation of one block (the j and i loops of vec.c:508-518 and
      vec.c:535-545), its outputs zeroed beforehand. */
  method AccumulateBlock(a: array<real>, m: array<real>, mb: nat, v: array<real>, vb: nat, s: nat, transpose: int)
    requires a != m && a != v
    requires mb + s * s <= m.Length && vb + s <= v.Length && vb + s <= a.Length
    requires forall q :: vb <= q < vb + s ==> a[q] == 0.0
    modifies a
    ensures a[vb..vb + s] == BlockOut(m[..], mb, v[..], vb, s, transpose)
    ensures forall q :: 0 <= q < a.Length && !(vb <= q < vb + s) ==> a[q] == old(a[q])
  {
    ghost var out := BlockOut(m[..], mb, v[..], vb, s, transpose);
    var j := 0;
    while j < s
      invariant j <= s
      invariant forall q :: vb <= q < vb + j ==> a[q] == out[q - vb]
      invariant forall q :: 0 <= q < a.Length && !(vb <= q < vb + j) ==> a[q] == old(a[q])
    {
      AccumulateOutput(a, m, mb, v, vb, s, j, transpose);
      j := j + 1;
    }
    assert a[vb..vb + s] == out;
  }

  /** The zeroing loop of both multiplies (vec.c:505-507 and vec.c:532-534). */
  method ZeroPrefix(a: array<real>, n: nat)
    requires n <= a.Length
    modifies a
    ensures forall q :: 0 <= q < n ==> a[q] == 0.0
    ensures forall q :: n <= q < a.Length ==> a[q] == old(a[q])
  {
    var k := 0;
    while k < n
      invariant k <= n
      invariant forall q :: 0 <= q < k ==> a[q] == 0.0
      invariant forall q :: k <= q < a.Length ==> a[q] == old(a[q])
    {
      a[k] := 0.0;
      k := k + 1;
    }
  }

  /** The block loop of both multiplies, on zeroed outputs: the first
      `blocks` blocks of outputs, each from its matrix and its inputs. */
  method AccumulateBlocks(a: array<real>, m: array<real>, nm: nat, v: array<real>, nv: nat, s: nat,
                          transpose: int, shared: bool)
    requires a != m && a != v && s > 0
    requires nm <= m.Length && nv <= v.Length && nv <= a.Length
    requires MatricesFit(nm, s, nv / s, shared)
    requires forall q :: 0 <= q < nv ==> a[q] == 0.0
    modifies a
    ensures (nv / s) * s <= nv
    ensures a[..(nv / s) * s] == Blocks(m[..nm], v[..nv], s, transpose, shared, nv / s)
    ensures forall q :: (nv / s) * s <= q < a.Length ==> a[q] == old(a[q])
  {
    WholeBlocks(nv, s);
    AccumulateFirst(a, m, nm, v, nv, s, transpose, shared, nv / s);
  }

  /** The block loop over the first `blocks` blocks. */
  method AccumulateFirst(a: array<real>, m: array<real>, nm: nat, v: array<real>, nv: nat, s: nat,
                         transpose: int, shared: bool, blocks: nat)
    requires a != m && a != v && s > 0
    requires nm <= m.Length && nv <= v.Length && nv <= a.Length
    requires MatricesFit(nm, s, blocks, shared) && blocks * s <= nv
    requires forall q :: 0 <= q < nv ==> a[q] == 0.0
    modifies a
    ensures a[..blocks * s] == Blocks(m[..nm], v[..nv], s, transpose, shared, blocks)
    ensures forall q :: blocks * s <= q < a.Length ==> a[q] == old(a[q])
  {
    var k := 0;
    while k < blocks
      invariant k <= blocks && k * s <= nv && MatricesFit(nm, s, k, shared)
      invariant a[..k * s] == Blocks(m[..nm], v[..nv], s, transpose, shared, k)
      invariant forall q :: k * s <= q < a.Length ==> a[q] == old(a[q])
    {
      BlockFits(k, blocks, s);
      FitsFewer(nm, s, blocks, k + 1, shared);
      AccumulateNext(a, m, nm, v, nv, s, transpose, shared, k);
      k := k + 1;
    }
  }

  /** Matrices for some blocks leave room for fewer blocks. */
  lemma FitsFewer(nm: nat, s: nat, blocks: nat, k: nat, shared: bool)
    requires MatricesFit(nm, s, blocks, shared) && k <= blocks
    ensures MatricesFit(nm, s, k, shared)
  {
    if !shared {
      MulMono(k, blocks, s * s);
    }
  }

  /** One turn of the block loop: block k of outputs, next to the blocks
      before it. */
  method AccumulateNext(a: array<real>, m: array<real>, nm: nat, v: array<real>, nv: nat, s: nat,
                        transpose: int, shared: bool, k: nat)
    requires a != m && a != v && s > 0
    requires nm <= m.Length && nv <= v.Length && nv <= a.Length
    requires MatricesFit(nm, s, k, shared) && MatricesFit(nm, s, k + 1, shared)
    requires (k + 1) * s == k * s + s <= nv
    requires a[..k * s] == Blocks(m[..nm], v[..nv], s, transpose, shared, k)
    requires forall q :: k * s <= q < k * s + s ==> a[q] == 0.0
    modifies a
    ensures a[..(k + 1) * s] == Blocks(m[..nm], v[..nv], s, transpose, shared, k + 1)
    ensures forall q :: 0 <= q < a.Length && !(k * s <= q < k * s + s) ==> a[q] == old(a[q])
  {
    ghost var mm := m[..nm];
    ghost var vv := v[..nv];
    var vb := k * s;
    var mb := MatBase(k, s, shared);
    MatrixFits(nm, s, k + 1, k, shared);
    ghost var before := a[..vb];
    AccumulateBlock(a, m, mb, v, vb, s, transpose);
    BlockOutPrefix(m[..], mm, mb, v[..], vv, vb, s, transpose);
    assert a[..vb] == before;
    assert a[..vb + s] == a[..vb] + a[vb..vb + s];
  }

  /** The zeroing loop and the block loop shared by both multiplies. */
  method MultiplyBlocks(a: array<real>, m: array<real>, nm: nat, v: array<real>, nv: nat, s: nat,
                        transpose: int, shared: bool)
    requires a != m && a != v && s > 0
    requires nm <= m.Length && nv <= v.Length && nv <= a.Length
    requires MatricesFit(nm, s, nv / s, shared)
    modifies a
    ensures a[..nv] == Product(m[..nm], v[..nv], s, transpose, shared)
    ensures a[nv..] == old(a[nv..])
  {
    ZeroPrefix(a, nv);
    AccumulateBlocks(a, m, nm, v, nv, s, transpose, shared);
    var whole := (nv / s) * s;
    assert a[..nv] == a[..whole] + a[whole..nv];
    assert a[whole..nv] == Zeros(nv - whole);
  }

  lemma NextBlock(j: nat, s: nat)
    ensures (j + 1) * s == j * s + s
  {
  }

  lemma BlockFits(k: nat, blocks: nat, s: nat)
    requires k < blocks
    ensures (k + 1) * s == k * s + s <= blocks * s
  {
    MulMono(k + 1, blocks, s);
  }

  /** A block's outputs depend only on the elements the block reads. */
  lemma BlockOutPrefix(m: seq<real>, m': seq<real>, mb: nat, v: seq<real>, v': seq<real>, vb: nat, s: nat, transpose: int)
    requires mb + s * s <= |m'| <= |m| && m' == m[..|m'|]
    requires vb + s <= |v'| <= |v| && v' == v[..|v'|]
    ensures BlockOut(m, mb, v, vb, s, transpose) == BlockOut(m', mb, v', vb, s, transpose)
  {
    forall j | 0 <= j < s ensures Dot(m, mb, v, vb, s, j, s, transpose) == Dot(m', mb, v', vb, s, j, s, transpose) {
      DotPrefix(m, m', mb, v, v', vb, s, j, s, transpose);
    }
  }

  lemma {:induction false} DotPrefix(m: seq<real>, m': seq<real>, mb: nat, v: seq<real>, v': seq<real>, vb: nat,
                                     s: nat, j: nat, n: nat, transpose: int)
    requires n <= s && j < s
    requires mb + s * s <= |m'| <= |m| && m' == m[..|m'|]
    requires vb + s <= |v'| <= |v| && v' == v[..|v'|]
    ensures Dot(m, mb, v, vb, s, j, n, transpose) == Dot(m', mb, v', vb, s, j, n, transpose)
    decreases n
  {
    if n > 0 {
      DotPrefix(m, m', mb, v, v', vb, s, j, n - 1, transpose);
    }
  }

  /** vec_multiply_double_multi_matrix_to_multi_vector (vec.c:499-524): m
      holds nm elements, one s-by-s matrix per block of v. */
  method MultiplyPerBlock(a: array?<real>, s: nat, nm: nat, m: array?<real>, nv: nat, v: array?<real>, transpose: int)
    returns (status: int, reports: seq<Report>)
    requires a != null && s > 0 && nm / (s * s) >= nv / s && m != null && nv / s > 0 && v != null ==>
               nm <= m.Length && nv <= v.Length && nv <= a.Length && a != m && a != v
    modifies a
    ensures var ok := a != null && s > 0 && nm / (s * s) >= nv / s && m != null && nv / s > 0 && v != null;
      && (ok ==> status == 0 && reports == [] &&
                 a[..nv] == Product(m[..nm], v[..nv], s, transpose, false) &&
                 a[nv..] == old(a[nv..]))
      && (!ok ==> status == 1 && reports == [MULTIPLY_PER_BLOCK_ERROR] &&
                  (a != null ==> a[..] == old(a[..])))
  {
    if a != null && s > 0 && nm / (s * s) >= nv / s && m != null && nv / s > 0 && v != null {
      MulMono(nv / s, nm / (s * s), s * s);
      MultiplyBlocks(a, m, nm, v, nv, s, transpose, false);
      return 0, [];
    }
    return 1, [MULTIPLY_PER_BLOCK_ERROR];
  }

  /** vec_multiply_double_single_matrix_to_multi_vector (vec.c:526-551): one
      s-by-s matrix applied to every block of v. */
  method MultiplyShared(a: array?<real>, s: nat, nm: nat, m: array?<real>, nv: nat, v: array?<real>, transpose: int)
    returns (status: int, reports: seq<Report>)
    requires a != null && s > 0 && nm >= s * s && m != null && nv / s >= nm / (s * s) && v != null ==>
               nm <= m.Length && nv <= v.Length && nv <= a.Length && a != m && a != v
    modifies a
    ensures var ok := a != null && s > 0 && nm >= s * s && m != null && nv / s >= nm / (s * s) && v != null;
      && (ok ==> status == 0 && reports == [] &&
                 a[..nv] == Product(m[..nm], v[..nv], s, transpose, true) &&
                 a[nv..] == old(a[nv..]))
      && (!ok ==> status == 1 && reports == [MULTIPLY_SHARED_ERROR] &&
                  (a != null ==> a[..] == old(a[..])))
  {
    if a != null && s > 0 && nm >= s * s && m != null && nv / s >= nm / (s * s) && v != null {
      MultiplyBlocks(a, m, nm, v, nv, s, transpose, true);
      return 0, [];
    }
    return 1, [MULTIPLY_SHARED_ERROR];
  }
}
