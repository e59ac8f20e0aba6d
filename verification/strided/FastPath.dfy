/**
 * When the contiguous fast path of PARMCI_PutS is right: the contiguity test only bounds strides from above, so that it
 * also accepts patches that are not one run of bytes.
 */
module FastPath {
  import opened Arithmetic
  import opened Strides
  import opened Packing
  import opened StrideIterators
  import opened Contiguous

  /** Source and destination patch and the flat runs lie inside the two memories. */
  ghost predicate CopyFits(src: seq<Byte>, from: nat, srcStride: seq<int>, dst: seq<Byte>, to: nat,
      dstStride: seq<int>, count: seq<nat>)
    requires |count| == |srcStride| + 1 == |dstStride| + 1
  {
    && |Offsets(srcStride, count)| == |Offsets(dstStride, count)|
    && Inside(src, from, Offsets(srcStride, count), count[0]) && from + Total(count) <= |src|
    && Inside(dst, to, Offsets(dstStride, count), count[0]) && to + Total(count) <= |dst|
  }

  /** On these memories the flat copy does what the strided transfer does. */
  ghost predicate SameResult(src: seq<Byte>, from: nat, srcStride: seq<int>, dst: seq<Byte>, to: nat,
      dstStride: seq<int>, count: seq<nat>)
    requires |count| == |srcStride| + 1 == |dstStride| + 1 && CopyFits(src, from, srcStride, dst, to, dstStride, count)
  {
    Transfer(src, from, Offsets(srcStride, count), dst, to, Offsets(dstStride, count), count[0]) ==
      Overwrite(dst, to, src[from..from + Total(count)])
  }

  /** On all memories. */
  ghost predicate FlatCopyIsTransfer(srcStride: seq<int>, dstStride: seq<int>, count: seq<nat>)
    requires |count| == |srcStride| + 1 == |dstStride| + 1
  {
    forall src, from: nat, dst, to: nat :: CopyFits(src, from, srcStride, dst, to, dstStride, count) ==>
      SameResult(src, from, srcStride, dst, to, dstStride, count)
  }

  // ---------- how far tight strides reach ----------

  /** No stride exceeds m, m * c[0], and so on. */
  predicate Bounded(s: seq<int>, c: seq<nat>, m: nat)
    requires |s| == |c|
  {
    s == [] || (s[0] <= m && Bounded(s[1..], c[1..], m * c[0]))
  }

  lemma {:induction false} TightBounded(stride: seq<int>, count: seq<nat>, k: nat)
    requires |count| == |stride| + 1 && k <= |stride| && Tight(stride, count)
    ensures Bounded(stride[k..], count[1..][k..], Product(count[..k + 1]))
    decreases |stride| - k
  {
    if k < |stride| {
      TightBounded(stride, count, k + 1);
      NextProduct(count, k + 1);
      assert stride[k..][1..] == stride[k + 1..] && count[1..][k..][1..] == count[1..][k + 1..];
      hide Product;
      assert count[1..][k..][0] == count[k + 1] && stride[k..][0] == stride[k];
    }
  }

  lemma TightIsBounded(stride: seq<int>, count: seq<nat>)
    requires |count| == |stride| + 1 && Tight(stride, count)
    ensures Bounded(stride, count[1..], count[0])
  {
    TightBounded(stride, count, 0);
    assert stride[0..] == stride && count[1..][0..] == count[1..] && count[..1] == [count[0]] && [count[0]][1..] == [];
    assert Product(count[..1]) == count[0];
  }

  /** r steps of at most m, out of n: the last step of a full stride, and only that, reaches (n - 1) * m. */
  lemma StepReach(step: int, m: nat, n: nat, r: nat)
    requires 0 < m && r < n && step <= m
    ensures r * step <= (n - 1) * m
    ensures r * step == (n - 1) * m && 1 < n ==> step == m
  {
    var slack := m - step;
    assert r * step == r * m - r * slack;
    assert (n - 1) * m == r * m + (n - 1 - r) * m;
    MulBound(r, slack);
    MulBound(n - 1 - r, m);
  }

  lemma ReachSum(m: nat, n: nat, p: nat, outer: int, inner: int)
    requires 0 < n && 0 < p && outer <= (m * n) * (p - 1) && inner <= (n - 1) * m
    ensures outer + inner <= m * (n * p - 1)
    ensures outer + inner == m * (n * p - 1) ==> outer == (m * n) * (p - 1) && inner == (n - 1) * m
  {
    assert (m * n) * (p - 1) + (n - 1) * m == m * (n * p - 1);
  }

  /** No offset goes beyond the last place of the run, and only stacked strides get there. */
  lemma {:induction false} Reaches(s: seq<int>, c: seq<nat>, m: nat, p: nat)
    requires |s| == |c| && AllPositive(c) && 0 < m && Bounded(s, c, m) && p < |Section(s, c)|
    ensures Section(s, c)[p] <= m * (Product(c) - 1)
    ensures Section(s, c)[p] == m * (Product(c) - 1) ==> Stacked(s, c, m)
  {
    if s != [] {
      var outer := Section(s[1..], c[1..]);
      SectionCount(s, c);
      SectionCount(s[1..], c[1..]);
      ProductStart(c);
      hide Section, Start, Product, AllPositive;
      var q, r := Split(p, c[0], |outer|);
      SectionPlace(s, c, p, q, r);
      MulPositive(m, c[0]);
      Reaches(s[1..], c[1..], m * c[0], q);
      StepReach(s[0], m, c[0], r);
      ReachSum(m, c[0], |outer|, outer[q], r * s[0]);
      ProductIs(c);
    }
  }

  lemma ProductIs(c: seq<nat>)
    requires c != []
    ensures Product(c) == c[0] * Product(c[1..])
  {
  }

  // ---------- the memories that tell the two copies apart ----------

  /** An offset that stays below the last place of the run. */
  lemma ShortOf(stride: seq<int>, count: seq<nat>, p: nat)
    requires |count| == |stride| + 1 && AllPositive(count) && Tight(stride, count) && p < |Offsets(stride, count)|
    ensures Offsets(stride, count)[p] + count[0] <= Total(count)
    ensures !Lined(stride, count) ==> Offsets(stride, count)[p] + count[0] < Total(count)
  {
    TightIsBounded(stride, count);
    LinedIsStacked(stride, count);
    hide Section, Product, Tight, Lined, Bounded, Stacked;
    Reaches(stride, count[1..], count[0], p);
    LastPlace(count[0], Product(count[1..]));
  }

  lemma LastPlace(m: nat, n: nat)
    ensures m * (n - 1) + m == Start(n, m)
  {
  }

  lemma {:induction false} Bound(l: seq<int>) returns (b: nat)
    ensures forall p :: 0 <= p < |l| ==> 0 <= b + l[p] <= 2 * b
  {
    if l == [] {
      b := 0;
    } else {
      b := Bound(l[1..]);
      b := b + if l[0] < 0 then -l[0] else l[0];
      forall p | 0 <= p < |l|
        ensures 0 <= b + l[p] <= 2 * b
      {
        assert p > 0 ==> l[p] == l[1..][p - 1];
      }
    }
  }

  /** Zeros, but for a one at x. */
  function Mark(n: nat, x: int): (m: seq<Byte>)
    ensures |m| == n && forall i :: 0 <= i < n ==> m[i] == if i == x then 1 else 0
  {
    seq(n, i => if i == x then 1 else 0)
  }

  lemma OverwriteAt(m: seq<Byte>, at: nat, data: seq<Byte>, i: nat)
    requires at + |data| <= |m| && i < |data|
    ensures Overwrite(m, at, data)[at + i] == data[i]
  {
  }

  /** If the destination is not a run, the transfer does not write the last byte of it. */
  lemma LastUnwritten(dst: seq<Byte>, to: nat, stride: seq<int>, count: seq<nat>, data: seq<Byte>)
    requires |count| == |stride| + 1 && AllPositive(count) && Tight(stride, count) && !Lined(stride, count)
    requires Inside(dst, to, Offsets(stride, count), count[0]) && 0 < Total(count) && to + Total(count) <= |dst|
    requires Start(|Offsets(stride, count)|, count[0]) <= |data|
    ensures Unpack(dst, to, Offsets(stride, count), count[0], data)[to + Total(count) - 1] == dst[to + Total(count) - 1]
  {
    hide Offsets, Unpack, Tight, Lined, Inside, Total, Start, AllPositive;
    var l := Offsets(stride, count);
    forall p | 0 <= p < |l|
      ensures !Hit(to, l[p], count[0], to + Total(count) - 1)
    {
      ShortOf(stride, count, p);
    }
    UnpackElsewhere(dst, to, l, count[0], data, to + Total(count) - 1);
  }

  /** If the source is not a run, the last byte that is packed is not the last byte of the run. */
  lemma LastNotPacked(src: seq<Byte>, from: nat, stride: seq<int>, count: seq<nat>)
    requires |count| == |stride| + 1 && AllPositive(count) && Tight(stride, count) && !Lined(stride, count)
    requires Inside(src, from, Offsets(stride, count), count[0]) && 0 < Total(count) && from + Total(count) <= |src|
    requires src == Mark(|src|, from + Total(count) - 1)
    ensures var data := Pack(src, from, Offsets(stride, count), count[0]);
      |data| == Total(count) && data[Total(count) - 1] == 0
  {
    hide Offsets, Pack, Tight, Lined, Inside, Start, Chunk, Segment, Mark;
    var l, seg := Offsets(stride, count), count[0];
    SectionCount(stride, count[1..]);
    OffsetCount(stride, count);
    PackLength(src, from, l, seg);
    TotalSome(|l|, seg);
    var p := |l| - 1;
    ShortOf(stride, count, p);
    SegmentOfChunk(src, from, l, seg, p);
    StartNext(p, seg);
    var data := Pack(src, from, l, seg);
    assert data[Start(p, seg) + (seg - 1)] == data[Start(p, seg)..Start(p, seg) + seg][seg - 1];
    assert src[from + l[p]..from + l[p] + seg][seg - 1] == src[from + l[p] + seg - 1];
    MarkAt(src, from + Total(count) - 1, from + l[p] + seg - 1);
  }

  lemma MarkAt(m: seq<Byte>, x: int, i: nat)
    requires m == Mark(|m|, x) && i < |m|
    ensures m[i] == if i == x then 1 else 0
  {
  }

  lemma OffsetCount(stride: seq<int>, count: seq<nat>)
    requires |count| == |stride| + 1
    ensures |Offsets(stride, count)| == Product(count[1..]) && Total(count) == Start(|Offsets(stride, count)|, count[0])
  {
    SectionCount(stride, count[1..]);
  }

  // ---------- the exact condition ----------

  lemma BoundInside(m: seq<Byte>, base: nat, l: seq<int>, seg: nat, b: nat)
    requires b <= base && base + b + seg <= |m| && forall p :: 0 <= p < |l| ==> 0 <= b + l[p] <= 2 * b
    ensures Inside(m, base, l, seg)
  {
  }

  /** The marked memory and the empty one show the difference. */
  lemma Differs(src: seq<Byte>, from: nat, srcStride: seq<int>, dst: seq<Byte>, to: nat, dstStride: seq<int>,
      count: seq<nat>)
    requires |count| == |srcStride| + 1 == |dstStride| + 1 && AllPositive(count) && 0 < Total(count)
    requires Tight(srcStride, count) && Tight(dstStride, count)
    requires !Lined(srcStride, count) || !Lined(dstStride, count)
    requires CopyFits(src, from, srcStride, dst, to, dstStride, count)
    requires src == Mark(|src|, from + Total(count) - 1) && dst == Mark(|dst|, -1)
    ensures !SameResult(src, from, srcStride, dst, to, dstStride, count)
  {
    hide Offsets, Pack, Unpack, Tight, Lined, Inside, Start, Mark, Total, Overwrite, AllPositive;
    var sl, dl, seg, last := Offsets(srcStride, count), Offsets(dstStride, count), count[0], Total(count) - 1;
    var data, run := Pack(src, from, sl, seg), src[from..from + Total(count)];
    OffsetCount(srcStride, count);
    OffsetCount(dstStride, count);
    PackLength(src, from, sl, seg);
    MarkAt(src, from + last, from + last);
    MarkAt(dst, -1, to + last);
    OverwriteAt(dst, to, run, last);
    assert run[last] == 1;
    if !Lined(dstStride, count) {
      LastUnwritten(dst, to, dstStride, count, data);
    } else {
      LastNotPacked(src, from, srcStride, count);
      TailPositive(count);
      FlatOffsets(dstStride, count);
      UnpackRow(dst, to, seg, Product(count[1..]), data);
      assert data[..Total(count)] == data;
      OverwriteAt(dst, to, data, last);
    }
  }

  lemma TailPositive(count: seq<nat>)
    requires count != [] && AllPositive(count)
    ensures AllPositive(count[1..])
  {
  }

  lemma TotalPositive(count: seq<nat>)
    requires count != []
    ensures 0 < Total(count) <==> AllPositive(count)
  {
    ProductPositive(count);
    ProductStart(count);
  }

  /** Memories on which the two copies differ. */
  lemma TellApart(srcStride: seq<int>, dstStride: seq<int>, count: seq<nat>)
    returns (src: seq<Byte>, from: nat, dst: seq<Byte>, to: nat)
    requires |count| == |srcStride| + 1 == |dstStride| + 1
    requires Tight(srcStride, count) && Tight(dstStride, count) && !FlatPatch(srcStride, dstStride, count)
    ensures CopyFits(src, from, srcStride, dst, to, dstStride, count)
    ensures !SameResult(src, from, srcStride, dst, to, dstStride, count)
  {
    hide Offsets, Tight, Lined, Inside, Mark, Total, AllPositive, SameResult;
    TotalPositive(count);
    OffsetCount(srcStride, count);
    OffsetCount(dstStride, count);
    from := Bound(Offsets(srcStride, count));
    to := Bound(Offsets(dstStride, count));
    src := Mark(2 * from + count[0] + Total(count), from + Total(count) - 1);
    dst := Mark(2 * to + count[0] + Total(count), -1);
    BoundInside(src, from, Offsets(srcStride, count), count[0], from);
    BoundInside(dst, to, Offsets(dstStride, count), count[0], to);
    Differs(src, from, srcStride, dst, to, dstStride, count);
  }

  /**
   * When the contiguity test accepts, the flat copy is the strided transfer on all memories if and only if the patch is
   * empty or, on both sides, every level with more than one step has the product of the counts below it as its stride.
   */
  lemma FastPathCondition(srcStride: seq<int>, dstStride: seq<int>, count: seq<nat>)
    requires |count| == |srcStride| + 1 == |dstStride| + 1 && Tight(srcStride, count) && Tight(dstStride, count)
    ensures FlatCopyIsTransfer(srcStride, dstStride, count) <==> FlatPatch(srcStride, dstStride, count)
  {
    hide Tight, FlatPatch, CopyFits, SameResult;
    if FlatPatch(srcStride, dstStride, count) {
      forall src, from: nat, dst, to: nat | CopyFits(src, from, srcStride, dst, to, dstStride, count)
        ensures SameResult(src, from, srcStride, dst, to, dstStride, count)
      {
        FlatIsSame(src, from, srcStride, dst, to, dstStride, count);
      }
    } else {
      var src, from, dst, to := TellApart(srcStride, dstStride, count);
    }
  }

  lemma FlatIsSame(src: seq<Byte>, from: nat, srcStride: seq<int>, dst: seq<Byte>, to: nat, dstStride: seq<int>,
      count: seq<nat>)
    requires |count| == |srcStride| + 1 == |dstStride| + 1 && FlatPatch(srcStride, dstStride, count)
    requires CopyFits(src, from, srcStride, dst, to, dstStride, count)
    ensures SameResult(src, from, srcStride, dst, to, dstStride, count)
  {
    hide Offsets, Inside, Total, Transfer, Overwrite, FlatPatch;
    FlatCopyIs(src, from, srcStride, dst, to, dstStride, count);
  }

  /** A source stride of 0, which repeats one byte, passes the contiguity test; the flat copy repeats nothing. */
  lemma RepeatedByte() returns (srcStride: seq<int>, dstStride: seq<int>, count: seq<nat>)
    ensures srcStride == [0] && dstStride == [1] && count == [1, 2]
    ensures Tight(srcStride, count) && Tight(dstStride, count)
    ensures !FlatCopyIsTransfer(srcStride, dstStride, count)
  {
    srcStride, dstStride, count := [0], [1], [1, 2];
    assert count[..1] == [1] && count[..1][1..] == [] && count[1..] == [2] && count[1..][1..] == [];
    assert Product(count[..1]) == 1 && Product(count[1..]) == 2;
    assert 1 < count[0 + 1] && srcStride[0] != Product(count[..0 + 1]);
    assert !Lined(srcStride, count);
    hide FlatCopyIsTransfer;
    FastPathCondition(srcStride, dstStride, count);
  }
}
