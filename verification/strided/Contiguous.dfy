/**
 * The contiguous fast path of PARMCI_PutS (cmx/src-armci/armci.c), and why it moves the same bytes as the strided one.
 */
module Contiguous {
  import opened Arithmetic
  import opened Strides
  import opened Packing
  import opened StrideIterators

  /** Every stride is the product of the counts below it: the patch is one flat run of bytes. */
  ghost predicate Flat(stride: seq<int>, count: seq<nat>)
    requires |stride| < |count|
  {
    forall i :: 0 <= i < |stride| ==> stride[i] == Product(count[..i + 1])
  }

  /** No stride exceeds the product of the counts below it. */
  ghost predicate Tight(stride: seq<int>, count: seq<nat>)
    requires |stride| < |count|
  {
    forall i :: 0 <= i < |stride| ==> stride[i] <= Product(count[..i + 1])
  }

  /** armci_check_contiguous */
  method CheckContiguous(srcStride: seq<int>, dstStride: seq<int>, count: seq<nat>) returns (ret: bool)
    requires |srcStride| == |dstStride| < |count|
    ensures ret <==> Tight(srcStride, count) && Tight(dstStride, count)
  {
    ret := true;
    var stridelen := 1;
    var i := 0;
    while i < |srcStride|
      invariant 0 <= i <= |srcStride| && stridelen == Product(count[..i]) && ret
      invariant forall j :: 0 <= j < i ==>
        srcStride[j] <= Product(count[..j + 1]) && dstStride[j] <= Product(count[..j + 1])
    {
      NextProduct(count, i);
      stridelen := stridelen * count[i];
      if stridelen < srcStride[i] || stridelen < dstStride[i] {
        ret := false;
        break;
      }
      i := i + 1;
    }
  }

  /** Under the iterator's assertions, strides that are tight are flat. */
  lemma TightIsFlat(stride: seq<int>, count: seq<nat>)
    requires |count| == |stride| + 1 && Stepped(stride, count)
    ensures Tight(stride, count) <==> Flat(stride, count)
  {
    if Tight(stride, count) {
      hide Tight, Stepped, Product;
      var i := 0;
      while i < |stride|
        invariant 0 <= i <= |stride|
        invariant forall j :: 0 <= j < i ==> stride[j] == Product(count[..j + 1])
      {
        TightStep(stride, count, i);
        i := i + 1;
      }
    }
  }

  lemma TightStep(stride: seq<int>, count: seq<nat>, i: nat)
    requires |count| == |stride| + 1 && Stepped(stride, count) && Tight(stride, count) && i < |stride|
    requires i > 0 ==> stride[i - 1] == Product(count[..i])
    ensures stride[i] == Product(count[..i + 1])
  {
    NextProduct(count, i);
    if i == 0 {
      assert Product(count[..0]) == 1;
    }
  }

  /** Every stride that is used at all, because its level has more than one step, is the product. */
  ghost predicate Lined(stride: seq<int>, count: seq<nat>)
    requires |stride| < |count|
  {
    forall i :: 0 <= i < |stride| && 1 < count[i + 1] ==> stride[i] == Product(count[..i + 1])
  }

  /** The strides are m, m * c[0], m * c[0] * c[1], and so on, except at levels of a single step. */
  predicate Stacked(s: seq<int>, c: seq<nat>, m: nat)
    requires |s| == |c|
  {
    s == [] || ((1 < c[0] ==> s[0] == m) && Stacked(s[1..], c[1..], m * c[0]))
  }

  lemma {:induction false} LinedStacked(stride: seq<int>, count: seq<nat>, k: nat)
    requires |count| == |stride| + 1 && k <= |stride|
    ensures Stacked(stride[k..], count[1..][k..], Product(count[..k + 1])) <==>
      forall i :: k <= i < |stride| && 1 < count[i + 1] ==> stride[i] == Product(count[..i + 1])
    decreases |stride| - k
  {
    if k < |stride| {
      LinedStacked(stride, count, k + 1);
      NextProduct(count, k + 1);
      assert stride[k..][1..] == stride[k + 1..] && count[1..][k..][1..] == count[1..][k + 1..];
      hide Product;
      assert count[1..][k..][0] == count[k + 1] && stride[k..][0] == stride[k];
    }
  }

  /** The patch as a whole: its levels above the segments. */
  lemma LinedIsStacked(stride: seq<int>, count: seq<nat>)
    requires |count| == |stride| + 1
    ensures Lined(stride, count) <==> Stacked(stride, count[1..], count[0])
  {
    LinedStacked(stride, count, 0);
    assert stride[0..] == stride && count[1..][0..] == count[1..] && count[..1] == [count[0]] && [count[0]][1..] == [];
    assert Product(count[..1]) == count[0];
  }

  lemma {:induction false} ExpandOne(outer: seq<int>, step: int, m: int)
    ensures Expand(outer, step, 1) == Expand(outer, m, 1)
  {
    if outer != [] {
      ExpandOne(outer[1..], step, m);
      assert Row(outer[0], step, 1) == Row(outer[0], m, 1);
    }
  }

  lemma {:induction false} StackedRow(s: seq<int>, c: seq<nat>, m: nat)
    requires |s| == |c| && AllPositive(c) && Stacked(s, c, m)
    ensures Section(s, c) == Row(0, m, Product(c))
  {
    if s == [] {
      assert Row(0, m, 1) == [0];
    } else {
      StackedRow(s[1..], c[1..], m * c[0]);
      RowOfRows(m, c[0], Product(c[1..]));
      if c[0] == 1 {
        ExpandOne(Section(s[1..], c[1..]), s[0], m);
      }
    }
  }

  lemma RowOfRows(m: nat, n: nat, rows: nat)
    requires 0 < n
    ensures Expand(Row(0, m * n, rows), m, n) == Row(0, m, n * rows)
  {
    hide Expand, Start, Row;
    var outer := Row(0, m * n, rows);
    var l := Expand(outer, m, n);
    RowsOf(0, m * n, rows);
    RowsOf(0, m, n * rows);
    ExpandLength(outer, m, n);
    StartIs(rows, n);
    forall p | 0 <= p < |l|
      ensures l[p] == Row(0, m, n * rows)[p]
    {
      var q, r := Split(p, n, rows);
      ExpandAt(outer, m, n, p, q, r);
      SamePlace(q, r, n, m);
    }
  }

  lemma StartIs(p: nat, n: nat)
    ensures Start(p, n) == n * p
  {
  }

  lemma RowsOf(start: int, step: int, n: nat)
    ensures |Row(start, step, n)| == n && forall j :: 0 <= j < n ==> Row(start, step, n)[j] == start + j * step
  {
  }

  lemma SamePlace(q: nat, r: nat, n: nat, m: nat)
    ensures q * (m * n) + r * m == (Start(q, n) + r) * m
  {
  }

  /** Such a patch consists of segments one right after the other. */
  lemma FlatOffsets(stride: seq<int>, count: seq<nat>)
    requires |count| == |stride| + 1 && AllPositive(count[1..]) && Lined(stride, count)
    ensures Offsets(stride, count) == Row(0, count[0], Product(count[1..]))
  {
    LinedIsStacked(stride, count);
    StackedRow(stride, count[1..], count[0]);
  }

  // ---------- flat copies ----------

  lemma RowPrefix(seg: nat, n: nat)
    requires 0 < n
    ensures |Row(0, seg, n)| == n && Row(0, seg, n)[..n - 1] == Row(0, seg, n - 1)
    ensures Row(0, seg, n)[n - 1] == Start(n - 1, seg)
    ensures Start(n - 1, seg) + seg == Start(n, seg)
  {
  }

  lemma RowEntry(seg: nat, n: nat, p: nat)
    requires p < n
    ensures |Row(0, seg, n)| == n && Row(0, seg, n)[p] == Start(p, seg) && Start(p, seg) + seg <= Start(n, seg)
  {
    StartNext(p, seg);
    StartMonotone(p + 1, n, seg);
  }

  lemma RowInside(m: seq<Byte>, base: nat, seg: nat, n: nat)
    requires base + Start(n, seg) <= |m|
    ensures Inside(m, base, Row(0, seg, n), seg)
  {
    hide Row, Start;
    var l := Row(0, seg, n);
    RowCount(seg, n);
    forall p | 0 <= p < |l|
      ensures 0 <= base + l[p] && base + l[p] + seg <= |m|
    {
      RowEntry(seg, n, p);
    }
  }

  lemma SegmentIs(m: seq<Byte>, base: nat, o: nat, seg: nat)
    requires base + o + seg <= |m|
    ensures Segment(m, base, o, seg) == m[base + o..base + o + seg]
  {
  }

  lemma EmptyRow(seg: nat)
    ensures Row(0, seg, 0) == []
  {
  }

  lemma {:induction false} PackRow(m: seq<Byte>, base: nat, seg: nat, n: nat)
    requires base + Start(n, seg) <= |m|
    ensures Pack(m, base, Row(0, seg, n), seg) == m[base..base + Start(n, seg)]
  {
    hide Row, Start, Segment;
    StartNone(seg);
    if n > 0 {
      RowPrefix(seg, n);
      PackRow(m, base, seg, n - 1);
      PackSnoc(m, base, Row(0, seg, n), seg);
      SegmentIs(m, base, Start(n - 1, seg), seg);
    } else {
      EmptyRow(seg);
    }
  }

  lemma {:induction false} UnpackRow(m: seq<Byte>, base: nat, seg: nat, n: nat, data: seq<Byte>)
    requires base + Start(n, seg) <= |m| && Start(n, seg) <= |data|
    ensures Inside(m, base, Row(0, seg, n), seg)
    ensures Unpack(m, base, Row(0, seg, n), seg, data) == Overwrite(m, base, data[..Start(n, seg)])
  {
    hide Row, Overwrite, Inside, Start;
    StartNone(seg);
    EmptyRow(seg);
    RowInside(m, base, seg, n);
    if n > 0 {
      RowPrefix(seg, n);
      UnpackRow(m, base, seg, n - 1, data);
      var k := Start(n - 1, seg);
      OverwriteTwice(m, base, data[..k], data[k..k + seg]);
      assert data[..k + seg] == data[..k] + data[k..k + seg];
    } else {
      OverwriteNone(m, base);
    }
  }

  lemma OverwriteTwice(m: seq<Byte>, at: nat, a: seq<Byte>, b: seq<Byte>)
    requires at + |a| + |b| <= |m|
    ensures Overwrite(Overwrite(m, at, a), at + |a|, b) == Overwrite(m, at, a + b)
  {
  }

  /** What a strided put does to the destination: the source's segments, in order, go to the destination's segments. */
  function Transfer(src: seq<Byte>, from: int, sl: seq<int>, dst: seq<Byte>, to: int, dl: seq<int>,
      seg: nat): (r: seq<Byte>)
    requires |sl| == |dl| && Inside(src, from, sl, seg) && Inside(dst, to, dl, seg)
    ensures |r| == |dst|
  {
    PackLength(src, from, sl, seg);
    Unpack(dst, to, dl, seg, Pack(src, from, sl, seg))
  }

  lemma RowCount(seg: nat, n: nat)
    ensures |Row(0, seg, n)| == n
  {
  }

  /** Copying the product of all counts as one run is the strided transfer. */
  lemma FlatTransfer(src: seq<Byte>, from: nat, dst: seq<Byte>, to: nat, seg: nat, n: nat)
    requires from + Start(n, seg) <= |src| && to + Start(n, seg) <= |dst|
    ensures Inside(src, from, Row(0, seg, n), seg) && Inside(dst, to, Row(0, seg, n), seg)
    ensures Transfer(src, from, Row(0, seg, n), dst, to, Row(0, seg, n), seg) ==
      Overwrite(dst, to, src[from..from + Start(n, seg)])
  {
    hide Row, Overwrite, Inside, Pack, Unpack, Start;
    RowInside(src, from, seg, n);
    PackRow(src, from, seg, n);
    RowCount(seg, n);
    UnpackRow(dst, to, seg, n, src[from..from + Start(n, seg)]);
    assert src[from..from + Start(n, seg)][..Start(n, seg)] == src[from..from + Start(n, seg)];
  }

  lemma InsideRow(m: seq<Byte>, base: int, seg: nat, n: nat)
    requires 0 < n && Inside(m, base, Row(0, seg, n), seg)
    ensures 0 <= base && base + Start(n, seg) <= |m|
  {
    hide Row, Start;
    RowEntry(seg, n, 0);
    RowEntry(seg, n, n - 1);
    StartNone(seg);
    StartNext(n - 1, seg);
  }

  /** The number of bytes in the patch. */
  function Total(count: seq<nat>): nat
    requires |count| > 0
  {
    Start(Product(count[1..]), count[0])
  }

  /** On both sides the patch is one run of bytes, or it is empty. */
  ghost predicate FlatPatch(srcStride: seq<int>, dstStride: seq<int>, count: seq<nat>)
    requires |srcStride| == |dstStride| < |count|
  {
    Total(count) == 0 || (Lined(srcStride, count) && Lined(dstStride, count))
  }

  /** A loop nest visits as many offsets as its counts multiply to. */
  lemma {:induction false} SectionCount(s: seq<int>, c: seq<nat>)
    requires |s| == |c|
    ensures |Section(s, c)| == Product(c)
  {
    if s != [] {
      SectionCount(s[1..], c[1..]);
      ExpandLength(Section(s[1..], c[1..]), s[0], c[0]);
      ProductStart(c);
    }
  }

  /** Nothing is transferred when there are no segments, or only empty ones. */
  lemma {:induction false} NothingUnpacked(m: seq<Byte>, base: int, l: seq<int>, seg: nat, data: seq<Byte>)
    requires Inside(m, base, l, seg) && Start(|l|, seg) <= |data| && (l == [] || seg == 0)
    ensures Unpack(m, base, l, seg, data) == m
    decreases |l|
  {
    hide Start, Overwrite;
    if l != [] {
      var k := |l| - 1;
      UnpackSnoc(m, base, l, seg, data);
      NothingUnpacked(m, base, l[..k], seg, data);
      OverwriteNone(m, base + l[k]);
      assert Chunk(data, k, seg) == [];
    }
  }

  /** Copying as many bytes as the patch has in one run is the strided transfer of a flat patch. */
  lemma FlatCopyIs(src: seq<Byte>, from: nat, srcStride: seq<int>, dst: seq<Byte>, to: nat, dstStride: seq<int>,
      count: seq<nat>)
    requires |count| == |srcStride| + 1 == |dstStride| + 1 && FlatPatch(srcStride, dstStride, count)
    requires Inside(src, from, Offsets(srcStride, count), count[0])
    requires Inside(dst, to, Offsets(dstStride, count), count[0])
    requires from + Total(count) <= |src| && to + Total(count) <= |dst|
    ensures |Offsets(srcStride, count)| == |Offsets(dstStride, count)|
    ensures Transfer(src, from, Offsets(srcStride, count), dst, to, Offsets(dstStride, count), count[0]) ==
      Overwrite(dst, to, src[from..from + Total(count)])
  {
    hide Inside, Unpack, Pack, Product, Overwrite, Section, Lined, Start;
    SectionCount(srcStride, count[1..]);
    SectionCount(dstStride, count[1..]);
    var sl, dl, seg, n := Offsets(srcStride, count), Offsets(dstStride, count), count[0], Product(count[1..]);
    if Total(count) == 0 {
      TotalNone(n, seg);
      PackLength(src, from, sl, seg);
      NothingUnpacked(dst, to, dl, seg, Pack(src, from, sl, seg));
      OverwriteNone(dst, to);
      assert src[from..from] == [];
    } else {
      TotalSome(n, seg);
      ProductPositive(count[1..]);
      FlatOffsets(srcStride, count);
      FlatOffsets(dstStride, count);
      FlatTransfer(src, from, dst, to, seg, n);
    }
  }

  /** A patch that is one run of bytes inside memory leaves room for a flat copy. */
  lemma FlatRoom(m: seq<Byte>, base: nat, stride: seq<int>, count: seq<nat>)
    requires |count| == |stride| + 1 && AllPositive(count[1..]) && Lined(stride, count)
    requires Inside(m, base, Offsets(stride, count), count[0])
    ensures base + Total(count) <= |m|
  {
    hide Inside, Product, Section, Lined, Start;
    ProductPositive(count[1..]);
    FlatOffsets(stride, count);
    InsideRow(m, base, count[0], Product(count[1..]));
  }

  lemma TotalNone(n: nat, seg: nat)
    requires Start(n, seg) == 0
    ensures n == 0 || seg == 0
  {
    if n > 0 && seg > 0 { MulPositive(n, seg); }
  }

  lemma TotalSome(n: nat, seg: nat)
    requires Start(n, seg) != 0
    ensures 0 < n && 0 < seg
  {
  }

  /** A strided put as the transfer library performs it: segment by segment, in order. */
  method StridedPut(src: array<Byte>, from: int, sl: seq<int>, dst: array<Byte>, to: int, dl: seq<int>, seg: nat)
    requires src != dst && |sl| == |dl| && Inside(src[..], from, sl, seg) && Inside(dst[..], to, dl, seg)
    modifies dst
    ensures dst[..] == Transfer(src[..], from, sl, old(dst[..]), to, dl, seg)
  {
    hide Inside, Unpack, Pack, Overwrite, Start, Chunk, Segment;
    ghost var was, data := dst[..], Pack(src[..], from, sl, seg);
    PackLength(src[..], from, sl, seg);
    UnpackNone(was, to, dl, seg, data);
    StartNone(seg);
    var p := 0;
    while p < |sl|
      invariant 0 <= p <= |sl| && Inside(was, to, dl[..p], seg) && Start(p, seg) <= |data|
      invariant dst[..] == Unpack(was, to, dl[..p], seg, data)
    {
      UnpackNext(was, to, dl, seg, data, p);
      SegmentOfChunk(src[..], from, sl, seg, p);
      CopyBytes(dst, to + dl[p], src, from + sl[p], seg);
      p := p + 1;
    }
    assert dl[..p] == dl;
  }

  lemma SegmentOfChunk(m: seq<Byte>, base: int, l: seq<int>, seg: nat, p: nat)
    requires Inside(m, base, l, seg) && p < |l|
    ensures 0 <= base + l[p] && base + l[p] + seg <= |m|
    ensures Start(p, seg) + seg <= |Pack(m, base, l, seg)|
    ensures Pack(m, base, l, seg)[Start(p, seg)..Start(p, seg) + seg] == m[base + l[p]..base + l[p] + seg]
  {
    PackChunk(m, base, l, seg, p);
    ChunkInside(Pack(m, base, l, seg), p, |l|, seg);
    hide Pack, Start;
  }

  /**
   * PARMCI_PutS, for two memories. The strided path, and the contiguous one for a flat patch, bring every segment of
   * the source to the corresponding segment of the destination.
   */
  method PutS(src: array<Byte>, from: nat, srcStride: seq<int>, dst: array<Byte>, to: nat, dstStride: seq<int>,
      count: seq<nat>)
    requires src != dst && |count| == |srcStride| + 1 == |dstStride| + 1
    requires Inside(src[..], from, Offsets(srcStride, count), count[0])
    requires Inside(dst[..], to, Offsets(dstStride, count), count[0])
    requires Tight(srcStride, count) && Tight(dstStride, count) ==>
      from + Total(count) <= src.Length && to + Total(count) <= dst.Length
    modifies dst
    ensures |Offsets(srcStride, count)| == |Offsets(dstStride, count)|
    ensures Tight(srcStride, count) && Tight(dstStride, count) ==>
      dst[..] == Overwrite(old(dst[..]), to, src[from..from + Total(count)])
    ensures !Tight(srcStride, count) || !Tight(dstStride, count) || FlatPatch(srcStride, dstStride, count) ==>
      dst[..] ==
        Transfer(src[..], from, Offsets(srcStride, count), old(dst[..]), to, Offsets(dstStride, count), count[0])
  {
    hide Inside, Unpack, Pack, Product, Overwrite, Section, Start, Tight, Lined, FlatPatch;
    SectionCount(srcStride, count[1..]);
    SectionCount(dstStride, count[1..]);
    var contiguous := CheckContiguous(srcStride, dstStride, count);
    if contiguous {
      if FlatPatch(srcStride, dstStride, count) {
        FlatCopyIs(src[..], from, srcStride, dst[..], to, dstStride, count);
      }
      var lcount := TotalCount(count);
      assert src[..][from..from + lcount] == src[from..from + lcount];
      CopyBytes(dst, to, src, from, lcount);
    } else {
      StridedPut(src, from, Offsets(srcStride, count), dst, to, Offsets(dstStride, count), count[0]);
    }
  }

  /** The same transfer through a buffer, with the iterator's two routines. */
  method PackedPut(src: array<Byte>, from: nat, srcStride: seq<int>, dst: array<Byte>, to: nat, dstStride: seq<int>,
      count: seq<nat>)
    requires Acceptable(srcStride, count) && Acceptable(dstStride, count) && 0 < count[0] && src != dst
    requires Inside(src[..], from, Offsets(srcStride, count), count[0])
    requires Inside(dst[..], to, Offsets(dstStride, count), count[0])
    modifies dst
    ensures |Offsets(srcStride, count)| == |Offsets(dstStride, count)|
    ensures dst[..] ==
      Transfer(src[..], from, Offsets(srcStride, count), old(dst[..]), to, Offsets(dstStride, count), count[0])
  {
    hide Inside, Unpack, Pack, Offsets, Product, Overwrite, Section, Start;
    OffsetsSpaced(srcStride, count);
    OffsetsSpaced(dstStride, count);
    ghost var sl, seg := Offsets(srcStride, count), count[0];
    PackLength(src[..], from, sl, seg);
    var total := TotalCount(count);
    var buf := new Byte[total];
    WriteStrided(src, from, srcStride, count, buf);
    assert buf[..] == Pack(src[..], from, sl, seg);
    ReadStrided(dst, to, dstStride, count, buf);
  }

  /** The product of all counts. */
  method TotalCount(count: seq<nat>) returns (n: nat)
    requires |count| > 0
    ensures n == Total(count)
  {
    n := 1;
    var i := 0;
    while i < |count|
      invariant 0 <= i <= |count| && n == Product(count[..i])
    {
      NextProduct(count, i);
      n := n * count[i];
      i := i + 1;
    }
    assert count[..i] == count;
  }
}
