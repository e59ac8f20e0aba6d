/** Packing the segments of a strided patch into a buffer, and unpacking them again, as functions on memory contents. */
module Packing {
  import opened Arithmetic
  import opened Strides

  type Byte = b: int | 0 <= b < 256

  /** Every segment lies inside memory m. */
  predicate Inside(m: seq<Byte>, base: int, l: seq<int>, seg: nat) {
    forall p :: 0 <= p < |l| ==> 0 <= base + l[p] && base + l[p] + seg <= |m|
  }

  /** The p-th stretch of seg bytes. */
  function Chunk(data: seq<Byte>, p: nat, seg: nat): seq<Byte> {
    if Start(p, seg) + seg <= |data| then data[Start(p, seg)..Start(p, seg) + seg] else []
  }

  /** The segment of m at offset o. */
  function Segment(m: seq<Byte>, base: int, o: int, seg: nat): seq<Byte> {
    if 0 <= base + o && base + o + seg <= |m| then m[base + o..base + o + seg] else []
  }

  /** m with data in the place of the segment at offset o. */
  function Overwrite(m: seq<Byte>, at: nat, data: seq<Byte>): (r: seq<Byte>)
    requires at + |data| <= |m|
    ensures |r| == |m|
  {
    m[..at] + data + m[at + |data|..]
  }

  /** The segments in order. */
  function Pack(m: seq<Byte>, base: int, l: seq<int>, seg: nat): seq<Byte> {
    if l == [] then [] else Pack(m, base, l[..|l| - 1], seg) + Segment(m, base, l[|l| - 1], seg)
  }

  /** The memory after the chunks of data have been written to the segments, in order. */
  function Unpack(m: seq<Byte>, base: int, l: seq<int>, seg: nat, data: seq<Byte>): (r: seq<Byte>)
    requires Inside(m, base, l, seg) && Start(|l|, seg) <= |data|
    ensures |r| == |m|
    decreases |l|
  {
    if l == [] then m
    else
      StartNext(|l| - 1, seg);
      var k := |l| - 1;
      Overwrite(Unpack(m, base, l[..k], seg, data), base + l[k], Chunk(data, k, seg))
  }

  lemma ChunkInside(data: seq<Byte>, p: nat, n: nat, seg: nat)
    requires p < n && Start(n, seg) <= |data|
    ensures 0 <= Start(p, seg) && Start(p, seg) + seg <= Start(n, seg) && |Chunk(data, p, seg)| == seg
  {
    hide Start;
    StartMonotone(p + 1, n, seg);
    StartNext(p, seg);
  }

  lemma ChunkPrefix(a: seq<Byte>, b: seq<Byte>, p: nat, seg: nat)
    requires Start(p, seg) + seg <= |a|
    ensures Chunk(a + b, p, seg) == Chunk(a, p, seg)
  {
  }

  lemma ChunkLast(a: seq<Byte>, b: seq<Byte>, k: nat, seg: nat)
    requires |a| == Start(k, seg) && |b| == seg
    ensures Chunk(a + b, k, seg) == b
  {
  }

  lemma PackSnoc(m: seq<Byte>, base: int, l: seq<int>, seg: nat)
    requires l != []
    ensures Pack(m, base, l, seg) == Pack(m, base, l[..|l| - 1], seg) + Segment(m, base, l[|l| - 1], seg)
  {
  }

  lemma SegmentLength(m: seq<Byte>, base: int, l: seq<int>, seg: nat, p: nat)
    requires Inside(m, base, l, seg) && p < |l|
    ensures |Segment(m, base, l[p], seg)| == seg && Inside(m, base, l[..p], seg)
  {
  }

  /** The packed buffer is the in-order concatenation of the segments. */
  lemma {:induction false} PackChunk(m: seq<Byte>, base: int, l: seq<int>, seg: nat, p: nat)
    requires Inside(m, base, l, seg) && p < |l|
    ensures |Pack(m, base, l, seg)| == Start(|l|, seg)
    ensures Chunk(Pack(m, base, l, seg), p, seg) == Segment(m, base, l[p], seg)
    decreases |l|
  {
    hide Start, Chunk, Pack, Segment, Inside;
    var k := |l| - 1;
    PackSnoc(m, base, l, seg);
    SegmentLength(m, base, l, seg, k);
    PackLength(m, base, l, seg);
    PackLength(m, base, l[..k], seg);
    if p < k {
      PackChunk(m, base, l[..k], seg, p);
      StartMonotone(p + 1, k, seg);
      StartNext(p, seg);
      ChunkPrefix(Pack(m, base, l[..k], seg), Segment(m, base, l[k], seg), p, seg);
    } else {
      ChunkLast(Pack(m, base, l[..k], seg), Segment(m, base, l[k], seg), k, seg);
    }
  }

  lemma {:induction false} PackLength(m: seq<Byte>, base: int, l: seq<int>, seg: nat)
    requires Inside(m, base, l, seg)
    ensures |Pack(m, base, l, seg)| == Start(|l|, seg)
    decreases |l|
  {
    hide Start;
    StartNone(seg);
    if l != [] {
      PackLength(m, base, l[..|l| - 1], seg);
      StartNext(|l| - 1, seg);
    }
  }

  /** Data that is equal chunk by chunk is equal. */
  lemma {:induction false} ChunksEqual(a: seq<Byte>, b: seq<Byte>, n: nat, seg: nat)
    requires |a| == Start(n, seg) && Start(n, seg) <= |b|
    requires forall p: nat :: p < n ==> Chunk(a, p, seg) == Chunk(b, p, seg)
    ensures a == b[..Start(n, seg)]
    decreases n
  {
    hide Start;
    StartNone(seg);
    if n > 0 {
      var k := Start(n - 1, seg);
      StartNext(n - 1, seg);
      forall p: nat | p < n - 1
        ensures Chunk(a[..k], p, seg) == Chunk(b, p, seg)
      {
        ChunkInside(a[..k], p, n - 1, seg);
        assert Chunk(a, p, seg) == Chunk(b, p, seg);
        assert Chunk(a[..k], p, seg) == Chunk(a, p, seg);
      }
      ChunksEqual(a[..k], b, n - 1, seg);
      assert Chunk(a, n - 1, seg) == Chunk(b, n - 1, seg);
      assert a == a[..k] + Chunk(a, n - 1, seg);
    }
  }

  /** The last step of unpacking. */
  lemma UnpackSnoc(m: seq<Byte>, base: int, l: seq<int>, seg: nat, data: seq<Byte>)
    requires Inside(m, base, l, seg) && Start(|l|, seg) <= |data| && l != []
    ensures var k := |l| - 1;
      && Inside(m, base, l[..k], seg) && Start(k, seg) <= |data| && |Chunk(data, k, seg)| == seg
      && 0 <= base + l[k] && base + l[k] + seg <= |m|
      && Unpack(m, base, l, seg, data)
        == Overwrite(Unpack(m, base, l[..k], seg, data), base + l[k], Chunk(data, k, seg))
  {
    hide Start, Chunk, Overwrite;
    StartNext(|l| - 1, seg);
    ChunkInside(data, |l| - 1, |l|, seg);
  }

  lemma OverwriteThere(m: seq<Byte>, at: nat, data: seq<Byte>, base: int, o: int)
    requires at + |data| <= |m| && base + o == at
    ensures Segment(Overwrite(m, at, data), base, o, |data|) == data
  {
  }

  lemma OverwriteSame(m: seq<Byte>, base: int, o: int, seg: nat)
    requires 0 <= base + o && base + o + seg <= |m|
    ensures |Segment(m, base, o, seg)| == seg && Overwrite(m, base + o, Segment(m, base, o, seg)) == m
  {
  }

  /** Each chunk arrives in its segment, when the segments do not overlap. */
  lemma {:induction false} UnpackSegment(m: seq<Byte>, base: int, l: seq<int>, seg: nat, data: seq<Byte>, p: nat)
    requires Inside(m, base, l, seg) && Start(|l|, seg) <= |data| && Spaced(l, seg) && p < |l|
    ensures Segment(Unpack(m, base, l, seg, data), base, l[p], seg) == Chunk(data, p, seg)
    decreases |l|
  {
    hide Start, Chunk, Segment, Overwrite, Unpack, Spaced;
    var k := |l| - 1;
    UnpackSnoc(m, base, l, seg, data);
    var before := Unpack(m, base, l[..k], seg, data);
    if p < k {
      ShorterSpaced(l, seg);
      UnpackSegment(m, base, l[..k], seg, data, p);
      SpacedApart(l, seg, p, k);
      OverwriteBeyond(before, base + l[k], Chunk(data, k, seg), base, l[p], seg);
    } else {
      OverwriteThere(before, base + l[k], Chunk(data, k, seg), base, l[k]);
    }
  }

  lemma ShorterSpaced(l: seq<int>, seg: int)
    requires Spaced(l, seg) && l != []
    ensures Spaced(l[..|l| - 1], seg)
  {
    hide Start;
    var s := l[..|l| - 1];
    forall p | 0 <= p < |s| - 1
      ensures s[p] + seg <= s[p + 1]
    {
      assert l[p] + seg <= l[p + 1];
    }
  }

  lemma OverwriteNone(m: seq<Byte>, at: nat)
    requires at <= |m|
    ensures Overwrite(m, at, []) == m
  {
  }

  lemma OverwriteMore(m: seq<Byte>, at: nat, data: seq<Byte>, b: Byte)
    requires at + |data| < |m|
    ensures Overwrite(m, at, data)[at + |data| := b] == Overwrite(m, at, data + [b])
  {
  }

  lemma OverwriteBeyond(m: seq<Byte>, at: nat, data: seq<Byte>, base: int, o: int, seg: nat)
    requires at + |data| <= |m| && base + o + seg <= at && 0 <= base + o
    ensures Segment(Overwrite(m, at, data), base, o, seg) == Segment(m, base, o, seg)
  {
  }

  lemma OverwriteElsewhere(m: seq<Byte>, at: nat, data: seq<Byte>, x: nat)
    requires at + |data| <= |m| && x < |m| && !(at <= x < at + |data|)
    ensures Overwrite(m, at, data)[x] == m[x]
  {
  }

  /** Byte x belongs to the segment at offset o. */
  predicate Hit(base: int, o: int, seg: nat, x: int) {
    base + o <= x < base + o + seg
  }

  /** No byte outside the segments changes. */
  lemma {:induction false} UnpackElsewhere(m: seq<Byte>, base: int, l: seq<int>, seg: nat, data: seq<Byte>, x: nat)
    requires Inside(m, base, l, seg) && Start(|l|, seg) <= |data| && x < |m|
    requires forall p :: 0 <= p < |l| ==> !Hit(base, l[p], seg, x)
    ensures Unpack(m, base, l, seg, data)[x] == m[x]
    decreases |l|
  {
    hide Start;
    hide Chunk, Overwrite, Unpack;
    if l != [] {
      var k := |l| - 1;
      UnpackSnoc(m, base, l, seg, data);
      UnpackElsewhere(m, base, l[..k], seg, data, x);
      assert !Hit(base, l[k], seg, x);
      OverwriteElsewhere(Unpack(m, base, l[..k], seg, data), base + l[k], Chunk(data, k, seg), x);
    } else {
      UnpackEmpty(m, base, l, seg, data);
    }
  }

  lemma UnpackEmpty(m: seq<Byte>, base: int, l: seq<int>, seg: nat, data: seq<Byte>)
    requires Inside(m, base, l, seg) && Start(|l|, seg) <= |data| && l == []
    ensures Unpack(m, base, l, seg, data) == m
  {
  }

  /** Writing back what is already there changes nothing. */
  lemma {:induction false} UnpackSame(m: seq<Byte>, base: int, l: seq<int>, seg: nat, data: seq<Byte>)
    requires Inside(m, base, l, seg) && Start(|l|, seg) <= |data|
    requires forall p: nat :: p < |l| ==> Chunk(data, p, seg) == Segment(m, base, l[p], seg)
    ensures Unpack(m, base, l, seg, data) == m
    decreases |l|
  {
    hide Start;
    hide Chunk, Segment, Overwrite, Unpack;
    if l != [] {
      var k := |l| - 1;
      UnpackSnoc(m, base, l, seg, data);
      UnpackSame(m, base, l[..k], seg, data);
      assert Chunk(data, k, seg) == Segment(m, base, l[k], seg);
      OverwriteSame(m, base, l[k], seg);
    } else {
      UnpackEmpty(m, base, l, seg, data);
    }
  }

  /** Packing a patch and unpacking it through the same descriptor restores the memory. */
  lemma UnpackUndoesPack(m: seq<Byte>, base: int, l: seq<int>, seg: nat)
    requires Inside(m, base, l, seg)
    ensures |Pack(m, base, l, seg)| == Start(|l|, seg)
    ensures Unpack(m, base, l, seg, Pack(m, base, l, seg)) == m
  {
    hide Start;
    PackLength(m, base, l, seg);
    forall p: nat | p < |l|
      ensures Chunk(Pack(m, base, l, seg), p, seg) == Segment(m, base, l[p], seg)
    {
      PackChunk(m, base, l, seg, p);
    }
    UnpackSame(m, base, l, seg, Pack(m, base, l, seg));
  }

  /** Unpacking a buffer and packing the patch again restores the buffer, when the segments do not overlap. */
  lemma PackUndoesUnpack(m: seq<Byte>, base: int, l: seq<int>, seg: nat, data: seq<Byte>)
    requires Inside(m, base, l, seg) && Start(|l|, seg) <= |data| && Spaced(l, seg)
    ensures Pack(Unpack(m, base, l, seg, data), base, l, seg) == data[..Start(|l|, seg)]
  {
    hide Start;
    var m' := Unpack(m, base, l, seg, data);
    PackLength(m', base, l, seg);
    forall p: nat | p < |l|
      ensures Chunk(Pack(m', base, l, seg), p, seg) == Chunk(data, p, seg)
    {
      PackChunk(m', base, l, seg, p);
      UnpackSegment(m, base, l, seg, data, p);
    }
    ChunksEqual(Pack(m', base, l, seg), data, |l|, seg);
  }
}
