/** The stride iterator and the two routines that copy through it (cmx/src-armci/iterator.c). */
module StrideIterators {
  import opened Arithmetic
  import opened Strides
  import opened Packing

  const ARMCI_MAX_STRIDE_LEVEL: nat := 8

  /**
   * Each stride is at least the length of everything one level further in: the first assertions of
   * armci_stride_info_init.
   */
  predicate Stepped(stride: seq<int>, count: seq<nat>)
    requires |count| == |stride| + 1
  {
    && (stride != [] ==> stride[0] >= count[0])
    && forall i :: 1 <= i < |stride| ==> stride[i] >= stride[i - 1] * count[i]
  }

  /**
   * What armci_stride_info_init asserts of a descriptor. One level less than the maximum: the loop clears a counter
   * more.
   */
  predicate Acceptable(stride: seq<int>, count: seq<nat>) {
    && |stride| < ARMCI_MAX_STRIDE_LEVEL && |count| == |stride| + 1
    && Stepped(stride, count) && 0 < Product(count[1..])
  }

  /** The offsets of the contiguous segments. */
  function Offsets(stride: seq<int>, count: seq<nat>): seq<int>
    requires |count| == |stride| + 1
  {
    Section(stride, count[1..])
  }

  class StrideInfo {
    const strideLevels: nat
    const strideArr: seq<int>
    const segCount: seq<nat>
    const itr: array<nat>
    var size: nat
    var pos: nat

    /** The counters are the mixed-radix digits of pos. */
    ghost predicate Valid()
      reads this, itr
    {
      && |strideArr| == strideLevels < itr.Length == ARMCI_MAX_STRIDE_LEVEL && |segCount| == strideLevels + 1
      && AllPositive(segCount[1..]) && size == Product(segCount[1..]) && pos <= size
      && itr[..strideLevels] == Digits(segCount[1..], pos)
    }

    /** armci_stride_info_init */
    constructor (stride: seq<int>, count: seq<nat>)
      requires Acceptable(stride, count)
      ensures Valid() && fresh(itr) && pos == 0 && strideArr == stride && segCount == count
      ensures size == Product(count[1..])
    {
      strideLevels := |stride|;
      strideArr, segCount := stride, count;
      itr := new nat[ARMCI_MAX_STRIDE_LEVEL];
      pos := 0;
      size := 1;
      new;
      var i := |stride|;
      while i > 0
        invariant 0 <= i <= |stride| && size == Product(count[1..][i..])
        invariant pos == 0 && fresh(itr)
      {
        assert count[1..][i - 1..] == [count[i]] + count[1..][i..];
        size := count[i] * size;
        i := i - 1;
      }
      assert count[1..][0..] == count[1..];
      while i < strideLevels + 1
        invariant 0 <= i <= strideLevels + 1 && forall j :: 0 <= j < i ==> itr[j] == 0
        invariant pos == 0 && fresh(itr) && size == Product(count[1..])
      {
        itr[i] := 0;
        i := i + 1;
      }
      ProductPositive(count[1..]);
      ZeroDigits(count[1..]);
      assert forall j :: 0 <= j < strideLevels ==> itr[..strideLevels][j] == Digits(count[1..], 0)[j];
    }

    /** Counter i rolls over, and the next one goes up. */
    method Carry(i: nat)
      requires i + 1 < strideLevels <= itr.Length
      modifies itr
      ensures itr[..strideLevels] == old(itr[..strideLevels])[i := 0][i + 1 := old(itr[i + 1]) + 1]
    {
      itr[i] := 0;
      itr[i + 1] := itr[i + 1] + 1;
    }

    /** armci_stride_info_next: the odometer goes one step. The assertion at its end always holds. */
    method Next()
      requires Valid() && pos < size
      modifies this`pos, itr
      ensures Valid() && pos == old(pos) + 1
    {
      ghost var c, p := segCount[1..], pos;
      pos := pos + 1;
      if strideLevels > 0 {
        itr[0] := itr[0] + 1;
        Ripple(p);
      } else {
        assert itr[..strideLevels] == [];
      }
    }

    /** The loop of armci_stride_info_next, after the first counter has gone up from position p. */
    method Ripple(ghost p: nat)
      requires 0 < strideLevels == |strideArr| && strideLevels < itr.Length && |segCount| == strideLevels + 1
      requires AllPositive(segCount[1..]) && p < Product(segCount[1..])
      requires itr[..strideLevels] == Bumped(Digits(segCount[1..], p))
      modifies itr
      ensures itr[..strideLevels] == Digits(segCount[1..], p + 1)
    {
      hide Ticking, Digits, Product, AllPositive, Bumped;
      ghost var c := segCount[1..];
      var i := 0;
      ghost var q, rest := p, c;
      assert c[0..] == c;
      TickStart(c, p, itr[..strideLevels]);
      while i < strideLevels - 1 && itr[i] == segCount[i + 1]
        invariant 0 <= i < strideLevels && rest == c[i..] && Product(rest) > q
        invariant Ticking(c, p, i, q, itr[..strideLevels])
        decreases strideLevels - i
      {
        TickCarry(c, p, i, q, itr[..strideLevels]);
        TickPositive(c, p, i, q, itr[..strideLevels]);
        CarryBound(rest, q);
        Carry(i);
        q, rest := q / c[i], rest[1..];
        i := i + 1;
      }
      TickDone(c, p, i, q, itr[..strideLevels]);
      assert itr[i] <= segCount[i + 1];
    }

    /** armci_stride_info_has_more */
    predicate HasMore()
      reads this
    {
      pos < size
    }

    /** armci_stride_info_seg_off: the offset of the current segment. */
    method SegOff() returns (off: int)
      requires Valid() && pos < size
      ensures |Offsets(strideArr, segCount)| == size && off == Offsets(strideArr, segCount)[pos]
    {
      off := 0;
      var i := 0;
      ghost var d := itr[..strideLevels];
      while i < strideLevels
        invariant 0 <= i <= strideLevels && off + Dot(d[i..], strideArr[i..]) == Dot(d, strideArr)
      {
        assert d[i..][1..] == d[i + 1..] && strideArr[i..][1..] == strideArr[i + 1..];
        off := off + itr[i] * strideArr[i];
        i := i + 1;
      }
      SectionAt(strideArr, segCount[1..]);
    }
  }

  lemma {:induction false} ZeroDigits(c: seq<nat>)
    requires AllPositive(c)
    ensures forall j :: 0 <= j < |c| ==> Digits(c, 0)[j] == 0
  {
    if |c| > 1 {
      ModUnique(0, c[0], 0, 0);
      ZeroDigits(c[1..]);
    }
  }

  /**
   * The counters in the middle of a step from position p: the first i have rolled over to zero, the next has been
   * increased, and the rest are unchanged. q is p without its first i digits.
   */
  ghost predicate Ticking(c: seq<nat>, p: nat, i: nat, q: nat, d: seq<nat>) {
    && AllPositive(c) && |d| == |c| && i < |c|
    && d[..i] == seq(i, _ => 0)
    && Digits(c, p + 1) == d[..i] + Digits(c[i..], q + 1)
    && d[i..] == Bumped(Digits(c[i..], q))
  }

  function Bumped(d: seq<nat>): seq<nat> {
    if d == [] then [] else d[0 := d[0] + 1]
  }

  lemma TickStart(c: seq<nat>, p: nat, d: seq<nat>)
    requires AllPositive(c) && |c| > 0 && d == Bumped(Digits(c, p))
    ensures Ticking(c, p, 0, p, d)
  {
    assert c[0..] == c && d[0..] == d;
  }

  lemma TickPositive(c: seq<nat>, p: nat, i: nat, q: nat, d: seq<nat>)
    requires Ticking(c, p, i, q, d)
    ensures 0 < c[i] && c[i..][0] == c[i] && c[i..][1..] == c[i + 1..]
  {
  }

  lemma TickCarry(c: seq<nat>, p: nat, i: nat, q: nat, d: seq<nat>)
    requires Ticking(c, p, i, q, d) && i + 1 < |c| && d[i] == c[i]
    ensures Ticking(c, p, i + 1, q / c[i], d[i := 0][i + 1 := d[i + 1] + 1])
  {
    hide Ticking, Digits, AllPositive, Bumped;
    TickParts(c, p, i, q, d);
    CarryDigits(c[i..], q, d[i]);
    assert c[i..][1..] == c[i + 1..] && c[i..][0] == c[i];
    CarryShape(d, Digits(c[i..], q), Digits(c[i + 1..], q / c[i]), i);
    var e := d[i := 0][i + 1 := d[i + 1] + 1];
    assert Digits(c, p + 1) == d[..i] + ([0] + Digits(c[i + 1..], q / c[i] + 1));
    assert e[..i + 1] == seq(i + 1, _ => 0);
    TickIs(c, p, i + 1, q / c[i], e);
  }

  lemma TickParts(c: seq<nat>, p: nat, i: nat, q: nat, d: seq<nat>)
    requires Ticking(c, p, i, q, d)
    ensures i < |c| == |d| && AllPositive(c) && AllPositive(c[i..]) && AllPositive(c[i + 1..])
    ensures d[..i] == seq(i, _ => 0) && Digits(c, p + 1) == d[..i] + Digits(c[i..], q + 1)
    ensures d[i..] == Bumped(Digits(c[i..], q)) && d[i] == Digits(c[i..], q)[0] + 1 && 0 < c[i]
  {
    hide Digits;
    assert d[i] == d[i..][0];
  }

  lemma TickIs(c: seq<nat>, p: nat, i: nat, q: nat, d: seq<nat>)
    requires i < |c| == |d| && AllPositive(c) && AllPositive(c[i..]) && d[..i] == seq(i, _ => 0)
    requires Digits(c, p + 1) == d[..i] + Digits(c[i..], q + 1) && d[i..] == Bumped(Digits(c[i..], q))
    ensures Ticking(c, p, i, q, d)
  {
    hide Digits;
  }

  lemma CarryDigits(c: seq<nat>, q: nat, top: nat)
    requires AllPositive(c) && 1 < |c| && AllPositive(c[1..]) && top == Digits(c, q)[0] + 1 == c[0]
    ensures Digits(c, q + 1) == [0] + Digits(c[1..], q / c[0] + 1)
    ensures Digits(c, q)[1..] == Digits(c[1..], q / c[0])
  {
    TailDigits(c, q);
    DigitsCarry(c, q);
    hide Digits;
  }

  lemma TailDigits(c: seq<nat>, q: nat)
    requires AllPositive(c) && 1 < |c|
    ensures Digits(c, q) == [q % c[0]] + Digits(c[1..], q / c[0])
  {
  }

  /** The counters before and after a carry at position i. */
  lemma CarryShape(d: seq<nat>, was: seq<nat>, tail: seq<nat>, i: nat)
    requires i + 1 < |d| && d[i..] == Bumped(was) && |was| == |d| - i && was[1..] == tail
    ensures var e := d[i := 0][i + 1 := d[i + 1] + 1];
      e[..i + 1] == d[..i] + [0] && e[i + 1..] == Bumped(tail)
  {
    var e := d[i := 0][i + 1 := d[i + 1] + 1];
    assert d[i..][1..] == tail && d[i + 1..] == tail;
    assert e[i + 1..] == tail[0 := d[i + 1] + 1];
  }

  lemma CarryBound(c: seq<nat>, q: nat)
    requires |c| > 1 && 0 < c[0] && q < Product(c)
    ensures q / c[0] < Product(c[1..])
  {
    ProductStart(c);
    var u, v := Split(q, c[0], Product(c[1..]));
  }

  lemma TickDone(c: seq<nat>, p: nat, i: nat, q: nat, d: seq<nat>)
    requires Ticking(c, p, i, q, d) && q < Product(c[i..])
    requires i + 1 < |c| ==> d[i] != c[i]
    ensures d == Digits(c, p + 1) && d[i] <= c[i]
  {
    var rest := c[i..];
    assert d == d[..i] + d[i..] && d[i] == d[i..][0];
    if |rest| > 1 {
      DigitsNoCarry(rest, q);
    } else {
      assert rest == [c[i]] && rest[1..] == [];
    }
  }

  // ---------- the segments do not overlap ----------

  lemma {:induction false} SteppedRoomy(s: seq<int>, c: seq<nat>, seg: nat)
    requires |s| == |c| && AllPositive(c) && (s != [] ==> seg <= s[0])
    requires forall i :: 1 <= i < |s| ==> s[i] >= s[i - 1] * c[i - 1]
    ensures Roomy(s, c, seg)
  {
    if s != [] {
      MulMonotone(1, c[0], s[0]);
      NextMultiple(c[0] - 1, s[0]);
      assert forall i :: 1 <= i < |s[1..]| ==> s[1..][i] == s[i + 1] && s[1..][i - 1] == s[i] && c[1..][i - 1] == c[i];
      SteppedRoomy(s[1..], c[1..], seg + (c[0] - 1) * s[0]);
    }
  }

  /**
   * Under the iterator's assertions the segments start in strictly increasing order (for segments that are not
   * empty) and do not overlap, and there are exactly as many as the counts above the first multiply to.
   */
  lemma OffsetsSpaced(stride: seq<int>, count: seq<nat>)
    requires Acceptable(stride, count)
    ensures |count| == |stride| + 1
    ensures |Offsets(stride, count)| == Product(count[1..]) > 0 && Offsets(stride, count)[0] == 0
    ensures Spaced(Offsets(stride, count), count[0])
  {
    var c := count[1..];
    ProductPositive(c);
    assert forall i :: 1 <= i < |stride| ==> count[i] == c[i - 1];
    SteppedRoomy(stride, c, count[0]);
    SectionSpaced(stride, c, count[0]);
    SectionAt(stride, c);
  }

  // ---------- copying ----------

  /** memcpy between two arrays */
  method CopyBytes(dst: array<Byte>, at: nat, src: array<Byte>, from: nat, n: nat)
    requires dst != src && at + n <= dst.Length && from + n <= src.Length
    modifies dst
    ensures dst[..] == Overwrite(old(dst[..]), at, src[from..from + n])
  {
    hide Overwrite;
    ghost var was := dst[..];
    var i := 0;
    OverwriteNone(was, at);
    assert src[from..from] == [];
    while i < n
      invariant 0 <= i <= n && dst[..] == Overwrite(was, at, src[from..from + i])
    {
      OverwriteMore(was, at, src[from..from + i], src[from + i]);
      dst[at + i] := src[from + i];
      assert src[from..from + i + 1] == src[from..from + i] + [src[from + i]];
      i := i + 1;
    }
  }

  /** One more segment has been packed. */
  lemma PackNext(m: seq<Byte>, base: int, l: seq<int>, seg: nat, p: nat)
    requires Inside(m, base, l, seg) && p < |l|
    ensures 0 <= base + l[p] && base + l[p] + seg <= |m| && Start(p, seg) + seg == Start(p + 1, seg) <= Start(|l|, seg)
    ensures Pack(m, base, l[..p + 1], seg) == Pack(m, base, l[..p], seg) + m[base + l[p]..base + l[p] + seg]
  {
    hide Start;
    assert l[..p + 1][..p] == l[..p];
    StartMonotone(p + 1, |l|, seg);
    StartNext(p, seg);
  }

  lemma OverwriteFront(buf: seq<Byte>, off: nat, data: seq<Byte>)
    requires off + |data| <= |buf|
    ensures Overwrite(buf, off, data)[..off + |data|] == buf[..off] + data
    ensures Overwrite(buf, off, data)[off + |data|..] == buf[off + |data|..]
  {
  }

  /** armci_write_strided: packs the segments into buf. */
  method WriteStrided(mem: array<Byte>, base: nat, stride: seq<int>, count: seq<nat>, buf: array<Byte>)
    requires Acceptable(stride, count) && 0 < count[0] && mem != buf
    requires Inside(mem[..], base, Offsets(stride, count), count[0])
    requires Start(|Offsets(stride, count)|, count[0]) <= buf.Length
    modifies buf
    ensures var n := Start(|Offsets(stride, count)|, count[0]);
      buf[..n] == Pack(mem[..], base, Offsets(stride, count), count[0]) && buf[n..] == old(buf[n..])
  {
    hide Inside, Pack, Offsets, Acceptable, StrideInfo.Valid, Product, Overwrite, Start;
    OffsetsSpaced(stride, count);
    ghost var l, seg, was := Offsets(stride, count), count[0], buf[..];
    var off := 0;
    var sitr := new StrideInfo(stride, count);
    PackNone(mem[..], base, l, seg);
    StartNone(seg);
    StartMonotone(0, |l|, seg);
    while sitr.HasMore()
      invariant sitr.Valid() && fresh(sitr) && fresh(sitr.itr) && sitr.strideArr == stride && sitr.segCount == count
      invariant sitr.pos <= |l| == sitr.size && off == Start(sitr.pos, seg) <= Start(|l|, seg)
      invariant buf[..off] == Pack(mem[..], base, l[..sitr.pos], seg) && buf[off..] == was[off..]
      decreases sitr.size - sitr.pos
    {
      PackNext(mem[..], base, l, seg, sitr.pos);
      off := CopySegmentOut(sitr, mem, base, buf, off);
    }
    assert l[..|l|] == l;
  }

  /** The body of armci_write_strided's loop. */
  method CopySegmentOut(sitr: StrideInfo, mem: array<Byte>, base: nat, buf: array<Byte>, off: nat) returns (off': nat)
    requires sitr.Valid() && sitr.pos < sitr.size && mem != buf
    requires |sitr.segCount| == |sitr.strideArr| + 1 && sitr.pos < |Offsets(sitr.strideArr, sitr.segCount)|
    requires var o := base + Offsets(sitr.strideArr, sitr.segCount)[sitr.pos];
      0 <= o && o + sitr.segCount[0] <= mem.Length && off + sitr.segCount[0] <= buf.Length
    modifies sitr`pos, sitr.itr, buf
    ensures sitr.Valid() && sitr.pos == old(sitr.pos) + 1 && off' == off + sitr.segCount[0]
    ensures var o := base + Offsets(sitr.strideArr, sitr.segCount)[old(sitr.pos)];
      buf[..off'] == old(buf[..off]) + mem[o..o + sitr.segCount[0]]
    ensures buf[off'..] == old(buf[off'..])
  {
    hide Offsets, Product, Overwrite, Digits, AllPositive;
    var o := sitr.SegOff();
    CopyBytes(buf, off, mem, base + o, sitr.segCount[0]);
    OverwriteFront(old(buf[..]), off, mem[base + o..base + o + sitr.segCount[0]]);
    off' := off + sitr.segCount[0];
    sitr.Next();
  }

  lemma PackNone(m: seq<Byte>, base: int, l: seq<int>, seg: nat)
    ensures Pack(m, base, l[..0], seg) == []
  {
  }

  lemma UnpackNext(m: seq<Byte>, base: int, l: seq<int>, seg: nat, data: seq<Byte>, p: nat)
    requires Inside(m, base, l, seg) && p < |l| && Start(|l|, seg) <= |data|
    ensures Inside(m, base, l[..p], seg) && Start(p, seg) <= |data|
    ensures 0 <= base + l[p] && base + l[p] + seg <= |m|
    ensures Start(p, seg) + seg == Start(p + 1, seg) <= Start(|l|, seg)
    ensures Inside(m, base, l[..p + 1], seg) && Start(p + 1, seg) <= |data|
    ensures Unpack(m, base, l[..p + 1], seg, data)
         == Overwrite(Unpack(m, base, l[..p], seg, data), base + l[p], data[Start(p, seg)..Start(p, seg) + seg])
  {
    hide Start;
    StartMonotone(p + 1, |l|, seg);
    StartNext(p, seg);
    assert l[..p + 1][..p] == l[..p];
  }

  lemma UnpackNone(m: seq<Byte>, base: int, l: seq<int>, seg: nat, data: seq<Byte>)
    ensures Inside(m, base, l[..0], seg) && Unpack(m, base, l[..0], seg, data) == m
  {
  }

  /** armci_read_strided: unpacks buf into the segments. */
  method ReadStrided(mem: array<Byte>, base: nat, stride: seq<int>, count: seq<nat>, buf: array<Byte>)
    requires Acceptable(stride, count) && 0 < count[0] && mem != buf
    requires Inside(mem[..], base, Offsets(stride, count), count[0])
    requires Start(|Offsets(stride, count)|, count[0]) <= buf.Length
    modifies mem
    ensures mem[..] == Unpack(old(mem[..]), base, Offsets(stride, count), count[0], buf[..])
  {
    hide Inside, Unpack, Offsets, Acceptable, StrideInfo.Valid, Product, Overwrite, Start;
    OffsetsSpaced(stride, count);
    ghost var l, seg, m := Offsets(stride, count), count[0], mem[..];
    var off := 0;
    var sitr := new StrideInfo(stride, count);
    UnpackNone(m, base, l, seg, buf[..]);
    StartNone(seg);
    StartMonotone(0, |l|, seg);
    while sitr.HasMore()
      invariant sitr.Valid() && fresh(sitr) && fresh(sitr.itr) && sitr.strideArr == stride && sitr.segCount == count
      invariant sitr.pos <= |l| == sitr.size && off == Start(sitr.pos, seg) <= Start(|l|, seg)
      invariant Inside(m, base, l[..sitr.pos], seg) && mem[..] == Unpack(m, base, l[..sitr.pos], seg, buf[..])
      decreases sitr.size - sitr.pos
    {
      UnpackNext(m, base, l, seg, buf[..], sitr.pos);
      off := CopySegmentIn(sitr, mem, base, buf, off);
    }
    assert l[..|l|] == l;
  }

  /** The body of armci_read_strided's loop. */
  method CopySegmentIn(sitr: StrideInfo, mem: array<Byte>, base: nat, buf: array<Byte>, off: nat) returns (off': nat)
    requires sitr.Valid() && sitr.pos < sitr.size && mem != buf
    requires |sitr.segCount| == |sitr.strideArr| + 1 && sitr.pos < |Offsets(sitr.strideArr, sitr.segCount)|
    requires var o := base + Offsets(sitr.strideArr, sitr.segCount)[sitr.pos];
      0 <= o && o + sitr.segCount[0] <= mem.Length && off + sitr.segCount[0] <= buf.Length
    modifies sitr`pos, sitr.itr, mem
    ensures sitr.Valid() && sitr.pos == old(sitr.pos) + 1 && off' == off + sitr.segCount[0]
    ensures var o := base + Offsets(sitr.strideArr, sitr.segCount)[old(sitr.pos)];
      mem[..] == Overwrite(old(mem[..]), o, buf[off..off'])
  {
    hide Offsets, Product, Overwrite, Digits, AllPositive;
    var o := sitr.SegOff();
    CopyBytes(mem, base + o, buf, off, sitr.segCount[0]);
    off' := off + sitr.segCount[0];
    sitr.Next();
  }
}
