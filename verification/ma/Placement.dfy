/**
 * Where a block's client space goes: balloc_after, balloc_before and ma_nelem.
 *
 * A block starts with its descriptor; the client space lies between two guard words, and there may be a gap before
 * the first guard and after the second. Addresses are byte numbers. A placement may be computed below address zero, in
 * which case the caller rejects it, so client space addresses are integers.
 */
module Placement {
  import opened Arithmetic

  type pos = x: nat | 0 < x witness 1

  /** sizeof(AD) and sizeof(Guard): any positive sizes. */
  const AD_BYTES: pos
  const GUARD_BYTES: pos

  /** sizeof(size_t) on a 64-bit machine. */
  const ALIGNMENT: nat := 8

  const BLOCK_OVERHEAD_FIXED: nat := AD_BYTES + 2 * GUARD_BYTES

  /** Smallest remainder that block_split turns into a block of its own. */
  const MINBLOCKSIZE: pos := RoundUp(ALIGNMENT + BLOCK_OVERHEAD_FIXED, ALIGNMENT)

  /** Element sizes and base addresses by internal datatype, and the requested alignment exponent. */
  datatype Layout = Layout(size: seq<nat>, base: seq<int>, numalign: nat) {
    ghost predicate Valid() {
      && |size| == |base|
      && (forall d :: 0 <= d < |size| ==> 0 < size[d] <= TWO64 && IsPow2(size[d]))
    }

    predicate Has(d: nat) {
      d < |size| && d < |base| && 0 < size[d]
    }
  }

  predicate Aligned(x: int) {
    x % ALIGNMENT == 0
  }

  /** A remainder is worth a block if it has room for descriptor, guards and ALIGNMENT bytes of data. */
  lemma WorthABlock(rest: int)
    requires Aligned(rest)
    ensures rest >= MINBLOCKSIZE <==> rest >= AD_BYTES + 2 * GUARD_BYTES + ALIGNMENT
  {
    if rest >= AD_BYTES + 2 * GUARD_BYTES + ALIGNMENT {
      RoundUpLeast(ALIGNMENT + BLOCK_OVERHEAD_FIXED, ALIGNMENT, rest);
    }
  }

  lemma WorthIfAligned(rest: int)
    ensures Aligned(rest) ==> (rest >= MINBLOCKSIZE <==> rest >= AD_BYTES + 2 * GUARD_BYTES + ALIGNMENT)
  {
    if Aligned(rest) {
      WorthABlock(rest);
    }
  }

  // ---------- balloc_after ----------

  function Gap1After(lay: Layout, d: nat, addr: int): nat
    requires lay.Has(d)
  {
    Wrap(lay.base[d] - addr - AD_BYTES - GUARD_BYTES) % lay.size[d]
  }

  /** Moves an already type-aligned client space up to the 2^numalign boundary, when that keeps it type-aligned. */
  function ShiftUp(lay: Layout, d: nat, client: int): int
    requires lay.Has(d)
  {
    if lay.numalign > 0 then
      var unit := Pow2(lay.numalign);
      var diff := client % unit;
      if diff != 0 && (unit - diff) % lay.size[d] == 0 then client + (unit - diff) else client
    else
      client
  }

  function ClientAfter(lay: Layout, d: nat, addr: int): int
    requires lay.Has(d)
  {
    ShiftUp(lay, d, addr + AD_BYTES + Gap1After(lay, d, addr) + GUARD_BYTES)
  }

  function BytesAfter(lay: Layout, d: nat, n: nat, addr: int): int
    requires lay.Has(d)
  {
    var client := ClientAfter(lay, d, addr);
    var length := n * lay.size[d];
    var gap2 := Wrap(addr - client - length - GUARD_BYTES) % ALIGNMENT;
    client + length + GUARD_BYTES + gap2 - addr
  }

  // ---------- balloc_before ----------

  function Gap2Before(lay: Layout, d: nat, n: nat, addr: int): nat
    requires lay.Has(d)
  {
    Wrap(addr - GUARD_BYTES - n * lay.size[d] - lay.base[d]) % lay.size[d]
  }

  function ShiftDown(lay: Layout, d: nat, client: int): int
    requires lay.Has(d)
  {
    if lay.numalign > 0 then
      var diff := client % Pow2(lay.numalign);
      if diff != 0 && diff % lay.size[d] == 0 then client - diff else client
    else
      client
  }

  function ClientBefore(lay: Layout, d: nat, n: nat, addr: int): int
    requires lay.Has(d)
  {
    ShiftDown(lay, d, addr - Gap2Before(lay, d, n, addr) - GUARD_BYTES - n * lay.size[d])
  }

  function BytesBefore(lay: Layout, d: nat, n: nat, addr: int): int
    requires lay.Has(d)
  {
    var client := ClientBefore(lay, d, n, addr);
    var gap1 := Wrap(client - GUARD_BYTES - AD_BYTES) % ALIGNMENT;
    addr - client + GUARD_BYTES + gap1 + AD_BYTES
  }

  // ---------- which client addresses a datatype admits ----------

  /** Can the 2^numalign request be met for this datatype? */
  predicate Realignable(lay: Layout, d: nat)
    requires lay.Has(d)
  {
    lay.numalign > 0 && Pow2(lay.numalign) % lay.size[d] == 0 && lay.base[d] % lay.size[d] == 0
  }

  /** The distance between admissible client addresses. */
  function Pitch(lay: Layout, d: nat): (r: nat)
    requires lay.Has(d)
    ensures r > 0
  {
    if Realignable(lay, d) then Pow2(lay.numalign) else lay.size[d]
  }

  predicate Admissible(lay: Layout, d: nat, client: int)
    requires lay.Has(d)
  {
    if Realignable(lay, d) then client % Pow2(lay.numalign) == 0
    else client % lay.size[d] == lay.base[d] % lay.size[d]
  }

  lemma AdmissibleGap(lay: Layout, d: nat, c: int, c': int)
    requires lay.Has(d) && Admissible(lay, d, c) && Admissible(lay, d, c') && c < c'
    ensures c + Pitch(lay, d) <= c'
  {
    ModGap(c, c', Pitch(lay, d));
  }

  /** Both shifts happen exactly for realignable datatypes. */
  lemma ShiftCondition(lay: Layout, d: nat, client: int)
    requires lay.Valid() && lay.Has(d) && lay.numalign > 0
    requires client % lay.size[d] == lay.base[d] % lay.size[d]
    requires client % Pow2(lay.numalign) != 0
    ensures var unit := Pow2(lay.numalign); var diff := client % unit;
      && ((unit - diff) % lay.size[d] == 0 <==> Realignable(lay, d))
      && (diff % lay.size[d] == 0 <==> Realignable(lay, d))
  {
    var s, unit := lay.size[d], Pow2(lay.numalign);
    var diff := client % unit;
    if s <= unit {
      var f := Pow2Comparable(s, unit);
      ModMod(client, unit, s, f);
      ModShift(-diff, f, s);
      ModEqual(0, diff, s);
    } else {
      ModUnique(diff, s, 0, diff);
      ModUnique(unit - diff, s, 0, unit - diff);
      ModUnique(unit, s, 0, unit);
    }
  }

  /** What the two shifts do to a type-aligned address. */
  lemma ShiftWhenRealignable(lay: Layout, d: nat, c0: int)
    requires lay.Valid() && lay.Has(d)
    requires c0 % lay.size[d] == lay.base[d] % lay.size[d]
    ensures Realignable(lay, d) ==> var unit := Pow2(lay.numalign);
      && ShiftUp(lay, d, c0) == (if c0 % unit == 0 then c0 else c0 + unit - c0 % unit)
      && ShiftDown(lay, d, c0) == c0 - c0 % unit
    ensures !Realignable(lay, d) ==> ShiftUp(lay, d, c0) == c0 == ShiftDown(lay, d, c0)
  {
    if lay.numalign > 0 && c0 % Pow2(lay.numalign) != 0 {
      ShiftCondition(lay, d, c0);
    }
  }

  /** A realignable datatype's size divides the requested unit. */
  lemma RealignableFactor(lay: Layout, d: nat) returns (f: nat)
    requires lay.Valid() && lay.Has(d) && Realignable(lay, d)
    ensures Pow2(lay.numalign) == f * lay.size[d]
  {
    f := Pow2(lay.numalign) / lay.size[d];
  }

  /** Shifting the first type-aligned address at or above x gives the first admissible one. */
  lemma ShiftUpPlaced(lay: Layout, d: nat, x: int, c0: int)
    requires lay.Valid() && lay.Has(d)
    requires c0 % lay.size[d] == lay.base[d] % lay.size[d] && x <= c0 < x + lay.size[d]
    ensures Admissible(lay, d, ShiftUp(lay, d, c0))
    ensures x <= ShiftUp(lay, d, c0) < x + Pitch(lay, d)
  {
    ShiftWhenRealignable(lay, d, c0);
    if Realignable(lay, d) {
      var f := RealignableFactor(lay, d);
      CoarserUp(x, c0, ShiftUp(lay, d, c0), lay.size[d], Pow2(lay.numalign), f);
    }
  }

  lemma ShiftDownPlaced(lay: Layout, d: nat, x: int, c0: int)
    requires lay.Valid() && lay.Has(d)
    requires c0 % lay.size[d] == lay.base[d] % lay.size[d] && x - lay.size[d] < c0 <= x
    ensures Admissible(lay, d, ShiftDown(lay, d, c0))
    ensures x - Pitch(lay, d) < ShiftDown(lay, d, c0) <= x
  {
    ShiftWhenRealignable(lay, d, c0);
    if Realignable(lay, d) {
      var f := RealignableFactor(lay, d);
      CoarserDown(x, c0, ShiftDown(lay, d, c0), lay.size[d], Pow2(lay.numalign), f);
    }
  }

  /** Forward placement takes the lowest admissible address that leaves room for the AD and a guard. */
  lemma ClientAfterPlaced(lay: Layout, d: nat, addr: int)
    requires lay.Valid() && lay.Has(d)
    ensures Admissible(lay, d, ClientAfter(lay, d, addr))
    ensures addr + AD_BYTES + GUARD_BYTES <= ClientAfter(lay, d, addr) < addr + AD_BYTES + GUARD_BYTES + Pitch(lay, d)
  {
    var x := addr + AD_BYTES + GUARD_BYTES;
    WrapMod(lay.base[d] - x, lay.size[d]);
    StepUp(x, lay.base[d], lay.size[d]);
    ShiftUpPlaced(lay, d, x, x + Gap1After(lay, d, addr));
  }

  /** Backward placement takes the highest admissible address that leaves room for the data and a guard. */
  lemma ClientBeforePlaced(lay: Layout, d: nat, n: nat, addr: int)
    requires lay.Valid() && lay.Has(d)
    ensures Admissible(lay, d, ClientBefore(lay, d, n, addr))
    ensures var x := addr - GUARD_BYTES - n * lay.size[d]; x - Pitch(lay, d) < ClientBefore(lay, d, n, addr) <= x
  {
    var x := addr - GUARD_BYTES - n * lay.size[d];
    WrapMod(x - lay.base[d], lay.size[d]);
    StepDown(x, lay.base[d], lay.size[d]);
    ShiftDownPlaced(lay, d, x, x - Gap2Before(lay, d, n, addr));
  }

  // ---------- block lengths ----------

  /** The forward block ends at the first multiple of ALIGNMENT (counted from addr) past guard2. */
  lemma BytesAfterRounds(lay: Layout, d: nat, n: nat, addr: int)
    requires lay.Has(d)
    ensures var b, c := BytesAfter(lay, d, n, addr), ClientAfter(lay, d, addr);
      Aligned(b) && c + n * lay.size[d] + GUARD_BYTES <= addr + b < c + n * lay.size[d] + GUARD_BYTES + ALIGNMENT
  {
  }

  /** The backward block starts at the last aligned address that leaves room for guard1 and the AD. */
  lemma BytesBeforeRounds(lay: Layout, d: nat, n: nat, addr: int)
    requires lay.Has(d)
    ensures var b, c := BytesBefore(lay, d, n, addr), ClientBefore(lay, d, n, addr);
      Aligned(addr - b) && addr - b <= c - GUARD_BYTES - AD_BYTES < addr - b + ALIGNMENT
  {
  }

  /** Is there any admissible client address at which a block of n elements fits inside [lo, hi)? */
  ghost predicate Fits(lay: Layout, d: nat, n: nat, lo: int, hi: int)
    requires lay.Has(d)
  {
    exists c :: Admissible(lay, d, c)
      && lo + AD_BYTES + GUARD_BYTES <= c && c + n * lay.size[d] + GUARD_BYTES <= hi
  }

  lemma LeastFits(lay: Layout, d: nat, n: nat, lo: int, hi: int, c: int)
    requires lay.Valid() && lay.Has(d) && c == ClientAfter(lay, d, lo)
    ensures c + n * lay.size[d] + GUARD_BYTES <= hi <==> Fits(lay, d, n, lo, hi)
  {
    ClientAfterPlaced(lay, d, lo);
    if Fits(lay, d, n, lo, hi) {
      var c' :| Admissible(lay, d, c')
        && lo + AD_BYTES + GUARD_BYTES <= c' && c' + n * lay.size[d] + GUARD_BYTES <= hi;
      if c' < c { AdmissibleGap(lay, d, c', c); }
    }
  }

  lemma GreatestFits(lay: Layout, d: nat, n: nat, lo: int, hi: int, c: int)
    requires lay.Valid() && lay.Has(d) && c == ClientBefore(lay, d, n, hi)
    ensures lo <= c - GUARD_BYTES - AD_BYTES <==> Fits(lay, d, n, lo, hi)
  {
    ClientBeforePlaced(lay, d, n, hi);
    if Fits(lay, d, n, lo, hi) {
      var c' :| Admissible(lay, d, c')
        && lo + AD_BYTES + GUARD_BYTES <= c' && c' + n * lay.size[d] + GUARD_BYTES <= hi;
      if c < c' { AdmissibleGap(lay, d, c, c'); }
    }
  }

  lemma AlignedRoom(b: int, e: int, lo: int, hi: int)
    requires Aligned(b) && Aligned(lo) && Aligned(hi) && e <= lo + b < e + ALIGNMENT
    ensures b <= hi - lo <==> e <= hi
  {
  }

  /** The forward block fits exactly when guard2 does. */
  lemma AfterRoom(lay: Layout, d: nat, n: nat, lo: int, hi: int)
    requires lay.Valid() && lay.Has(d) && Aligned(lo) && Aligned(hi)
    ensures BytesAfter(lay, d, n, lo) <= hi - lo <==> ClientAfter(lay, d, lo) + n * lay.size[d] + GUARD_BYTES <= hi
  {
    hide BytesAfter, ClientAfter, Aligned, IsPow2;
    BytesAfterRounds(lay, d, n, lo);
    AlignedRoom(BytesAfter(lay, d, n, lo), ClientAfter(lay, d, lo) + n * lay.size[d] + GUARD_BYTES, lo, hi);
  }

  /** The backward block fits exactly when its AD does. */
  lemma BeforeRoom(lay: Layout, d: nat, n: nat, lo: int, hi: int)
    requires lay.Valid() && lay.Has(d) && Aligned(lo) && Aligned(hi)
    ensures BytesBefore(lay, d, n, hi) <= hi - lo <==> lo <= ClientBefore(lay, d, n, hi) - GUARD_BYTES - AD_BYTES
  {
    hide BytesBefore, ClientBefore, Aligned, IsPow2;
    BytesBeforeRounds(lay, d, n, hi);
    AlignedRoomBelow(BytesBefore(lay, d, n, hi), ClientBefore(lay, d, n, hi) - GUARD_BYTES - AD_BYTES, lo, hi);
  }

  lemma AlignedRoomBelow(b: int, e: int, lo: int, hi: int)
    requires Aligned(hi - b) && Aligned(lo) && hi - b <= e < hi - b + ALIGNMENT
    ensures b <= hi - lo <==> lo <= e
  {
  }

  lemma FitsAfter(lay: Layout, d: nat, n: nat, lo: int, hi: int)
    requires lay.Valid() && lay.Has(d) && Aligned(lo) && Aligned(hi)
    ensures BytesAfter(lay, d, n, lo) <= hi - lo <==> Fits(lay, d, n, lo, hi)
  {
    hide BytesAfter, ClientAfter, Aligned, IsPow2, Fits, Admissible;
    ClientAfterPlaced(lay, d, lo);
    AfterRoom(lay, d, n, lo, hi);
    LeastFits(lay, d, n, lo, hi, ClientAfter(lay, d, lo));
  }

  lemma FitsBefore(lay: Layout, d: nat, n: nat, lo: int, hi: int)
    requires lay.Valid() && lay.Has(d) && Aligned(lo) && Aligned(hi)
    ensures BytesBefore(lay, d, n, hi) <= hi - lo <==> Fits(lay, d, n, lo, hi)
  {
    hide BytesBefore, ClientBefore, Aligned, IsPow2, Fits, Admissible;
    ClientBeforePlaced(lay, d, n, hi);
    BeforeRoom(lay, d, n, lo, hi);
    GreatestFits(lay, d, n, lo, hi, ClientBefore(lay, d, n, hi));
  }

  /** Forward and backward placement agree on what fits between two aligned addresses. */
  lemma PlacementsAgree(lay: Layout, d: nat, n: nat, lo: int, hi: int)
    requires lay.Valid() && lay.Has(d) && Aligned(lo) && Aligned(hi)
    ensures BytesAfter(lay, d, n, lo) <= hi - lo <==> BytesBefore(lay, d, n, hi) <= hi - lo
  {
    FitsAfter(lay, d, n, lo, hi);
    FitsBefore(lay, d, n, lo, hi);
  }

  /** Client space is aligned for its datatype, in both directions. */
  lemma ClientTypeAligned(lay: Layout, d: nat, c: int)
    requires lay.Valid() && lay.Has(d) && Admissible(lay, d, c)
    ensures (c - lay.base[d]) % lay.size[d] == 0
  {
    var s := lay.size[d];
    if Realignable(lay, d) {
      var f := RealignableFactor(lay, d);
      ModMod(c, Pow2(lay.numalign), s, f);
    }
    ModEqual(c, lay.base[d], s);
  }

  /**
   * A numalign request is honoured in both directions whenever the datatype's base and size allow it, and costs less
   * than a unit of 2^numalign; otherwise it is ignored, and the gap is shorter than an element.
   */
  lemma RequestHonoured(lay: Layout, d: nat, n: nat, addr: int)
    requires lay.Valid() && lay.Has(d)
    ensures var unit, s, x := Pow2(lay.numalign), lay.size[d], addr + AD_BYTES + GUARD_BYTES;
      var c := ClientAfter(lay, d, addr);
      && (c - lay.base[d]) % s == 0
      && (if lay.numalign > 0 && unit % s == 0 && lay.base[d] % s == 0 then c % unit == 0 && x <= c < x + unit
          else x <= c < x + s)
    ensures var unit, s, x := Pow2(lay.numalign), lay.size[d], addr - GUARD_BYTES - n * lay.size[d];
      var c := ClientBefore(lay, d, n, addr);
      && (c - lay.base[d]) % s == 0
      && (if lay.numalign > 0 && unit % s == 0 && lay.base[d] % s == 0 then c % unit == 0 && x - unit < c <= x
          else x - s < c <= x)
  {
    ClientAfterPlaced(lay, d, addr);
    ClientBeforePlaced(lay, d, n, addr);
    ClientTypeAligned(lay, d, ClientAfter(lay, d, addr));
    ClientTypeAligned(lay, d, ClientBefore(lay, d, n, addr));
    hide ClientAfter, ClientBefore, Pow2, IsPow2;
  }

  /** Rounding up to the alignment is monotone. */
  lemma RoundedMonotone(a: int, b: int, x: int, y: int)
    requires Aligned(a) && Aligned(b) && x <= a < x + ALIGNMENT && y <= b < y + ALIGNMENT && x <= y
    ensures a <= b
  {
  }

  /** More elements never need a shorter block. */
  lemma BytesAfterMonotone(lay: Layout, d: nat, m: nat, n: nat, addr: int)
    requires lay.Has(d) && m <= n
    ensures BytesAfter(lay, d, m, addr) <= BytesAfter(lay, d, n, addr)
  {
    hide BytesAfter, ClientAfter;
    MulMonotone(m, n, lay.size[d]);
    BytesAfterRounds(lay, d, m, addr);
    BytesAfterRounds(lay, d, n, addr);
    RoundedMonotone(BytesAfter(lay, d, m, addr), BytesAfter(lay, d, n, addr),
                    ClientAfter(lay, d, addr) - addr + m * lay.size[d] + GUARD_BYTES,
                    ClientAfter(lay, d, addr) - addr + n * lay.size[d] + GUARD_BYTES);
  }

  lemma BytesBeforePositive(lay: Layout, d: nat, n: nat, addr: int)
    requires lay.Valid() && lay.Has(d)
    ensures n * lay.size[d] + BLOCK_OVERHEAD_FIXED <= BytesBefore(lay, d, n, addr)
  {
    ClientBeforePlaced(lay, d, n, addr);
    BytesBeforeRounds(lay, d, n, addr);
  }

  /** Every forward block holds the AD, both guards and the data. */
  lemma BytesAfterLower(lay: Layout, d: nat, n: nat, addr: int)
    requires lay.Valid() && lay.Has(d)
    ensures n * lay.size[d] + BLOCK_OVERHEAD_FIXED <= BytesAfter(lay, d, n, addr)
  {
    ClientAfterPlaced(lay, d, addr);
    BytesAfterRounds(lay, d, n, addr);
  }

  /** Worst-case overhead of a block of datatype d. */
  function MaxBlockOverhead(lay: Layout, d: nat): nat
    requires lay.Has(d)
  {
    BLOCK_OVERHEAD_FIXED + (lay.size[d] - 1) + (ALIGNMENT - 1)
  }

  /** With no extra alignment requested, max_block_overhead really is the worst case in both directions. */
  lemma OverheadBound(lay: Layout, d: nat, n: nat, addr: int)
    requires lay.Valid() && lay.Has(d) && lay.numalign == 0
    ensures BytesAfter(lay, d, n, addr) <= n * lay.size[d] + MaxBlockOverhead(lay, d)
    ensures Aligned(addr) ==> BytesBefore(lay, d, n, addr) <= n * lay.size[d] + MaxBlockOverhead(lay, d)
  {
    ClientAfterPlaced(lay, d, addr);
    BytesAfterRounds(lay, d, n, addr);
    ClientBeforePlaced(lay, d, n, addr);
    BytesBeforeRounds(lay, d, n, addr);
  }

  // ---------- ma_nelem ----------

  /** n is the most elements of datatype d that fit in length bytes at addr, or 0 if not even one fits. */
  ghost predicate MostElements(lay: Layout, d: nat, addr: int, length: nat, n: nat)
    requires lay.Has(d)
  {
    forall k: nat :: 1 <= k ==> (k <= n <==> BytesAfter(lay, d, k, addr) <= length)
  }

  /** Steps down from the overhead-free estimate until a trial allocation fits. */
  method MaNelem(lay: Layout, d: nat, addr: int, length: nat) returns (n: nat)
    requires lay.Valid() && lay.Has(d)
    ensures MostElements(lay, d, addr, length, n)
  {
    if length <= BLOCK_OVERHEAD_FIXED {
      forall k: nat | 1 <= k
        ensures length < BytesAfter(lay, d, k, addr)
      {
        BytesAfterLower(lay, d, k, addr);
        MulBound(k * lay.size[d], 1);
        MulMonotone(1, k, lay.size[d]);
      }
      return 0;
    }
    n := (length - BLOCK_OVERHEAD_FIXED) / lay.size[d];
    forall k: nat | n < k
      ensures length < BytesAfter(lay, d, k, addr)
    {
      BytesAfterLower(lay, d, k, addr);
      MulMonotone(n + 1, k, lay.size[d]);
      assert (n + 1) * lay.size[d] > length - BLOCK_OVERHEAD_FIXED;
    }
    while n > 0
      invariant forall k: nat :: n < k ==> length < BytesAfter(lay, d, k, addr)
    {
      if BytesAfter(lay, d, n, addr) > length {
        n := n - 1;
      } else {
        break;
      }
    }
    forall k: nat | 1 <= k <= n
      ensures BytesAfter(lay, d, k, addr) <= length
    {
      BytesAfterMonotone(lay, d, k, n, addr);
    }
  }
}
