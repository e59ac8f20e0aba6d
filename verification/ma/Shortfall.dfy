/** A run after which the heap inquiry reports less than there is: the heap has overgrown the partition. */
module Shortfall {
  import opened Options
  import opened Arithmetic
  import opened Placement
  import opened Arena
  import opened Invariant
  import opened Inquiry

  /** One datatype, of one byte. */
  function Bytewise(): Layout {
    Layout([1], [0], 0)
  }

  lemma BytewiseValid()
    ensures Bytewise().Valid() && Bytewise().Has(0)
  {
    assert Pow2(0) == 1;
  }

  /** Length of a block of n bytes of data. */
  function Length(n: nat): nat {
    RoundUp(n + BLOCK_OVERHEAD_FIXED, ALIGNMENT)
  }

  lemma Rounding(x: nat, r: nat)
    requires Aligned(r) && x <= r < x + ALIGNMENT
    ensures RoundUp(x, ALIGNMENT) == r
  {
  }

  lemma BytewiseLength(n: nat, addr: nat)
    ensures Bytewise().Valid() && Bytewise().Has(0) && BytesAfter(Bytewise(), 0, n, addr) == Length(n)
  {
    BytewiseValid();
    ClientAfterPlaced(Bytewise(), 0, addr);
    BytesAfterRounds(Bytewise(), 0, n, addr);
    hide BytesAfter, ClientAfter, Aligned;
    Rounding(n + BLOCK_OVERHEAD_FIXED, BytesAfter(Bytewise(), 0, n, addr));
  }

  /** The new block when the free list is empty. */
  function TopBlock(s: State, n: nat): Block {
    Block(s.hp, Length(n), 0, n, ClientAfter(Bytewise(), 0, s.hp))
  }

  function Grown(s: State, n: nat): State {
    s.(used := [TopBlock(s, n)] + s.used, hp := s.hp + Length(n))
  }

  lemma GrowStep(s: State, n: nat)
    requires s.free == [] && s.hp + Length(n) <= s.sp && forall b :: b in s.used ==> b.dtype == 0
    ensures Bytewise().Valid() && Bytewise().Has(0)
    ensures (forall b :: b in s.used ==> Bytewise().Has(b.dtype)) && Step(Bytewise(), s, Allocate(0, n)) == Grown(s, n)
    ensures forall b :: b in Grown(s, n).used ==> b.dtype == 0
  {
    BytewiseLength(n, s.hp);
    hide BytesAfter, ClientAfter, Length;
  }

  function HeapShare(): nat {
    RegionBytes(Bytewise(), 0, 0)
  }

  function StackShare(): nat {
    RegionBytes(Bytewise(), 0, 3 * BLOCK_OVERHEAD_FIXED + 64)
  }

  lemma ShareIs(k: nat)
    ensures RegionBytes(Bytewise(), 0, k) == RoundUp(k + BLOCK_OVERHEAD_FIXED + 7, ALIGNMENT)
  {
    hide RoundUp;
  }

  lemma RoundUpAligned(x: nat)
    ensures Aligned(RoundUp(x, ALIGNMENT))
  {
    RoundUpLeast(x, ALIGNMENT, 8 * x);
  }

  lemma Shares()
    ensures Aligned(HeapShare()) && Aligned(StackShare())
    ensures HeapShare() <= Length(8) && Aligned(Length(8)) && Aligned(Length(1))
    ensures Length(8) + Length(1) + BLOCK_OVERHEAD_FIXED <= HeapShare() + StackShare()
  {
    hide RoundUp, Aligned, RegionBytes;
    ShareIs(0);
    ShareIs(3 * BLOCK_OVERHEAD_FIXED + 64);
    RoundUpAligned(BLOCK_OVERHEAD_FIXED + 7);
    RoundUpAligned(3 * BLOCK_OVERHEAD_FIXED + 64 + BLOCK_OVERHEAD_FIXED + 7);
    RoundUpAligned(8 + BLOCK_OVERHEAD_FIXED);
    RoundUpAligned(1 + BLOCK_OVERHEAD_FIXED);
    HeapShareLeast();
  }

  lemma HeapShareLeast()
    ensures RoundUp(BLOCK_OVERHEAD_FIXED + 7, ALIGNMENT) <= RoundUp(8 + BLOCK_OVERHEAD_FIXED, ALIGNMENT)
  {
    hide RoundUp;
    RoundUpAligned(8 + BLOCK_OVERHEAD_FIXED);
    RoundUpLeast(BLOCK_OVERHEAD_FIXED + 7, ALIGNMENT, RoundUp(8 + BLOCK_OVERHEAD_FIXED, ALIGNMENT));
  }

  /** After two blocks the space that is left is exactly as long as some third block. */
  lemma ThreeFills(gap: int)
    requires gap == HeapShare() + StackShare() - Length(8) - Length(1)
    ensures BLOCK_OVERHEAD_FIXED <= gap && Length(gap - BLOCK_OVERHEAD_FIXED) == gap
  {
    hide HeapShare, StackShare, Length, Aligned;
    Shares();
    GapAligned(HeapShare(), StackShare(), Length(8), Length(1));
    FillsGap(gap);
  }

  lemma GapAligned(h: nat, s: nat, a: nat, b: nat)
    requires Aligned(h) && Aligned(s) && Aligned(a) && Aligned(b)
    ensures Aligned(h + s - a - b)
  {
  }

  lemma FillsGap(gap: nat)
    requires Aligned(gap) && BLOCK_OVERHEAD_FIXED <= gap
    ensures Length(gap - BLOCK_OVERHEAD_FIXED) == gap
  {
    Rounding(gap, gap);
  }

  /** Freeing the middle one of three blocks leaves it on the free list. */
  lemma FreeMiddle(s: State, c: Block, b: Block, a: Block)
    requires s.used == [c, b, a] && s.free == [] && a.addr < b.addr < c.addr && c.End() == s.hp
    ensures HasBlock(s.used, b.addr) && FreeHeap(s, b.addr) == s.(used := [c, a], free := [b.Foot()])
  {
    assert s.used[1].addr == b.addr;
    var i := IndexOf(s.used, b.addr);
    assert i == 1;
    assert RemoveAt(s.used, 1) == [c, a];
    var m := Rightmost([c, a]);
    assert m == c;
    assert InsertOrdered(b.Foot(), []) == [b.Foot()] && Coalesce([b.Foot()]) == [b.Foot()];
  }

  /**
   * After a run from MA_init the heap has overgrown the partition and met the stack, a free fragment beyond the
   * partition holds an element, and the inquiry's answer is 0.
   */
  lemma InquiryFallsShort() returns (calls: seq<Call>, t: State)
    ensures Bytewise().Valid() && Bytewise().Has(0)
    ensures Reachable(Bytewise(), Init(8, HeapShare(), StackShare()), calls, t)
    ensures t.partition < t.hp == t.sp && HasSpace(Bytewise(), t, 0, 1)
    ensures forall frag: nat :: FragAnswer(Bytewise(), 0, t.partition, 0, t.free, frag) ==> frag == 0
  {
    hide HeapShare, StackShare, Aligned, Length, Grown, TopBlock, Step, Reachable, FragAnswer, HasSpace, FreeHeap;
    hide BytesAfter;
    BytewiseValid();
    var s0 := Init(8, HeapShare(), StackShare());
    var s1, s2, s3, n := ThreeSteps(s0);
    var a, b, c := TopBlock(s0, 8), TopBlock(s1, 1), TopBlock(s2, n);
    FreeMiddle(s3, c, b, a);
    t := s3.(used := [c, a], free := [b.Foot()]);
    calls := [Allocate(0, 8), Allocate(0, 1), Allocate(0, n), Free(b.addr)];
    FreeStep(s3, b.addr);
    RunOfFour(s0, s1, s2, s3, t, calls);
    BytewiseLength(1, b.addr);
    FragmentFits(t, b.Foot());
    FragmentIgnored(t, b.Foot());
  }

  lemma FreeStep(s: State, addr: nat)
    requires HasBlock(s.used, addr) && Bytewise().Valid() && forall b :: b in s.used ==> b.dtype == 0
    ensures (forall b :: b in s.used ==> Bytewise().Has(b.dtype))
    ensures Step(Bytewise(), s, Free(addr)) == FreeHeap(s, addr)
  {
    BytewiseValid();
    hide FreeHeap;
  }

  /** The three allocations. */
  lemma ThreeSteps(s0: State) returns (s1: State, s2: State, s3: State, n: nat)
    requires s0 == Init(8, HeapShare(), StackShare())
    ensures Bytewise().Valid() && Bytewise().Has(0)
    ensures forall b :: b in s0.used || b in s1.used || b in s2.used || b in s3.used ==> b.dtype == 0
    ensures forall b :: b in s0.used || b in s1.used || b in s2.used || b in s3.used ==> Bytewise().Has(b.dtype)
    ensures Step(Bytewise(), s0, Allocate(0, 8)) == s1 && Step(Bytewise(), s1, Allocate(0, 1)) == s2
    ensures Step(Bytewise(), s2, Allocate(0, n)) == s3
    ensures s3.used == [TopBlock(s2, n), TopBlock(s1, 1), TopBlock(s0, 8)] && s3.free == []
    ensures TopBlock(s0, 8).addr < TopBlock(s1, 1).addr < TopBlock(s2, n).addr
    ensures TopBlock(s2, n).End() == s3.hp == s3.sp
    ensures s3.partition <= TopBlock(s1, 1).addr && TopBlock(s1, 1).nbytes == Length(1)
  {
    hide HeapShare, StackShare, Aligned, Length, Step;
    Shares();
    s1 := Grown(s0, 8);
    s2 := Grown(s1, 1);
    ThreeFills(s2.sp - s2.hp);
    n := s2.sp - s2.hp - BLOCK_OVERHEAD_FIXED;
    s3 := Grown(s2, n);
    LengthPositive(8);
    LengthPositive(1);
    LengthPositive(n);
    GrowStep(s0, 8);
    GrowStep(s1, 1);
    GrowStep(s2, n);
  }

  lemma LengthPositive(n: nat)
    ensures 0 < Length(n)
  {
  }

  lemma RunOfFour(s0: State, s1: State, s2: State, s3: State, t: State, calls: seq<Call>)
    requires |calls| == 4 && Bytewise().Valid() && Bytewise().Has(0)
    requires forall b :: b in s0.used || b in s1.used || b in s2.used || b in s3.used ==> b.dtype == 0
    requires Step(Bytewise(), s0, calls[0]) == s1 && Step(Bytewise(), s1, calls[1]) == s2
    requires Step(Bytewise(), s2, calls[2]) == s3 && Step(Bytewise(), s3, calls[3]) == t
    ensures Reachable(Bytewise(), s0, calls, t)
  {
    hide Step;
    assert calls[1..][0] == calls[1] && calls[1..][1..] == calls[2..];
    assert calls[2..][0] == calls[2] && calls[2..][1..] == calls[3..];
    assert calls[3..][0] == calls[3] && calls[3..][1..] == [];
    assert Reachable(Bytewise(), s3, calls[3..], t);
    assert Reachable(Bytewise(), s2, calls[2..], t);
    assert Reachable(Bytewise(), s1, calls[1..], t);
  }

  lemma FragmentFits(t: State, p: Piece)
    requires t.free == [p] && Bytewise().Valid() && Bytewise().Has(0)
    requires BytesAfter(Bytewise(), 0, 1, p.addr) == p.nbytes
    ensures HasSpace(Bytewise(), t, 0, 1)
  {
    hide BytesAfter;
    AllocateSucceeds(Bytewise(), t, 0, 1);
    assert p in t.free && FitsPiece(Bytewise(), 0, 1, p);
  }

  lemma FragmentIgnored(t: State, p: Piece)
    requires t.free == [p] && t.partition <= p.addr && Bytewise().Valid() && Bytewise().Has(0)
    ensures forall frag: nat :: FragAnswer(Bytewise(), 0, t.partition, 0, t.free, frag) ==> frag == 0
  {
    hide BytesAfter;
    forall frag: nat | FragAnswer(Bytewise(), 0, t.partition, 0, t.free, frag)
      ensures frag == 0
    {
      assert 1 <= frag ==> SomeFragHolds(Bytewise(), 0, t.partition, 0, 1, t.free);
    }
  }
}
