/** What the inquiry functions promise about later requests, and whether the segment is big enough to begin with. */
module Inquiry {
  import opened Options
  import opened Arithmetic
  import opened Placement
  import opened Arena
  import opened Invariant

  /** Does the request fit in this free piece? */
  predicate FitsPiece(lay: Layout, d: nat, n: nat, p: Piece)
    requires lay.Has(d)
  {
    BytesAfter(lay, d, n, p.addr) <= p.nbytes
  }

  ghost predicate FitsSome(lay: Layout, d: nat, n: nat, l: seq<Piece>)
    requires lay.Has(d)
  {
    exists p :: p in l && FitsPiece(lay, d, n, p)
  }

  /** MA_allocate_heap succeeds exactly when some free piece or the space up to the stack can hold the request. */
  lemma AllocateSucceeds(lay: Layout, s: State, d: nat, n: nat)
    requires lay.Valid() && lay.Has(d)
    ensures AllocateHeap(lay, s, d, n).Some? <==>
      FitsSome(lay, d, n, s.free) || BytesAfter(lay, d, n, s.hp) <= s.sp - s.hp
  {
    hide BytesAfter, ClientAfter;
    var i := FirstFit(lay, d, n, s.free);
    if i < |s.free| {
      assert s.free[i] in s.free && FitsPiece(lay, d, n, s.free[i]);
    }
  }

  /** The part of a free piece below the partition, as ma_max_heap_frag_nelem counts it. */
  function Usable(p: Piece, partition: nat): nat {
    if p.addr >= partition then 0
    else if p.End() >= partition then partition - p.addr
    else p.nbytes
  }

  /** Threshold below which ma_max_heap_frag_nelem does not look at a fragment. */
  function MinBytes(lay: Layout, d: nat, min: nat): nat
    requires lay.Has(d)
  {
    min * lay.size[d] + BLOCK_OVERHEAD_FIXED
  }

  /** ma_max_heap_frag_nelem looks at the fragment, and its usable part holds n elements. */
  predicate FragHolds(lay: Layout, d: nat, partition: nat, min: nat, n: nat, p: Piece)
    requires lay.Has(d)
  {
    MinBytes(lay, d, min) <= Usable(p, partition) && BytesAfter(lay, d, n, p.addr) <= Usable(p, partition)
  }

  ghost predicate SomeFragHolds(lay: Layout, d: nat, partition: nat, min: nat, n: nat, l: seq<Piece>)
    requires lay.Has(d)
  {
    exists p :: p in l && FragHolds(lay, d, partition, min, n, p)
  }

  /** r is the answer of ma_max_heap_frag_nelem for the fragments in l: the maximum over those it looks at. */
  ghost predicate FragAnswer(lay: Layout, d: nat, partition: nat, min: nat, l: seq<Piece>, r: nat)
    requires lay.Has(d)
  {
    forall n: nat :: 1 <= n ==> (n <= r <==> SomeFragHolds(lay, d, partition, min, n, l))
  }

  /** A fragment below the threshold cannot hold more than min elements: pruning it never changes the maximum. */
  lemma PruningIsSafe(lay: Layout, d: nat, min: nat, p: Piece, n: nat)
    requires lay.Valid() && lay.Has(d) && p.nbytes < MinBytes(lay, d, min) && FitsPiece(lay, d, n, p)
    ensures n < min
  {
    hide BytesAfter, IsPow2;
    BytesAfterLower(lay, d, n, p.addr);
    if min <= n { MulMonotone(min, n, lay.size[d]); }
  }

  /** One round of the loop over the free list. */
  lemma FragStep(lay: Layout, d: nat, partition: nat, min: nat, l: seq<Piece>, p: Piece, r: nat, e: nat)
    requires lay.Valid() && lay.Has(d) && FragAnswer(lay, d, partition, min, l, r)
    requires Usable(p, partition) < MinBytes(lay, d, min) ==> e == 0
    requires Usable(p, partition) >= MinBytes(lay, d, min) ==> MostElements(lay, d, p.addr, Usable(p, partition), e)
    ensures FragAnswer(lay, d, partition, min, l + [p], Max(r, e))
  {
    hide BytesAfter, IsPow2, Usable, MinBytes;
    forall n: nat | 1 <= n
      ensures n <= Max(r, e) <==> SomeFragHolds(lay, d, partition, min, n, l + [p])
    {
      assert n <= e <==> FragHolds(lay, d, partition, min, n, p);
      FragsAppend(lay, d, partition, min, n, l, p);
    }
  }

  lemma FragsAppend(lay: Layout, d: nat, partition: nat, min: nat, n: nat, l: seq<Piece>, p: Piece)
    requires lay.Has(d)
    ensures SomeFragHolds(lay, d, partition, min, n, l + [p]) <==>
      SomeFragHolds(lay, d, partition, min, n, l) || FragHolds(lay, d, partition, min, n, p)
  {
    hide FragHolds;
    assert forall q :: q in l + [p] <==> q in l || q == p;
  }

  /**
   * A fragment that holds n elements has room for them; one wholly below the partition is looked at if n exceeds min.
   */
  lemma FragFits(lay: Layout, d: nat, partition: nat, min: nat, n: nat, p: Piece)
    requires lay.Valid() && lay.Has(d)
    ensures FragHolds(lay, d, partition, min, n, p) ==> FitsPiece(lay, d, n, p)
    ensures p.End() <= partition && min < n && FitsPiece(lay, d, n, p) ==> FragHolds(lay, d, partition, min, n, p)
  {
    BytesAfterLower(lay, d, n, p.addr);
    hide BytesAfter, IsPow2;
    if p.nbytes < MinBytes(lay, d, min) && FitsPiece(lay, d, n, p) {
      PruningIsSafe(lay, d, min, p, n);
    }
  }

  /** n elements fit between the start of a fragment and its end, or the partition if it reaches across. */
  predicate FitsBelow(lay: Layout, d: nat, partition: nat, n: nat, p: Piece)
    requires lay.Has(d)
  {
    p.addr < partition && p.addr + BytesAfter(lay, d, n, p.addr) <= if p.End() < partition then p.End() else partition
  }

  ghost predicate SomeFitsBelow(lay: Layout, d: nat, partition: nat, n: nat, l: seq<Piece>)
    requires lay.Has(d)
  {
    exists p :: p in l && FitsBelow(lay, d, partition, n, p)
  }

  lemma HoldsIsFitsBelow(lay: Layout, d: nat, partition: nat, min: nat, n: nat, p: Piece)
    requires lay.Valid() && lay.Has(d) && 1 <= n && min <= n
    ensures FragHolds(lay, d, partition, min, n, p) <==> FitsBelow(lay, d, partition, n, p)
  {
    BytesAfterLower(lay, d, n, p.addr);
    MulMonotone(0, n, lay.size[d]);
    MulMonotone(min, n, lay.size[d]);
    hide BytesAfter, IsPow2;
  }

  /** The answer for the fragments, counting from min on: the most elements that fit below the partition in one. */
  lemma FragExact(lay: Layout, d: nat, partition: nat, min: nat, l: seq<Piece>, r: nat, n: nat)
    requires lay.Valid() && lay.Has(d) && FragAnswer(lay, d, partition, min, l, r) && 1 <= n && min <= n
    ensures n <= r <==> SomeFitsBelow(lay, d, partition, n, l)
  {
    hide FragHolds, FitsBelow;
    forall p | p in l
      ensures FragHolds(lay, d, partition, min, n, p) <==> FitsBelow(lay, d, partition, n, p)
    {
      HoldsIsFitsBelow(lay, d, partition, min, n, p);
    }
    assert n <= r <==> SomeFragHolds(lay, d, partition, min, n, l);
  }

  /**
   * What the heap inquiry answers, exactly: n is at most the answer if n elements fit between heap and stack or in some
   * fragment below the partition.
   */
  lemma AnswerIs(lay: Layout, s: State, d: nat, gap: nat, frag: nat, n: nat)
    requires lay.Valid() && lay.Has(d) && s.hp <= s.sp && 1 <= n
    requires if s.sp > s.hp then MostElements(lay, d, s.hp, s.sp - s.hp, gap) else gap == 0
    requires FragAnswer(lay, d, s.partition, gap, s.free, frag)
    ensures n <= Max(gap, frag) <==>
      s.hp + BytesAfter(lay, d, n, s.hp) <= s.sp || SomeFitsBelow(lay, d, s.partition, n, s.free)
  {
    hide BytesAfter, MostElements, FragAnswer, SomeFitsBelow, IsPow2;
    GapDecides(lay, s, d, gap, n);
    if gap < n {
      FragExact(lay, d, s.partition, gap, s.free, frag, n);
    }
  }

  ghost predicate HasSpace(lay: Layout, s: State, d: nat, n: nat)
    requires lay.Valid() && lay.Has(d)
  {
    AllocateHeap(lay, s, d, n).Some?
  }

  /** No fragment that reaches beyond the partition holds one element more than most. */
  ghost predicate NothingBeyond(lay: Layout, s: State, d: nat, most: nat)
    requires lay.Has(d)
  {
    forall p :: p in s.free && s.partition < p.End() ==> !FitsPiece(lay, d, most + 1, p)
  }

  /** The answer is right for every request. */
  ghost predicate Exact(lay: Layout, s: State, d: nat, most: nat)
    requires lay.Valid() && lay.Has(d)
  {
    forall n: nat :: 1 <= n ==> (n <= most <==> HasSpace(lay, s, d, n))
  }

  /**
   * MA_inquire_heap_no_partition: gap is the answer for the space between heap and stack, frag the answer
   * for the free list searched with threshold gap. A request for at most the reported number of elements has
   * space. That no other has is true if and only if no fragment that reaches beyond the partition holds one element
   * more; as long as the heap has not overgrown the partition there is no such fragment.
   */
  lemma InquiryIsExact(lay: Layout, s: State, d: nat, gap: nat, frag: nat)
    requires lay.Valid() && lay.Has(d) && Inv(lay, s)
    requires if s.sp > s.hp then MostElements(lay, d, s.hp, s.sp - s.hp, gap) else gap == 0
    requires FragAnswer(lay, d, s.partition, gap, s.free, frag)
    ensures forall n: nat :: 1 <= n <= Max(gap, frag) ==> HasSpace(lay, s, d, n)
    ensures Exact(lay, s, d, Max(gap, frag)) <==> NothingBeyond(lay, s, d, Max(gap, frag))
    ensures s.hp <= s.partition ==> NothingBeyond(lay, s, d, Max(gap, frag))
  {
    hide BytesAfter, IsPow2, Inv, AllocateHeap, FragAnswer, MostElements, FitsPiece, NothingBeyond;
    var most := Max(gap, frag);
    FreeBelowTop(lay, s);
    forall n: nat | 1 <= n
      ensures n <= most ==> HasSpace(lay, s, d, n)
      ensures HasSpace(lay, s, d, n) && NothingBeyond(lay, s, d, most) ==> n <= most
    {
      AnswerHasSpace(lay, s, d, gap, frag, n);
      NothingMore(lay, s, d, gap, frag, n);
    }
    BeyondHasSpace(lay, s, d, most);
    if s.hp <= s.partition {
      BelowPartition(lay, s, d, most);
    }
  }

  lemma AnswerHasSpace(lay: Layout, s: State, d: nat, gap: nat, frag: nat, n: nat)
    requires lay.Valid() && lay.Has(d) && 1 <= n && s.hp <= s.sp
    requires if s.sp > s.hp then MostElements(lay, d, s.hp, s.sp - s.hp, gap) else gap == 0
    requires FragAnswer(lay, d, s.partition, gap, s.free, frag)
    ensures n <= Max(gap, frag) ==> HasSpace(lay, s, d, n)
  {
    hide BytesAfter, IsPow2, AllocateHeap, FitsPiece, FragHolds, MostElements;
    AllocateSucceeds(lay, s, d, n);
    GapDecides(lay, s, d, gap, n);
    if gap < n <= frag {
      assert SomeFragHolds(lay, d, s.partition, gap, n, s.free);
      var p :| p in s.free && FragHolds(lay, d, s.partition, gap, n, p);
      FragFits(lay, d, s.partition, gap, n, p);
    }
  }

  lemma NothingMore(lay: Layout, s: State, d: nat, gap: nat, frag: nat, n: nat)
    requires lay.Valid() && lay.Has(d) && 1 <= n && s.hp <= s.sp
    requires if s.sp > s.hp then MostElements(lay, d, s.hp, s.sp - s.hp, gap) else gap == 0
    requires FragAnswer(lay, d, s.partition, gap, s.free, frag)
    ensures HasSpace(lay, s, d, n) && NothingBeyond(lay, s, d, Max(gap, frag)) ==> n <= Max(gap, frag)
  {
    hide BytesAfter, IsPow2, AllocateHeap, FitsPiece, FragHolds, MostElements;
    AllocateSucceeds(lay, s, d, n);
    GapDecides(lay, s, d, gap, n);
    if gap < n && FitsSome(lay, d, n, s.free) {
      var p :| p in s.free && FitsPiece(lay, d, n, p);
      FragFits(lay, d, s.partition, gap, n, p);
      if p.End() <= s.partition {
        assert SomeFragHolds(lay, d, s.partition, gap, n, s.free);
      } else if Max(gap, frag) < n {
        FewerFit(lay, d, Max(gap, frag) + 1, n, p);
      }
    }
  }

  lemma FewerFit(lay: Layout, d: nat, m: nat, n: nat, p: Piece)
    requires lay.Valid() && lay.Has(d) && m <= n && FitsPiece(lay, d, n, p)
    ensures FitsPiece(lay, d, m, p)
  {
    hide BytesAfter;
    BytesAfterMonotone(lay, d, m, n, p.addr);
  }

  lemma BeyondHasSpace(lay: Layout, s: State, d: nat, most: nat)
    requires lay.Valid() && lay.Has(d)
    ensures !NothingBeyond(lay, s, d, most) ==> HasSpace(lay, s, d, most + 1)
  {
    hide BytesAfter, IsPow2, AllocateHeap, FitsPiece;
    AllocateSucceeds(lay, s, d, most + 1);
  }

  lemma BelowPartition(lay: Layout, s: State, d: nat, most: nat)
    requires lay.Has(d) && s.hp <= s.partition && forall p :: p in s.free ==> p.End() < s.hp
    ensures NothingBeyond(lay, s, d, most)
  {
  }

  lemma GapDecides(lay: Layout, s: State, d: nat, gap: nat, n: nat)
    requires lay.Valid() && lay.Has(d) && 1 <= n && s.hp <= s.sp
    requires if s.sp > s.hp then MostElements(lay, d, s.hp, s.sp - s.hp, gap) else gap == 0
    ensures n <= gap <==> BytesAfter(lay, d, n, s.hp) <= s.sp - s.hp
  {
    hide BytesAfter, IsPow2;
    BytesAfterLower(lay, d, n, s.hp);
    MulMonotone(0, n, lay.size[d]);
  }

  lemma FreeBelowTop(lay: Layout, s: State)
    requires Inv(lay, s)
    ensures s.hp <= s.sp && forall p :: p in s.free ==> p.End() < s.hp
  {
  }

  /** MA_inquire_stack_no_partition and MA_inquire_avail: exact for MA_push_stack. */
  lemma StackInquiryIsExact(lay: Layout, s: State, d: nat, gap: nat, n: nat)
    requires lay.Valid() && lay.Has(d) && Inv(lay, s) && 1 <= n
    requires if s.sp > s.hp then MostElements(lay, d, s.hp, s.sp - s.hp, gap) else gap == 0
    ensures n <= gap <==> PushStack(lay, s, d, n).Some?
  {
    hide BytesAfter, BytesBefore, ClientBefore;
    PushKeeps(lay, s, d, n);
    PlacementsAgree(lay, d, n, s.hp, s.sp);
    BytesBeforePositive(lay, d, n, s.sp);
  }

  // ---------- is the segment big enough? ----------

  const DEFAULT_TOTAL: nat := 524288

  /** Bytes MA_init sets aside for a region that should hold nominal elements of datatype d. */
  function RegionBytes(lay: Layout, d: nat, nominal: int): (r: nat)
    requires lay.Has(d)
  {
    RoundUp(if nominal < 0 then DEFAULT_TOTAL else nominal * lay.size[d] + MaxBlockOverhead(lay, d), ALIGNMENT)
  }

  /**
   * A region is the least multiple of ALIGNMENT with room for the elements, descriptor, guards and the worst gaps; a
   * negative request asks for the default.
   */
  lemma RegionIs(lay: Layout, d: nat, n: int)
    requires lay.Has(d)
    ensures n < 0 ==> RegionBytes(lay, d, n) == 524288
    ensures n >= 0 ==>
      var want := n * lay.size[d] + AD_BYTES + 2 * GUARD_BYTES + (lay.size[d] - 1) + (ALIGNMENT - 1);
      RegionBytes(lay, d, n) % ALIGNMENT == 0 && want <= RegionBytes(lay, d, n) < want + ALIGNMENT
  {
    if n >= 0 {
      MulMonotone(0, n, lay.size[d]);
      RegionAligned(lay, d, n);
    }
  }

  lemma RegionHolds(lay: Layout, d: nat, n: nat, addr: int)
    requires lay.Valid() && lay.Has(d) && lay.numalign == 0
    ensures Aligned(RegionBytes(lay, d, n))
    ensures BytesAfter(lay, d, n, addr) <= RegionBytes(lay, d, n)
    ensures Aligned(addr) ==> BytesBefore(lay, d, n, addr) <= RegionBytes(lay, d, n)
  {
    hide BytesAfter, BytesBefore, IsPow2, MaxBlockOverhead;
    RegionAligned(lay, d, n);
    OverheadBound(lay, d, n, addr);
    RegionCovers(lay, d, n);
    hide Aligned, RegionBytes;
  }

  lemma RegionCovers(lay: Layout, d: nat, n: nat)
    requires lay.Has(d)
    ensures n * lay.size[d] + MaxBlockOverhead(lay, d) <= RegionBytes(lay, d, n)
  {
    MulMonotone(0, n, lay.size[d]);
    hide MaxBlockOverhead;
  }

  lemma RegionAligned(lay: Layout, d: nat, n: int)
    requires lay.Has(d)
    ensures Aligned(RegionBytes(lay, d, n))
  {
  }

  /**
   * With an empty free list, a request succeeds when the space up to the stack can hold it, and hp moves by its
   * length.
   */
  lemma AllocateAtTop(lay: Layout, s: State, d: nat, n: nat)
    requires lay.Valid() && lay.Has(d) && s.free == [] && BytesAfter(lay, d, n, s.hp) <= s.sp - s.hp
    ensures var r := AllocateHeap(lay, s, d, n);
      r.Some? && r.value.0.hp == s.hp + BytesAfter(lay, d, n, s.hp) && r.value.0.sp == s.sp
  {
    BytesAfterLower(lay, d, n, s.hp);
    hide BytesAfter, ClientAfter;
  }

  lemma PushAtTop(lay: Layout, s: State, d: nat, n: nat)
    requires lay.Valid() && lay.Has(d) && s.hp <= s.sp && BytesBefore(lay, d, n, s.sp) <= s.sp - s.hp
    ensures var r := PushStack(lay, s, d, n);
      r.Some? && r.value.0.sp == s.sp - BytesBefore(lay, d, n, s.sp)
      && r.value.0.hp == s.hp && r.value.0.free == s.free
  {
    BytesBeforePositive(lay, d, n, s.sp);
    hide BytesBefore, ClientBefore;
  }

  /**
   * Right after MA_init(d, stack, heap), with no extra alignment requested, one heap request of heap elements
   * and one stack request of stack elements both succeed, in either order.
   */
  lemma FreshSegmentSuffices(lay: Layout, segment: nat, d: nat, stack: nat, heap: nat)
    requires lay.Valid() && lay.Has(d) && lay.numalign == 0 && Aligned(segment)
    ensures var s := Init(segment, RegionBytes(lay, d, heap), RegionBytes(lay, d, stack));
      var h, k := AllocateHeap(lay, s, d, heap), PushStack(lay, s, d, stack);
      && h.Some? && PushStack(lay, h.value.0, d, stack).Some?
      && k.Some? && AllocateHeap(lay, k.value.0, d, heap).Some?
  {
    hide BytesAfter, BytesBefore, RegionBytes, AllocateHeap, PushStack;
    var hb, sb := RegionBytes(lay, d, heap), RegionBytes(lay, d, stack);
    var s := Init(segment, hb, sb);
    RegionHolds(lay, d, heap, segment);
    RegionHolds(lay, d, stack, segment);
    RegionHolds(lay, d, stack, s.eos);
    AllocateAtTop(lay, s, d, heap);
    PushAtTop(lay, AllocateHeap(lay, s, d, heap).value.0, d, stack);
    PushAtTop(lay, s, d, stack);
    AllocateAtTop(lay, PushStack(lay, s, d, stack).value.0, d, heap);
  }
}
