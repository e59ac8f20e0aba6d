/** What holds of the allocator's state after every operation, and the proofs that each operation keeps it. */
module Invariant {
  import opened Options
  import opened Arithmetic
  import opened Placement
  import opened Arena
  import opened Tilings
  import opened FreeLists

  // ---------- the invariant ----------

  ghost function Feet(used: seq<Block>): set<Piece> {
    set b | b in used :: b.Foot()
  }

  ghost predicate DistinctAddrs(blocks: seq<Block>) {
    forall i, j :: 0 <= i < j < |blocks| ==> blocks[i].addr != blocks[j].addr
  }

  /**
   * The free list and the used blocks tile the heap region exactly; nothing is left to coalesce; the last block is
   * used.
   */
  ghost predicate HeapShape(s: State) {
    && Aligned(s.segment) && Aligned(s.hp)
    && Elems(s.free) !! Feet(s.used)
    && Tiling(Elems(s.free) + Feet(s.used), s.segment, s.hp)
    && Gapped(s.free) && DistinctAddrs(s.used)
    && (forall p :: p in s.free ==> p.End() < s.hp)
    && (forall p :: p in s.free ==> SoundPiece(p))
    && (forall b :: b in s.used ==> SoundPiece(b.Foot()))
  }

  /** A used heap block is where balloc_after puts it, and exceeds its need by less than a block's worth. */
  ghost predicate Placed(lay: Layout, b: Block) {
    && lay.Has(b.dtype)
    && b.client == ClientAfter(lay, b.dtype, b.addr)
    && var need := BytesAfter(lay, b.dtype, b.nelem, b.addr);
      need <= b.nbytes < need + AD_BYTES + 2 * GUARD_BYTES + ALIGNMENT
  }

  ghost predicate HeapInv(lay: Layout, s: State) {
    HeapShape(s) && forall b :: b in s.used ==> Placed(lay, b)
  }

  /** The stack blocks lie end to end from sp to eos. */
  ghost predicate StackTiles(stack: seq<Block>, sp: nat, eos: nat) {
    if stack == [] then sp == eos
    else stack[0].addr == sp && 0 < stack[0].nbytes && StackTiles(stack[1..], stack[0].End(), eos)
  }

  ghost predicate PlacedBefore(lay: Layout, b: Block) {
    && lay.Has(b.dtype)
    && b.client == ClientBefore(lay, b.dtype, b.nelem, b.End())
    && b.nbytes == BytesBefore(lay, b.dtype, b.nelem, b.End())
    && Aligned(b.addr) && Aligned(b.nbytes)
  }

  ghost predicate StackInv(lay: Layout, s: State) {
    && Aligned(s.sp)
    && StackTiles(s.stack, s.sp, s.eos)
    && forall b :: b in s.stack ==> PlacedBefore(lay, b)
  }

  ghost predicate Inv(lay: Layout, s: State) {
    HeapInv(lay, s) && StackInv(lay, s) && s.hp <= s.sp
  }

  /** The part of the invariant that does not look at what heap blocks were requested for. */
  ghost predicate ShapeInv(lay: Layout, s: State) {
    HeapShape(s) && StackInv(lay, s) && s.hp <= s.sp
  }

  lemma InvShape(lay: Layout, s: State)
    requires Inv(lay, s)
    ensures HeapShape(s) && StackInv(lay, s) && s.hp <= s.sp && ShapeInv(lay, s)
  {
    hide HeapShape, StackInv;
  }

  // ---------- MA_allocate_heap ----------

  lemma SplitSound(p: Piece, need: nat)
    requires SoundPiece(p) && need <= p.nbytes && Aligned(need) && BLOCK_OVERHEAD_FIXED <= need
    ensures var (taken, rest) := Carve(p, need);
      SoundPiece(Piece(p.addr, taken)) && forall q :: q in rest ==> SoundPiece(q)
  {
    hide Aligned;
    if p.nbytes - need >= MINBLOCKSIZE {
      AlignedSum(p.addr, need);
      AlignedDiff(p.nbytes, need);
    }
  }

  lemma AlignedSum(x: int, y: int)
    requires Aligned(x) && Aligned(y)
    ensures Aligned(x + y)
  {
  }

  /** Replacing one member of a gapped list by nothing, or by a piece inside it that ends where it ends. */
  lemma GappedReplace(L: seq<Piece>, p: Piece, R: seq<Piece>, rest: seq<Piece>)
    requires Gapped(L + [p] + R)
    requires rest == [] || (|rest| == 1 && p.addr < rest[0].addr && rest[0].End() == p.End() && 0 < rest[0].nbytes)
    ensures Gapped(L + rest + R)
    ensures p !in L && p !in R && p !in rest
  {
    GappedParts(L + [p], R);
    GappedParts(L, [p]);
    assert p in [p] && p in L + [p];
    GappedWhole(L, rest);
    GappedWhole(L + rest, R);
  }

  lemma UsedApart(s: State, p: Piece)
    requires HeapShape(s) && p in s.free
    ensures forall b :: b in s.used ==> b.addr != p.addr
    ensures p in Elems(s.free) && p !in Feet(s.used)
  {
    forall b | b in s.used
      ensures b.addr != p.addr
    {
      assert b.Foot() in Feet(s.used) && Apart(b.Foot(), p);
    }
  }

  /** Taking a whole free piece. */
  lemma TakeShape(s: State, L: seq<Piece>, p: Piece, R: seq<Piece>, b: Block)
    requires HeapShape(s) && s.free == L + [p] + R && b.Foot() == p
    ensures HeapShape(s.(free := L + R, used := [b] + s.used))
  {
    var s' := s.(free := L + R, used := [b] + s.used);
    assert p in s.free && forall q :: q in s'.free ==> q in s.free;
    GappedReplace(L, p, R, []);
    assert L + [] + R == L + R;
    UsedApart(s, p);
    assert Feet(s'.used) == Feet(s.used) + {p};
    assert Elems(s'.free) == Elems(s.free) - {p};
    assert Elems(s'.free) + Feet(s'.used) == Elems(s.free) + Feet(s.used);
  }

  /** A fresh part of a piece is a part of no other piece. */
  lemma PartIsNew(S: set<Piece>, p: Piece, a: Piece)
    requires Disjoint(S) && p in S && p.addr <= a.addr && a.End() <= p.End() && a != p && 0 < a.nbytes
    ensures a !in S
  {
    assert a in S ==> Apart(a, p);
  }

  lemma SplitTiling(F: set<Piece>, U: set<Piece>, lo: nat, hi: nat, p: Piece, a: Piece, r: Piece)
    requires Tiling(F + U, lo, hi) && F !! U && p in F
    requires a.addr == p.addr && r.addr == a.End() && r.End() == p.End() && 0 < a.nbytes && 0 < r.nbytes
    ensures Tiling((F - {p} + {r}) + (U + {a}), lo, hi) && (F - {p} + {r}) !! (U + {a})
    ensures r !in F
  {
    PartIsNew(F + U, p, r);
    PartIsNew(F + U, p, a);
    TilingSplit(F + U, lo, hi, p, a.nbytes);
    assert (F - {p} + {r}) + (U + {a}) == F + U - {p} + {a, r};
  }

  /** Taking the front of a free piece and leaving the rest in its place. */
  lemma SplitShape(s: State, L: seq<Piece>, p: Piece, R: seq<Piece>, b: Block, r: Piece)
    requires HeapShape(s) && s.free == L + [p] + R
    requires b.addr == p.addr && r.addr == b.End() && r.End() == p.End()
    requires SoundPiece(b.Foot()) && SoundPiece(r)
    ensures HeapShape(s.(free := L + [r] + R, used := [b] + s.used))
  {
    var s' := s.(free := L + [r] + R, used := [b] + s.used);
    hide Gapped, Aligned, Tiling;
    assert p in s.free && forall q :: q in s'.free ==> q == r || q in s.free;
    GappedReplace(L, p, R, [r]);
    UsedApart(s, p);
    SplitTiling(Elems(s.free), Feet(s.used), s.segment, s.hp, p, b.Foot(), r);
    FeetMore(b, s.used);
    ReplacedElems(L, p, R, r);
  }

  lemma ReplacedElems(L: seq<Piece>, p: Piece, R: seq<Piece>, r: Piece)
    requires p !in L && p !in R
    ensures Elems(L + [r] + R) == Elems(L + [p] + R) - {p} + {r}
  {
    assert Elems(L + [r] + R) == Elems(L) + {r} + Elems(R);
    assert Elems(L + [p] + R) == Elems(L) + {p} + Elems(R);
  }

  /** Taking a block out of the free piece p. */
  lemma CarveShape(s: State, i: nat, need: nat, b: Block, s': State)
    requires HeapShape(s) && i < |s.free| && 0 < need <= s.free[i].nbytes
    requires Aligned(need) && BLOCK_OVERHEAD_FIXED <= need
    requires var (taken, rest) := Carve(s.free[i], need);
      b.Foot() == Piece(s.free[i].addr, taken)
      && s' == s.(free := s.free[..i] + rest + s.free[i + 1..], used := [b] + s.used)
    ensures HeapShape(s')
  {
    var p, L, R := s.free[i], s.free[..i], s.free[i + 1..];
    var (taken, rest) := Carve(p, need);
    hide HeapShape, Aligned, SoundPiece, Carve;
    assert s.free == L + [p] + R;
    FreeSound(s, i);
    SplitSound(p, need);
    CarveParts(p, need);
    if rest == [] {
      assert L + rest + R == L + R;
      TakeShape(s, L, p, R, b);
    } else {
      assert rest == [rest[0]];
      SplitShape(s, L, p, R, b, rest[0]);
    }
  }

  lemma FreeSound(s: State, i: nat)
    requires HeapShape(s) && i < |s.free|
    ensures SoundPiece(s.free[i])
  {
  }

  lemma CarveParts(p: Piece, need: nat)
    requires need <= p.nbytes
    ensures var (taken, rest) := Carve(p, need);
      if rest == [] then Piece(p.addr, taken) == p else rest == [Piece(p.addr + taken, p.nbytes - taken)]
  {
  }

  /** Growing the heap by a block at hp. */
  lemma ExtendShape(s: State, b: Block)
    requires HeapShape(s) && b.addr == s.hp && SoundPiece(b.Foot())
    ensures HeapShape(s.(used := [b] + s.used, hp := b.End()))
  {
    hide Gapped, Tiling, Aligned;
    var s' := s.(used := [b] + s.used, hp := b.End());
    BelowTop(s);
    AlignedSum(s.hp, b.nbytes);
    TilingExtend(Elems(s.free) + Feet(s.used), s.segment, s.hp, b.nbytes);
    FeetMore(b, s.used);
    assert b.Foot() == Piece(s.hp, b.nbytes);
    assert Elems(s'.free) + Feet(s'.used) == Elems(s.free) + Feet(s.used) + {b.Foot()};
  }

  lemma BelowTop(s: State)
    requires HeapShape(s)
    ensures forall q :: q in s.used ==> q.addr < s.hp
  {
    hide Gapped, Aligned;
    assert forall q :: q in s.used ==> q.Foot() in Feet(s.used);
  }

  lemma FeetMore(b: Block, used: seq<Block>)
    ensures Feet([b] + used) == Feet(used) + {b.Foot()}
  {
  }

  lemma NeedSound(lay: Layout, d: nat, n: nat, addr: nat)
    requires lay.Valid() && lay.Has(d)
    ensures var need := BytesAfter(lay, d, n, addr); Aligned(need) && BLOCK_OVERHEAD_FIXED <= need
  {
    BytesAfterLower(lay, d, n, addr);
    BytesAfterRounds(lay, d, n, addr);
  }

  /** What block_split does with aligned lengths: a remainder with room for ALIGNMENT bytes becomes a block. */
  lemma CarveSplits(p: Piece, need: nat)
    requires need <= p.nbytes && Aligned(p.nbytes) && Aligned(need)
    ensures Carve(p, need) ==
      if p.nbytes - need >= AD_BYTES + 2 * GUARD_BYTES + ALIGNMENT then
        (need, [Piece(p.addr + need, p.nbytes - need)])
      else
        (p.nbytes, [])
  {
    AlignedDiff(p.nbytes, need);
    WorthABlock(p.nbytes - need);
  }

  /**
   * The block that MA_allocate_heap returns: on the first free piece that fits, from its start on, and no longer than
   * needed if the rest is worth a block; or else at the heap pointer.
   */
  lemma AllocateChoice(lay: Layout, s: State, d: nat, n: nat)
    requires lay.Valid() && lay.Has(d) && Inv(lay, s)
    ensures match AllocateHeap(lay, s, d, n)
      case None => FirstFit(lay, d, n, s.free) == |s.free| && s.sp - s.hp < BytesAfter(lay, d, n, s.hp)
      case Some((s', b)) =>
        && b.dtype == d && b.nelem == n
        && (var i := FirstFit(lay, d, n, s.free);
            if i < |s.free| then
              var need := BytesAfter(lay, d, n, s.free[i].addr);
              && b.addr == s.free[i].addr
              && b.nbytes == if s.free[i].nbytes - need >= AD_BYTES + 2 * GUARD_BYTES + ALIGNMENT then need
                             else s.free[i].nbytes
            else
              b.addr == s.hp && b.nbytes == BytesAfter(lay, d, n, s.hp))
  {
    hide BytesAfter, ClientAfter, HeapShape, StackInv, IsPow2, FirstFit, Carve, Aligned;
    var i := FirstFit(lay, d, n, s.free);
    if i < |s.free| {
      NeedSound(lay, d, n, s.free[i].addr);
      FreeSound(s, i);
      CarveSplits(s.free[i], NeedAfter(lay, d, n, s.free[i].addr));
    }
  }

  lemma AllocateKeeps(lay: Layout, s: State, d: nat, n: nat)
    requires lay.Valid() && lay.Has(d) && Inv(lay, s)
    ensures match AllocateHeap(lay, s, d, n)
      case None => true
      case Some((s', b)) => Inv(lay, s') && s'.used == [b] + s.used && Placed(lay, b)
  {
    hide BytesAfter, ClientAfter, HeapShape, StackInv, IsPow2, FirstFit;
    NeedSound(lay, d, n, s.hp);
    var i := FirstFit(lay, d, n, s.free);
    if i < |s.free| {
      CarvedKeeps(lay, s, d, n);
    } else if s.hp + BytesAfter(lay, d, n, s.hp) <= s.sp {
      var (s', b) := AllocateHeap(lay, s, d, n).value;
      AlignedFoot(s, b);
      ExtendShape(s, b);
      StackFrame(lay, s, s');
    }
  }

  lemma AlignedFoot(s: State, b: Block)
    requires HeapShape(s) && b.addr == s.hp && Aligned(b.nbytes) && BLOCK_OVERHEAD_FIXED <= b.nbytes
    ensures SoundPiece(b.Foot())
  {
    hide Aligned, Tiling, Gapped;
  }

  /** MA_allocate_heap when some free piece fits. */
  lemma CarvedKeeps(lay: Layout, s: State, d: nat, n: nat)
    requires lay.Valid() && lay.Has(d) && Inv(lay, s) && FirstFit(lay, d, n, s.free) < |s.free|
    ensures AllocateHeap(lay, s, d, n).Some?
    ensures var (s', b) := AllocateHeap(lay, s, d, n).value; Inv(lay, s') && s'.used == [b] + s.used && Placed(lay, b)
  {
    hide BytesAfter, ClientAfter, HeapShape, StackInv, IsPow2, Aligned, FirstFit;
    var i := FirstFit(lay, d, n, s.free);
    var p := s.free[i];
    NeedSound(lay, d, n, p.addr);
    var (s', b) := AllocateHeap(lay, s, d, n).value;
    FreeEnds(s, p);
    FreeSound(s, i);
    CarveSplits(p, NeedAfter(lay, d, n, p.addr));
    CarveShape(s, i, BytesAfter(lay, d, n, p.addr), b, s');
    StackFrame(lay, s, s');
  }

  lemma FreeEnds(s: State, p: Piece)
    requires HeapShape(s) && p in s.free
    ensures p.End() < s.hp
  {
  }

  // ---------- block_free_heap ----------

  /** The heap while p is in neither list: it has just left the used list, or has just been split off. */
  ghost predicate Pending(s: State, p: Piece) {
    && Aligned(s.segment) && Aligned(s.hp) && SoundPiece(p)
    && Elems(s.free) !! Feet(s.used) && p !in s.free && p !in Feet(s.used)
    && Tiling(Elems(s.free) + Feet(s.used) + {p}, s.segment, s.hp)
    && Gapped(s.free) && DistinctAddrs(s.used)
    && (forall q :: q in s.free ==> SoundPiece(q))
    && (forall b :: b in s.used ==> SoundPiece(b.Foot()))
  }

  /** In a tiling that ends with m, every other piece ends at m's start or before. */
  lemma LastIsHighest(S: set<Piece>, lo: nat, m: Piece, q: Piece)
    requires Tiling(S, lo, m.End()) && m in S && q in S && q != m
    ensures q.End() <= m.addr
  {
    assert Apart(q, m);
  }

  /** Cutting the heap back to the rightmost used block. */
  lemma ReclaimCut(s: State, p: Piece)
    requires Pending(s, p) && s.used != []
    ensures var m := Rightmost(s.used); var kept := UpTo(s.free, m.addr);
      && p.addr != m.addr
      && Tiling(Elems(kept) + Feet(s.used) + (if p.addr < m.addr then {p} else {}), s.segment, m.End())
      && Gapped(kept) && (forall q :: q in kept ==> q in s.free) && m.End() <= s.hp
  {
    hide UpTo, Gapped, Aligned;
    var m := Rightmost(s.used);
    var kept := UpTo(s.free, m.addr);
    var S := Elems(s.free) + Feet(s.used) + {p};
    assert m.Foot() in Feet(s.used) && m.Foot() in S && p in S;
    assert Apart(p, m.Foot());
    TilingCut(S, s.segment, s.hp, m.Foot());
    UpToMembers(s.free, m.addr);
    UpToGapped(s.free, m.addr);
    hide Tiling, Rightmost;
    KeptPieces(s.free, s.used, p, m, kept);
  }

  lemma KeptPieces(free: seq<Piece>, used: seq<Block>, p: Piece, m: Block, kept: seq<Piece>)
    requires (forall q :: q in kept <==> q in free && q.addr <= m.addr) && p.addr != m.addr
    requires forall b :: b in used ==> b.addr <= m.addr
    ensures NotAbove(Elems(free) + Feet(used) + {p}, m.addr)
      == Elems(kept) + Feet(used) + (if p.addr < m.addr then {p} else {})
  {
  }

  lemma GappedAscending(l: seq<Piece>)
    requires Gapped(l)
    ensures Ascending(l)
  {
  }

  lemma ReclaimFree(s: State, p: Piece, kept: seq<Piece>, hi: nat)
    requires Gapped(kept) && Elems(kept) !! Feet(s.used) && p !in kept && p !in Feet(s.used)
    requires Tiling(Elems(kept) + Feet(s.used) + {p}, s.segment, hi)
    requires SoundPiece(p) && forall q :: q in kept ==> SoundPiece(q)
    ensures var free := Coalesce(InsertOrdered(p, kept));
      && Tiling(Elems(free) + Feet(s.used), s.segment, hi) && Elems(free) !! Feet(s.used)
      && Gapped(free) && forall q :: q in free ==> SoundPiece(q)
  {
    var S := Elems(kept) + Feet(s.used) + {p};
    forall q | q in kept
      ensures Apart(p, q) && p != q
    {
      assert q in S && p in S;
    }
    assert p in S;
    GappedAscending(kept);
    InsertOrderedSorted(p, kept);
    var l := InsertOrdered(p, kept);
    assert Elems(l) + Feet(s.used) == S;
    CoalesceTiling(l, Feet(s.used), s.segment, hi);
    CoalesceSound(l);
  }

  lemma ReclaimShape(s: State, p: Piece)
    requires Pending(s, p)
    ensures HeapShape(Reclaim(s, p)) && Reclaim(s, p).used == s.used
    ensures Reclaim(s, p).hp <= s.hp
  {
    var s' := Reclaim(s, p);
    if s.used == [] {
      assert Elems(s'.free) + Feet(s'.used) == {};
    } else {
      var m := Rightmost(s.used);
      var kept := UpTo(s.free, m.addr);
      ReclaimCut(s, p);
      if p.addr < m.addr {
        ReclaimFree(s, p, kept, m.End());
      } else {
        assert Elems(kept) + Feet(s.used) + {} == Elems(kept) + Feet(s.used);
      }
      ReclaimedShape(s, s', m);
    }
  }

  lemma ReclaimedShape(s: State, s': State, m: Block)
    requires m in s.used && s' == s.(hp := m.End(), free := s'.free)
    requires Aligned(s.segment) && DistinctAddrs(s.used) && forall b :: b in s.used ==> SoundPiece(b.Foot())
    requires m.End() <= s.hp
    requires Tiling(Elems(s'.free) + Feet(s.used), s.segment, m.End()) && Elems(s'.free) !! Feet(s.used)
    requires Gapped(s'.free) && forall q :: q in s'.free ==> SoundPiece(q)
    ensures HeapShape(s')
  {
    assert m.Foot() in Feet(s.used) && SoundPiece(m.Foot());
    forall q | q in s'.free
      ensures q.End() < s'.hp
    {
      LastIsHighest(Elems(s'.free) + Feet(s.used), s.segment, m.Foot(), q);
    }
  }

  // ---------- MA_free_heap and MA_free_heap_piece ----------

  lemma RemovedMembers(used: seq<Block>, i: nat)
    requires i < |used| && DistinctAddrs(used)
    ensures DistinctAddrs(RemoveAt(used, i))
    ensures forall b :: b in RemoveAt(used, i) <==> b in used && b != used[i]
  {
    var r := RemoveAt(used, i);
    forall b | b in used && b != used[i]
      ensures b in r
    {
      var j :| 0 <= j < |used| && used[j] == b;
      assert r[if j < i then j else j - 1] == b;
    }
  }

  lemma FreePending(s: State, addr: nat)
    requires HeapShape(s) && HasBlock(s.used, addr)
    ensures var i := IndexOf(s.used, addr); var u := RemoveAt(s.used, i);
      Pending(s.(used := u), s.used[i].Foot()) && forall b :: b in u ==> b in s.used
  {
    var i := IndexOf(s.used, addr);
    var p := s.used[i].Foot();
    var u := RemoveAt(s.used, i);
    RemovedMembers(s.used, i);
    assert p in Feet(s.used);
    assert Feet(s.used) == Feet(u) + {p};
    assert Elems(s.free) + Feet(u) + {p} == Elems(s.free) + Feet(s.used);
  }

  lemma FreeKeeps(lay: Layout, s: State, addr: nat)
    requires Inv(lay, s) && HasBlock(s.used, addr)
    ensures Inv(lay, FreeHeap(s, addr))
  {
    var i := IndexOf(s.used, addr);
    FreePending(s, addr);
    ReclaimShape(s.(used := RemoveAt(s.used, i)), s.used[i].Foot());
  }

  lemma ReplacedMembers(used: seq<Block>, i: nat, c: Block)
    requires i < |used| && DistinctAddrs(used) && c.addr == used[i].addr
    ensures DistinctAddrs(used[i := c])
    ensures forall b :: b in used[i := c] <==> b == c || (b in used && b != used[i])
  {
    var r := used[i := c];
    assert r[i] == c;
    forall b | b in used && b != used[i]
      ensures b in r
    {
      var j :| 0 <= j < |used| && used[j] == b;
      assert r[j] == b;
    }
  }

  /** A used block shortened to need bytes leaves the remainder pending. */
  lemma ShortenPending(s: State, i: nat, need: nat)
    requires HeapShape(s) && i < |s.used| && need < s.used[i].nbytes
    requires Aligned(need) && BLOCK_OVERHEAD_FIXED <= need && MINBLOCKSIZE <= s.used[i].nbytes - need
    ensures var b := s.used[i];
      Pending(s.(used := s.used[i := b.(nbytes := need)]), Piece(b.addr + need, b.nbytes - need))
  {
    var b := s.used[i];
    var c, r := b.(nbytes := need), Piece(b.addr + need, b.nbytes - need);
    var u := s.used[i := c];
    var S := Elems(s.free) + Feet(s.used);
    hide Gapped, Aligned, NoHoles, Within;
    ReplacedMembers(s.used, i, c);
    assert b.Foot() in Feet(s.used);
    SplitSound(b.Foot(), need);
    TilingSplit(S, s.segment, s.hp, b.Foot(), need);
    PartIsNew(S, b.Foot(), r);
    PartIsNew(S, b.Foot(), c.Foot());
    FeetReplaced(s.used, i, c);
    assert Elems(s.free) + Feet(u) + {r} == S - {b.Foot()} + {c.Foot(), r};
  }

  lemma FeetReplaced(used: seq<Block>, i: nat, c: Block)
    requires i < |used| && DistinctAddrs(used) && c.addr == used[i].addr
    ensures Feet(used[i := c]) == Feet(used) - {used[i].Foot()} + {c.Foot()}
  {
    FootOnce(used, i);
    ReplacedMembers(used, i, c);
    hide DistinctAddrs;
    var r := used[i := c];
    assert r[i] == c;
    forall p | p in Feet(used) && p != used[i].Foot()
      ensures p in Feet(r)
    {
      var b :| b in used && b.Foot() == p;
      assert b in r;
    }
    forall p | p in Feet(r) && p != c.Foot()
      ensures p in Feet(used) && p != used[i].Foot()
    {
      var b :| b in r && b.Foot() == p;
      assert b in used && b != used[i];
    }
  }

  /** Only one used block has a given footprint. */
  lemma FootOnce(used: seq<Block>, i: nat)
    requires i < |used| && DistinctAddrs(used)
    ensures forall b :: b in used && b.Foot() == used[i].Foot() ==> b == used[i]
  {
  }

  /** Fewer elements of the same datatype at the same address fit in the same block. */
  lemma KeptNeed(lay: Layout, b: Block, kept: nat)
    requires lay.Valid() && Placed(lay, b) && kept <= b.nelem
    ensures var need := BytesAfter(lay, b.dtype, kept, b.addr);
      need <= b.nbytes && Aligned(need) && BLOCK_OVERHEAD_FIXED <= need
  {
    NeedSound(lay, b.dtype, kept, b.addr);
    BytesAfterMonotone(lay, b.dtype, kept, b.nelem, b.addr);
  }

  lemma UsedPlaced(lay: Layout, s: State, i: nat)
    requires Inv(lay, s) && i < |s.used|
    ensures Placed(lay, s.used[i])
  {
  }

  lemma UsedSound(lay: Layout, s: State, i: nat)
    requires Inv(lay, s) && i < |s.used|
    ensures SoundPiece(s.used[i].Foot())
  {
  }

  /** The used block after its last n elements have been freed. */
  function Remaining(lay: Layout, b: Block, n: nat): Block
    requires lay.Valid() && lay.Has(b.dtype) && n < b.nelem
  {
    var need := NeedAfter(lay, b.dtype, b.nelem - n, b.addr);
    if b.nbytes - need >= AD_BYTES + 2 * GUARD_BYTES + ALIGNMENT then b.(nelem := b.nelem - n, nbytes := need)
    else b.(nelem := b.nelem - n)
  }

  /**
   * What MA_free_heap_piece does to the block: it goes if nothing stays, and is shortened to what is still needed if
   * the rest is worth a block.
   */
  lemma FreePieceChoice(lay: Layout, s: State, addr: nat, n: nat)
    requires lay.Valid() && Inv(lay, s) && HasBlock(s.used, addr) && lay.Has(s.used[IndexOf(s.used, addr)].dtype)
    ensures var i := IndexOf(s.used, addr);
      if n >= s.used[i].nelem then FreePiece(lay, s, addr, n).used == s.used[..i] + s.used[i + 1..]
      else FreePiece(lay, s, addr, n).used == s.used[i := Remaining(lay, s.used[i], n)]
  {
    hide BytesAfter, ClientAfter, Inv, Reclaim;
    var i := IndexOf(s.used, addr);
    var b := s.used[i];
    UsedPlaced(lay, s, i);
    UsedSound(lay, s, i);
    if n < b.nelem {
      var need := BytesAfter(lay, b.dtype, b.nelem - n, addr);
      KeptNeed(lay, b, b.nelem - n);
      AlignedDiff(b.nbytes, need);
      WorthABlock(b.nbytes - need);
    }
  }

  /** MA_free_heap_piece keeps the invariant. */
  lemma FreePieceKeeps(lay: Layout, s: State, addr: nat, n: nat)
    requires lay.Valid() && Inv(lay, s) && HasBlock(s.used, addr) && lay.Has(s.used[IndexOf(s.used, addr)].dtype)
    ensures Inv(lay, FreePiece(lay, s, addr, n))
  {
    hide BytesAfter, ClientAfter, Inv, FreeHeap, Shorten;
    var i := IndexOf(s.used, addr);
    var b := s.used[i];
    UsedPlaced(lay, s, i);
    UsedSound(lay, s, i);
    KeptNeed(lay, b, if n < b.nelem then b.nelem - n else 0);
    if n >= b.nelem {
      assert FreePiece(lay, s, addr, n) == FreeHeap(s, addr);
      FreeKeeps(lay, s, addr);
    } else {
      var need := BytesAfter(lay, b.dtype, b.nelem - n, addr);
      AlignedDiff(b.nbytes, need);
      WorthABlock(b.nbytes - need);
      if b.nbytes - need >= MINBLOCKSIZE {
        assert FreePiece(lay, s, addr, n) == Shorten(s, i, need, b.nelem - n);
        FreePieceSplit(lay, s, i, need, b.nelem - n);
      } else {
        assert FreePiece(lay, s, addr, n) == s.(used := s.used[i := b.(nelem := b.nelem - n)]);
        FreePieceInPlace(lay, s, i, b.nelem - n);
      }
    }
  }

  /** The stack invariant does not look at the heap. */
  lemma StackFrame(lay: Layout, s: State, t: State)
    requires StackInv(lay, s) && t.sp == s.sp && t.eos == s.eos && t.stack == s.stack
    ensures StackInv(lay, t)
  {
  }

  lemma FreePieceInPlace(lay: Layout, s: State, i: nat, kept: nat)
    requires Inv(lay, s) && i < |s.used| && Placed(lay, s.used[i].(nelem := kept))
    ensures Inv(lay, s.(used := s.used[i := s.used[i].(nelem := kept)]))
  {
    var c := s.used[i].(nelem := kept);
    var t := s.(used := s.used[i := c]);
    RelabelShape(s, i, c);
    ReplacedPlaced(lay, s, i, c);
    StackFrame(lay, s, t);
  }

  lemma ShortenShape(s: State, i: nat, need: nat, kept: nat)
    requires HeapShape(s) && i < |s.used| && need < s.used[i].nbytes
    requires Aligned(need) && BLOCK_OVERHEAD_FIXED <= need && MINBLOCKSIZE <= s.used[i].nbytes - need
    ensures var t := Shorten(s, i, need, kept);
      && HeapShape(t) && t.hp <= s.hp && t.used == s.used[i := s.used[i].(nbytes := need, nelem := kept)]
  {
    hide Reclaim, HeapShape, Pending;
    var b := s.used[i];
    var cut, r := b.(nbytes := need), Piece(b.addr + need, b.nbytes - need);
    var s0 := s.(used := s.used[i := cut]);
    ShortenPending(s, i, need);
    ReclaimShape(s0, r);
    var s1 := Reclaim(s0, r);
    RelabelShape(s1, i, cut.(nelem := kept));
    assert Shorten(s, i, need, kept) == s1.(used := s1.used[i := cut.(nelem := kept)]);
  }

  lemma FreePieceSplit(lay: Layout, s: State, i: nat, need: nat, kept: nat)
    requires Inv(lay, s) && i < |s.used| && need < s.used[i].nbytes
    requires Placed(lay, s.used[i].(nbytes := need, nelem := kept))
    requires Aligned(need) && BLOCK_OVERHEAD_FIXED <= need && MINBLOCKSIZE <= s.used[i].nbytes - need
    ensures Inv(lay, Shorten(s, i, need, kept))
  {
    var t := Shorten(s, i, need, kept);
    ShortenShape(s, i, need, kept);
    ReplacedPlaced(lay, s, i, s.used[i].(nbytes := need, nelem := kept));
    StackFrame(lay, s, t);
  }

  lemma ReplacedPlaced(lay: Layout, s: State, i: nat, c: Block)
    requires HeapInv(lay, s) && i < |s.used| && Placed(lay, c)
    ensures forall b :: b in s.used[i := c] ==> Placed(lay, b)
  {
  }

  /** Changing only the element count of a used block keeps the shape of the heap. */
  lemma RelabelShape(s: State, i: nat, c: Block)
    requires HeapShape(s) && i < |s.used| && c.Foot() == s.used[i].Foot()
    ensures HeapShape(s.(used := s.used[i := c]))
  {
    ReplacedMembers(s.used, i, c);
    assert c.Foot() in Feet(s.used) by { assert s.used[i] in s.used; }
    FootOnce(s.used, i);
    assert Feet(s.used[i := c]) == Feet(s.used) by {
      forall p | p in Feet(s.used)
        ensures p in Feet(s.used[i := c])
      {
        var b :| b in s.used && b.Foot() == p;
        assert (if b == s.used[i] then c else b) in s.used[i := c];
      }
    }
  }

  // ---------- the stack ----------

  /** The heap invariant does not look at the stack. */
  lemma HeapFrame(lay: Layout, s: State, t: State)
    requires HeapInv(lay, s)
    requires t.segment == s.segment && t.hp == s.hp && t.free == s.free && t.used == s.used
    ensures HeapInv(lay, t)
  {
  }

  lemma PushKeeps(lay: Layout, s: State, d: nat, n: nat)
    requires lay.Valid() && lay.Has(d) && Inv(lay, s)
    ensures match PushStack(lay, s, d, n)
      case None => true
      case Some((s', b)) =>
        Inv(lay, s') && s'.stack == [b] + s.stack && PlacedBefore(lay, b) && b.dtype == d && b.nelem == n
    ensures PushStack(lay, s, d, n).None? <==> s.sp - s.hp < BytesBefore(lay, d, n, s.sp)
  {
    BytesBeforePositive(lay, d, n, s.sp);
    match PushStack(lay, s, d, n)
    case None =>
    case Some((s', b)) =>
      HeapFrame(lay, s, s');
      PushStackInv(lay, s, d, n, b);
  }

  lemma PushStackInv(lay: Layout, s: State, d: nat, n: nat, b: Block)
    requires lay.Valid() && lay.Has(d) && StackInv(lay, s)
    requires PushStack(lay, s, d, n).Some? && PushStack(lay, s, d, n).value.1 == b && 0 < b.nbytes
    ensures StackInv(lay, PushStack(lay, s, d, n).value.0) && PlacedBefore(lay, b)
  {
    BytesBeforeRounds(lay, d, n, s.sp);
    assert b.End() == s.sp;
    assert Aligned(b.addr);
    AlignedDiff(s.sp, b.addr);
    StackCons(lay, s, b);
  }

  lemma AlignedDiff(x: int, y: int)
    requires Aligned(x) && Aligned(y)
    ensures Aligned(x - y)
  {
  }

  lemma StackCons(lay: Layout, s: State, b: Block)
    requires StackInv(lay, s) && PlacedBefore(lay, b) && b.End() == s.sp && 0 < b.nbytes
    ensures StackInv(lay, s.(sp := b.addr, stack := [b] + s.stack))
  {
    assert ([b] + s.stack)[1..] == s.stack;
  }

  lemma PopKeeps(lay: Layout, s: State)
    requires Inv(lay, s) && HasBlock(s.stack, s.sp)
    ensures Inv(lay, PopStack(s)) && IndexOf(s.stack, s.sp) == 0
  {
    HeapFrame(lay, s, PopStack(s));
    PopStackInv(lay, s);
  }

  lemma PopStackInv(lay: Layout, s: State)
    requires StackInv(lay, s) && HasBlock(s.stack, s.sp)
    ensures StackInv(lay, PopStack(s)) && IndexOf(s.stack, s.sp) == 0 && s.sp <= PopStack(s).sp
  {
    hide BytesBefore, ClientBefore;
    var b := s.stack[0];
    assert b.addr == s.sp && PlacedBefore(lay, b);
    AlignedSum(s.sp, b.nbytes);
    hide Aligned;
    assert RemoveAt(s.stack, 0) == s.stack[1..];
  }

  /** Stack addresses ascend from sp, so the blocks pushed after a given one are those in front of it. */
  lemma {:induction false} StackAscends(stack: seq<Block>, sp: nat, eos: nat)
    requires StackTiles(stack, sp, eos)
    ensures sp <= eos && forall b :: b in stack ==> sp <= b.addr < b.End() <= eos
    ensures forall i, j :: 0 <= i < j < |stack| ==> stack[i].End() <= stack[j].addr
  {
    if stack != [] {
      StackAscends(stack[1..], stack[0].End(), eos);
      assert stack == [stack[0]] + stack[1..];
    }
  }

  /** Deleting everything at or below a stack block leaves exactly the blocks pushed before it. */
  lemma {:induction false} AboveIsRest(stack: seq<Block>, sp: nat, eos: nat, k: nat)
    requires StackTiles(stack, sp, eos) && k < |stack|
    ensures Above(stack, stack[k].addr) == stack[k + 1..]
    ensures StackTiles(stack[k + 1..], stack[k].End(), eos)
    decreases k
  {
    StackAscends(stack, sp, eos);
    var rest := stack[1..];
    if k == 0 {
      AboveAll(rest, stack[0].addr);
    } else {
      AboveIsRest(rest, stack[0].End(), eos, k - 1);
      assert rest[k - 1] == stack[k] && rest[k..] == stack[k + 1..];
    }
  }

  lemma {:induction false} AboveAll(stack: seq<Block>, addr: nat)
    requires forall b :: b in stack ==> addr < b.addr
    ensures Above(stack, addr) == stack
  {
    if stack != [] {
      AboveAll(stack[1..], addr);
    }
  }

  lemma ChopKeeps(lay: Layout, s: State, addr: nat)
    requires Inv(lay, s) && HasBlock(s.stack, addr)
    ensures Inv(lay, ChopStack(s, addr))
    ensures ChopStack(s, addr).stack == s.stack[IndexOf(s.stack, addr) + 1..]
  {
    HeapFrame(lay, s, ChopStack(s, addr));
    ChopStackInv(lay, s, addr);
  }

  lemma ChopStackInv(lay: Layout, s: State, addr: nat)
    requires StackInv(lay, s) && HasBlock(s.stack, addr)
    ensures StackInv(lay, ChopStack(s, addr)) && s.sp <= ChopStack(s, addr).sp
    ensures ChopStack(s, addr).stack == s.stack[IndexOf(s.stack, addr) + 1..]
  {
    var k := IndexOf(s.stack, addr);
    AboveIsRest(s.stack, s.sp, s.eos, k);
    StackAscends(s.stack, s.sp, s.eos);
    EndAligned(lay, s.stack[k]);
  }

  lemma EndAligned(lay: Layout, b: Block)
    requires PlacedBefore(lay, b)
    ensures Aligned(b.End())
  {
    hide BytesBefore, ClientBefore;
  }

  // ---------- every run ----------

  lemma InitInv(lay: Layout, segment: nat, heapBytes: nat, stackBytes: nat)
    requires Aligned(segment) && Aligned(heapBytes) && Aligned(stackBytes)
    ensures Inv(lay, Init(segment, heapBytes, stackBytes))
  {
    hide Aligned, Tiling, BytesBefore, ClientBefore, BytesAfter, ClientAfter;
    var s := Init(segment, heapBytes, stackBytes);
    assert Elems(s.free) == {} && Feet(s.used) == {} && Elems(s.free) + Feet(s.used) == {};
    EmptyTiling(segment);
    AlignedSum(segment, heapBytes);
    AlignedSum(segment + heapBytes, stackBytes);
  }

  lemma EmptyTiling(lo: nat)
    ensures Tiling({}, lo, lo)
  {
  }

  /** The calls a client can make; a call whose handle, datatype or count is not acceptable changes nothing. */
  datatype Call =
    | Allocate(d: nat, n: int)
    | Free(addr: nat)
    | FreePart(addr: nat, n: int)
    | Push(d: nat, n: int)
    | Pop(addr: nat)
    | Chop(addr: nat)

  function Step(lay: Layout, s: State, c: Call): State
    requires lay.Valid()
    requires forall b :: b in s.used ==> lay.Has(b.dtype)
  {
    match c
    case Allocate(d, n) =>
      if !lay.Has(d) || n < 0 then s
      else (match AllocateHeap(lay, s, d, n) case None => s case Some((s', _)) => s')
    case Free(addr) => if HasBlock(s.used, addr) then FreeHeap(s, addr) else s
    case FreePart(addr, n) =>
      if HasBlock(s.used, addr) && n >= 0 then
        assert s.used[IndexOf(s.used, addr)] in s.used;
        FreePiece(lay, s, addr, n)
      else s
    case Push(d, n) =>
      if !lay.Has(d) || n < 0 then s
      else (match PushStack(lay, s, d, n) case None => s case Some((s', _)) => s')
    case Pop(addr) => if HasBlock(s.stack, addr) && addr == s.sp then PopStack(s) else s
    case Chop(addr) => if HasBlock(s.stack, addr) then ChopStack(s, addr) else s
  }

  lemma StepKeeps(lay: Layout, s: State, c: Call)
    requires lay.Valid() && Inv(lay, s)
    ensures Inv(lay, Step(lay, s, c))
  {
    match c
    case Allocate(d, n) => if lay.Has(d) && n >= 0 { AllocateKeeps(lay, s, d, n); }
    case Free(addr) => if HasBlock(s.used, addr) { FreeKeeps(lay, s, addr); }
    case FreePart(addr, n) =>
      if HasBlock(s.used, addr) && n >= 0 {
        assert s.used[IndexOf(s.used, addr)] in s.used;
        FreePieceKeeps(lay, s, addr, n);
      }
    case Push(d, n) => if lay.Has(d) && n >= 0 { PushKeeps(lay, s, d, n); }
    case Pop(addr) => if HasBlock(s.stack, addr) && addr == s.sp { PopKeeps(lay, s); }
    case Chop(addr) => if HasBlock(s.stack, addr) { ChopKeeps(lay, s, addr); }
  }

  /** The states a run of calls passes through after MA_init. */
  ghost predicate Reachable(lay: Layout, s: State, calls: seq<Call>, t: State)
    requires lay.Valid()
    decreases |calls|
  {
    if calls == [] then t == s
    else (forall b :: b in s.used ==> lay.Has(b.dtype)) && Reachable(lay, Step(lay, s, calls[0]), calls[1..], t)
  }

  lemma {:induction false} ReachableKeeps(lay: Layout, s: State, calls: seq<Call>, t: State)
    requires lay.Valid() && Inv(lay, s) && Reachable(lay, s, calls, t)
    ensures Inv(lay, t)
    decreases |calls|
  {
    if calls != [] {
      StepKeeps(lay, s, calls[0]);
      ReachableKeeps(lay, Step(lay, s, calls[0]), calls[1..], t);
    }
  }

  /** p contains byte x, and no other piece does. */
  ghost predicate Owns(S: set<Piece>, x: int, p: Piece) {
    p in S && p.addr <= x < p.End() && forall q :: q in S && q.addr <= x < q.End() ==> q == p
  }

  /** Exactly one piece contains byte x. */
  ghost predicate OwnedOnce(S: set<Piece>, x: int) {
    exists p :: Owns(S, x, p)
  }

  /**
   * After any run from MA_init: the heap and stack regions do not meet, every byte of either lies in exactly one
   * block, all blocks are aligned, the free list ascends with no two members touching, and the block that ends at the
   * heap pointer, if any, is in use.
   */
  lemma EveryRunTiles(lay: Layout, segment: nat, heapBytes: nat, stackBytes: nat, calls: seq<Call>, t: State)
    requires lay.Valid() && Aligned(segment) && Aligned(heapBytes) && Aligned(stackBytes)
    requires Reachable(lay, Init(segment, heapBytes, stackBytes), calls, t)
    ensures t.hp <= t.sp
    ensures forall i, j :: 0 <= i < j < |t.free| ==> t.free[i].End() < t.free[j].addr
    ensures forall x :: t.segment <= x < t.hp ==> OwnedOnce(Elems(t.free) + Feet(t.used), x)
    ensures forall p :: p in t.free ==> p !in Feet(t.used)
    ensures t.segment < t.hp ==> exists b :: b in t.used && b.End() == t.hp
    ensures forall x :: t.sp <= x < t.eos ==> OwnedOnce(Feet(t.stack), x)
    ensures forall p :: p in Elems(t.free) + Feet(t.used) + Feet(t.stack) ==> Aligned(p.addr) && Aligned(p.nbytes)
  {
    InitInv(lay, segment, heapBytes, stackBytes);
    ReachableKeeps(lay, Init(segment, heapBytes, stackBytes), calls, t);
    ShapeOwns(t);
    StackOwns(t.stack, t.sp, t.eos);
    AllAligned(lay, t);
  }

  lemma AllAligned(lay: Layout, t: State)
    requires Inv(lay, t)
    ensures forall p :: p in Elems(t.free) + Feet(t.used) + Feet(t.stack) ==> Aligned(p.addr) && Aligned(p.nbytes)
  {
    hide Aligned, BytesBefore, ClientBefore, BytesAfter, ClientAfter, Tiling, Gapped;
    assert forall b :: b in t.stack ==> PlacedBefore(lay, b);
    assert forall b :: b in t.used ==> SoundPiece(b.Foot());
  }

  /** The stack blocks own the bytes of the stack region. */
  lemma {:induction false} StackOwns(stack: seq<Block>, sp: nat, eos: nat)
    requires StackTiles(stack, sp, eos)
    ensures forall x :: sp <= x < eos ==> OwnedOnce(Feet(stack), x)
  {
    if stack != [] {
      var rest := stack[1..];
      StackOwns(rest, stack[0].End(), eos);
      StackAscends(stack, sp, eos);
      StackAscends(rest, stack[0].End(), eos);
      assert stack == [stack[0]] + rest;
      FeetCons(stack[0], rest);
      forall x | sp <= x < eos
        ensures OwnedOnce(Feet(stack), x)
      {
        OwnedOneMore(Feet(rest), stack[0].Foot(), x);
      }
    }
  }

  lemma FeetCons(b: Block, rest: seq<Block>)
    ensures Feet([b] + rest) == {b.Foot()} + Feet(rest)
  {
  }

  lemma OwnedOneMore(S: set<Piece>, p: Piece, x: int)
    requires (forall q :: q in S ==> p.End() <= q.addr) && p.addr <= x
    requires p.End() <= x ==> OwnedOnce(S, x)
    ensures OwnedOnce({p} + S, x)
  {
    var T := {p} + S;
    if x < p.End() {
      assert Owns(T, x, p);
    } else {
      var q :| Owns(S, x, q);
      assert Owns(T, x, q);
    }
  }

  lemma ShapeOwns(t: State)
    requires HeapShape(t)
    ensures forall x :: t.segment <= x < t.hp ==> OwnedOnce(Elems(t.free) + Feet(t.used), x)
    ensures t.segment < t.hp ==> exists b :: b in t.used && b.End() == t.hp
  {
    var S := Elems(t.free) + Feet(t.used);
    forall x | t.segment <= x < t.hp
      ensures OwnedOnce(S, x)
    {
      var p := TilingCovers(S, t.segment, t.hp, x);
      assert Owns(S, x, p);
    }
    if t.segment < t.hp {
      var p := TilingCovers(S, t.segment, t.hp, t.hp - 1);
      assert p in Feet(t.used);
    }
  }
}
