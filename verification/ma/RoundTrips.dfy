/** Calls that undo each other, and calls that amount to several others. */
module RoundTrips {
  import opened Options
  import opened Placement
  import opened Arena
  import opened Tilings
  import opened FreeLists
  import opened Invariant

  // ---------- the heap is determined by its used blocks ----------

  lemma PieceHasBytes(l: seq<Piece>, T: set<Piece>, lo: nat, hi: nat)
    requires l != [] && Tiling(Elems(l) + T, lo, hi)
    ensures lo < hi
  {
    assert l[0] in Elems(l) + T;
  }

  /** A heap without used blocks is empty. */
  lemma NoBlocksNoHeap(s: State)
    requires HeapShape(s) && s.used == []
    ensures s.hp == s.segment && s.free == []
  {
    ShapeOwns(s);
    if s.free != [] { PieceHasBytes(s.free, Feet(s.used), s.segment, s.hp); }
  }

  /** The rightmost used block ends the heap. */
  lemma RightmostEnds(s: State)
    requires HeapShape(s) && s.used != []
    ensures Rightmost(s.used).End() == s.hp
  {
    var m := Rightmost(s.used);
    ShapeOwns(s);
    assert m.Foot() in Feet(s.used);
    var b :| b in s.used && b.End() == s.hp;
    assert b.Foot() in Feet(s.used);
    assert Apart(b.Foot(), m.Foot());
  }

  /** The free piece that starts at or before x, when x is free: no used block holds x. */
  lemma FreeOwner(F: set<Piece>, U: set<Piece>, lo: nat, hi: nat, x: nat) returns (p: Piece)
    requires Tiling(F + U, lo, hi) && lo <= x < hi
    requires forall u :: u in U ==> !(u.addr <= x < u.End())
    ensures p in F && p.addr <= x < p.End()
  {
    p := TilingCovers(F + U, lo, hi, x);
  }

  /** A byte of a free piece is in no used block. */
  lemma FreeByte(F: set<Piece>, U: set<Piece>, p: Piece, x: nat)
    requires Disjoint(F + U) && F !! U && p in F && p.addr <= x < p.End()
    ensures forall u :: u in U ==> !(u.addr <= x < u.End())
  {
    forall u | u in U
      ensures !(u.addr <= x < u.End())
    {
      assert Apart(p, u);
    }
  }

  lemma GappedNeighbours(l: seq<Piece>, p: Piece, q: Piece)
    requires Gapped(l) && p in l && q in l && p.addr < q.addr
    ensures p.End() < q.addr
  {
    var i :| 0 <= i < |l| && l[i] == p;
    var j :| 0 <= j < |l| && l[j] == q;
  }

  /** Two fully coalesced free lists around the same used blocks: where their pieces overlap, one contains the other. */
  lemma OverlapContains(k: seq<Piece>, l: seq<Piece>, U: set<Piece>, lo: nat, hi: nat, p: Piece, q: Piece, x: nat)
    requires Gapped(k) && Elems(k) !! U && Tiling(Elems(k) + U, lo, hi)
    requires Elems(l) !! U && Tiling(Elems(l) + U, lo, hi)
    requires p in k && q in l && p.addr <= x < p.End() && q.addr <= x < q.End()
    ensures p.addr <= q.addr && q.End() <= p.End()
  {
    assert p in Elems(k) && q in Elems(l);
    if q.addr < p.addr {
      FreeByte(Elems(l), U, q, p.addr - 1);
      var r := FreeOwner(Elems(k), U, lo, hi, p.addr - 1);
      GappedNeighbours(k, r, p);
    }
    if p.End() < q.End() {
      FreeByte(Elems(l), U, q, p.End());
      var r := FreeOwner(Elems(k), U, lo, hi, p.End());
      GappedNeighbours(k, p, r);
    }
  }

  lemma SameFreeMember(k: seq<Piece>, l: seq<Piece>, U: set<Piece>, lo: nat, hi: nat, p: Piece)
    requires Gapped(k) && Elems(k) !! U && Tiling(Elems(k) + U, lo, hi)
    requires Gapped(l) && Elems(l) !! U && Tiling(Elems(l) + U, lo, hi)
    requires p in k
    ensures p in l
  {
    assert p in Elems(k);
    FreeByte(Elems(k), U, p, p.addr);
    var q := FreeOwner(Elems(l), U, lo, hi, p.addr);
    OverlapContains(k, l, U, lo, hi, p, q, p.addr);
    OverlapContains(l, k, U, lo, hi, q, p, p.addr);
  }

  lemma HasMember(l: seq<Piece>)
    requires l != []
    ensures exists p :: p in l
  {
    assert l[0] in l;
  }

  /** Ascending lists with the same members are equal. */
  lemma {:induction false} GappedUnique(k: seq<Piece>, l: seq<Piece>)
    requires Gapped(k) && Gapped(l) && forall p :: p in k <==> p in l
    ensures k == l
  {
    if k == [] || l == [] {
      if k != [] { HasMember(k); }
      if l != [] { HasMember(l); }
    } else {
      GappedFirst(k);
      GappedFirst(l);
      assert k[0] in l && l[0] in k;
      assert k[0] == l[0];
      GappedRest(k);
      GappedRest(l);
      GappedUnique(k[1..], l[1..]);
    }
  }

  lemma GappedRest(k: seq<Piece>)
    requires Gapped(k) && k != []
    ensures Gapped(k[1..]) && forall p :: p in k[1..] <==> p in k && p != k[0]
  {
    assert k == [k[0]] + k[1..];
    GappedParts([k[0]], k[1..]);
    assert k[0] in [k[0]];
  }

  /**
   * The heap does not remember its history: the used blocks alone determine the heap pointer and
   * the free list, whatever calls led there.
   */
  lemma HeapIsCanonical(s: State, t: State)
    requires HeapShape(s) && HeapShape(t) && s.segment == t.segment && s.used == t.used
    ensures s.hp == t.hp && s.free == t.free
  {
    if s.used == [] {
      NoBlocksNoHeap(s);
      NoBlocksNoHeap(t);
    } else {
      RightmostEnds(s);
      RightmostEnds(t);
      var U := Feet(s.used);
      forall p
        ensures p in s.free <==> p in t.free
      {
        if p in s.free { SameFreeMember(s.free, t.free, U, s.segment, s.hp, p); }
        if p in t.free { SameFreeMember(t.free, s.free, U, s.segment, s.hp, p); }
      }
      GappedUnique(s.free, t.free);
    }
  }

  // ---------- consequences for sequences of calls ----------

  lemma FreeHeapKeepsRest(s: State, addr: nat)
    requires HasBlock(s.used, addr)
    ensures var t := FreeHeap(s, addr);
      t == s.(hp := t.hp, free := t.free, used := RemoveAt(s.used, IndexOf(s.used, addr)))
  {
  }

  lemma AllocateHead(lay: Layout, s: State, d: nat, n: nat)
    requires lay.Valid() && lay.Has(d) && AllocateHeap(lay, s, d, n).Some?
    ensures var (s', b) := AllocateHeap(lay, s, d, n).value;
      && s'.used == [b] + s.used && HasBlock(s'.used, b.addr) && IndexOf(s'.used, b.addr) == 0
      && s' == s.(used := s'.used, free := s'.free, hp := s'.hp)
  {
    hide BytesAfter, ClientAfter;
    var (s', b) := AllocateHeap(lay, s, d, n).value;
    assert s'.used[0] == b;
  }

  /** Freeing the block just allocated restores the heap to the last detail. */
  lemma FreeUndoesAllocate(lay: Layout, s: State, d: nat, n: nat)
    requires lay.Valid() && lay.Has(d) && Inv(lay, s)
    ensures match AllocateHeap(lay, s, d, n)
      case None => true
      case Some((s', b)) => HasBlock(s'.used, b.addr) && FreeHeap(s', b.addr) == s
  {
    var r := AllocateHeap(lay, s, d, n);
    if r.Some? {
      var (s', b) := r.value;
      AllocateKeeps(lay, s, d, n);
      AllocateHead(lay, s, d, n);
      FreeKeeps(lay, s', b.addr);
      FreeHeapKeepsRest(s', b.addr);
      assert RemoveAt(s'.used, 0) == s.used;
      HeapIsCanonical(s, FreeHeap(s', b.addr));
    }
  }

  /** Two blocks can be freed in either order. */
  lemma FreesCommute(lay: Layout, s: State, a: nat, b: nat)
    requires Inv(lay, s) && HasBlock(s.used, a) && HasBlock(s.used, b) && a != b
    ensures HasBlock(FreeHeap(s, a).used, b) && HasBlock(FreeHeap(s, b).used, a)
    ensures FreeHeap(FreeHeap(s, a), b) == FreeHeap(FreeHeap(s, b), a)
  {
    hide Inv, FreeHeap;
    var sa, sb := FreeHeap(s, a), FreeHeap(s, b);
    FreeHeapKeepsRest(s, a);
    FreeHeapKeepsRest(s, b);
    UsedDistinct(lay, s);
    RemoveTwice(s.used, a, b);
    FreeKeeps(lay, s, a);
    FreeKeeps(lay, s, b);
    FreeHeapKeepsRest(sa, b);
    FreeHeapKeepsRest(sb, a);
    FreeKeeps(lay, sa, b);
    FreeKeeps(lay, sb, a);
    InvShape(lay, FreeHeap(sa, b));
    InvShape(lay, FreeHeap(sb, a));
    HeapIsCanonical(FreeHeap(sa, b), FreeHeap(sb, a));
  }

  lemma UsedDistinct(lay: Layout, s: State)
    requires Inv(lay, s)
    ensures DistinctAddrs(s.used)
  {
  }

  lemma IndexUnique(blocks: seq<Block>, i: nat)
    requires DistinctAddrs(blocks) && i < |blocks|
    ensures HasBlock(blocks, blocks[i].addr) && IndexOf(blocks, blocks[i].addr) == i
  {
  }

  lemma RemoveTwice(u: seq<Block>, a: nat, b: nat)
    requires DistinctAddrs(u) && HasBlock(u, a) && HasBlock(u, b) && a != b
    ensures var ua, ub := RemoveAt(u, IndexOf(u, a)), RemoveAt(u, IndexOf(u, b));
      && HasBlock(ua, b) && HasBlock(ub, a)
      && RemoveAt(ua, IndexOf(ua, b)) == RemoveAt(ub, IndexOf(ub, a))
  {
    if IndexOf(u, a) < IndexOf(u, b) {
      RemoveTwiceOrdered(u, IndexOf(u, a), IndexOf(u, b));
    } else {
      RemoveTwiceOrdered(u, IndexOf(u, b), IndexOf(u, a));
    }
  }

  lemma RemoveTwiceOrdered(u: seq<Block>, i: nat, j: nat)
    requires DistinctAddrs(u) && i < j < |u|
    ensures var ui, uj := RemoveAt(u, i), RemoveAt(u, j);
      && HasBlock(ui, u[j].addr) && HasBlock(uj, u[i].addr)
      && RemoveAt(ui, IndexOf(ui, u[j].addr)) == RemoveAt(uj, IndexOf(uj, u[i].addr))
  {
    var ui, uj := RemoveAt(u, i), RemoveAt(u, j);
    RemovedMembers(u, i);
    RemovedMembers(u, j);
    assert ui[j - 1] == u[j] && uj[i] == u[i];
    IndexUnique(ui, j - 1);
    IndexUnique(uj, i);
    assert RemoveAt(ui, j - 1) == RemoveAt(uj, i);
  }

  /** Giving back part of a block and then the block ends like freeing the block at once. */
  lemma PieceThenFree(lay: Layout, s: State, addr: nat, n: nat)
    requires lay.Valid() && Inv(lay, s) && HasBlock(s.used, addr) && lay.Has(s.used[IndexOf(s.used, addr)].dtype)
    requires n < s.used[IndexOf(s.used, addr)].nelem
    ensures HasBlock(FreePiece(lay, s, addr, n).used, addr)
    ensures FreeHeap(FreePiece(lay, s, addr, n), addr) == FreeHeap(s, addr)
  {
    hide Inv, FreeHeap, BytesAfter;
    var i := IndexOf(s.used, addr);
    var t := FreePiece(lay, s, addr, n);
    UsedDistinct(lay, s);
    FreePieceRest(lay, s, addr, n);
    FreePieceKeeps(lay, s, addr, n);
    ReplacedMembers(s.used, i, t.used[i]);
    IndexUnique(t.used, i);
    FreeHeapKeepsRest(s, addr);
    FreeHeapKeepsRest(t, addr);
    assert RemoveAt(t.used, i) == RemoveAt(s.used, i);
    FreeKeeps(lay, s, addr);
    FreeKeeps(lay, t, addr);
    InvShape(lay, FreeHeap(s, addr));
    InvShape(lay, FreeHeap(t, addr));
    HeapIsCanonical(FreeHeap(s, addr), FreeHeap(t, addr));
  }

  /** MA_free_heap_piece changes one used block, keeps its address and client space, and sets its element count. */
  lemma FreePieceRest(lay: Layout, s: State, addr: nat, n: nat)
    requires lay.Valid() && HasBlock(s.used, addr) && lay.Has(s.used[IndexOf(s.used, addr)].dtype)
    requires n < s.used[IndexOf(s.used, addr)].nelem
    ensures var i := IndexOf(s.used, addr); var t := FreePiece(lay, s, addr, n);
      && t == s.(hp := t.hp, free := t.free, used := t.used) && |t.used| == |s.used|
      && t.used == s.used[i := s.used[i].(nelem := s.used[i].nelem - n, nbytes := t.used[i].nbytes)]
  {
    hide BytesAfter;
  }

  // ---------- popping undoes pushing ----------

  lemma PopUndoesPush(lay: Layout, s: State, d: nat, n: nat)
    requires lay.Valid() && lay.Has(d)
    ensures match PushStack(lay, s, d, n)
      case None => true
      case Some((s', b)) => s'.sp == b.addr && HasBlock(s'.stack, b.addr) && PopStack(s') == s
  {
    hide BytesBefore, ClientBefore;
    match PushStack(lay, s, d, n)
    case None =>
    case Some((s', b)) =>
      assert s'.stack[0] == b && RemoveAt(s'.stack, 0) == s.stack;
  }

  // ---------- chopping is repeated popping ----------

  /** k pops in a row. */
  function Pops(s: State, k: nat): State
    requires k <= |s.stack| && StackTiles(s.stack, s.sp, s.eos)
    decreases k
  {
    if k == 0 then s
    else
      PopFront(s);
      Pops(PopStack(s), k - 1)
  }

  lemma PopFront(s: State)
    requires s.stack != [] && StackTiles(s.stack, s.sp, s.eos)
    ensures HasBlock(s.stack, s.sp)
    ensures PopStack(s) == s.(stack := s.stack[1..], sp := s.stack[0].End())
  {
    assert s.stack[0].addr == s.sp;
    assert RemoveAt(s.stack, 0) == s.stack[1..];
  }

  lemma {:induction false} PopsDrop(s: State, k: nat)
    requires 0 < k <= |s.stack| && StackTiles(s.stack, s.sp, s.eos)
    ensures Pops(s, k) == s.(stack := s.stack[k..], sp := s.stack[k - 1].End())
    decreases k
  {
    PopFront(s);
    if k > 1 {
      PopsDrop(PopStack(s), k - 1);
      assert s.stack[1..][k - 1..] == s.stack[k..];
    }
  }

  /** MA_chop_stack does what MA_pop_stack does when repeated until the given block has been popped. */
  lemma ChopIsPops(lay: Layout, s: State, addr: nat)
    requires Inv(lay, s) && HasBlock(s.stack, addr)
    ensures ChopStack(s, addr) == Pops(s, IndexOf(s.stack, addr) + 1)
  {
    InvTiles(lay, s);
    hide Inv, StackTiles, Pops;
    var k := IndexOf(s.stack, addr);
    AboveIsRest(s.stack, s.sp, s.eos, k);
    PopsDrop(s, k + 1);
  }

  lemma InvTiles(lay: Layout, s: State)
    requires Inv(lay, s)
    ensures StackTiles(s.stack, s.sp, s.eos)
  {
  }

  // ---------- no byte is lost ----------

  function Total(l: seq<Piece>): nat {
    if l == [] then 0 else l[0].nbytes + Total(l[1..])
  }

  lemma {:induction false} TotalRemove(l: seq<Piece>, i: nat)
    requires i < |l|
    ensures Total(l) == l[i].nbytes + Total(RemoveAt(l, i))
  {
    if i > 0 {
      TotalRemove(l[1..], i - 1);
      assert RemoveAt(l, i)[1..] == RemoveAt(l[1..], i - 1);
    }
    else {
      assert RemoveAt(l, 0) == l[1..];
    }
  }

  ghost predicate Distinct(l: seq<Piece>) {
    forall i, j :: 0 <= i < j < |l| ==> l[i] != l[j]
  }

  lemma TilingDropFirst(S: set<Piece>, lo: nat, hi: nat, p: Piece)
    requires Tiling(S, lo, hi) && p in S && p.addr == lo
    ensures Tiling(S - {p}, p.End(), hi)
  {
    var T := S - {p};
    forall q | q in T
      ensures p.End() <= q.addr
    {
      assert Apart(p, q);
    }
    assert Followed(S, p, hi);
    forall x | StartsAt(S, x) && x != lo
      ensures StartsAt(T, x)
    {
      var q :| q in S && q.addr == x;
      assert q in T;
    }
    forall q | q in T
      ensures Followed(T, q, hi)
    {
      assert Followed(S, q, hi);
    }
    forall q, r | q in T && r in T
      ensures Apart(q, r)
    {
    }
  }

  /** The lengths of the pieces of a tiling add up to the length of the region. */
  lemma {:induction false} TilingTotal(l: seq<Piece>, lo: nat, hi: nat)
    requires Distinct(l) && Tiling(Elems(l), lo, hi)
    ensures Total(l) == hi - lo
    decreases |l|
  {
    if lo == hi {
      if l != [] { assert Elems(l) == Elems(l) + {}; PieceHasBytes(l, {}, lo, hi); }
    } else {
      var p :| p in Elems(l) && p.addr == lo;
      var i :| 0 <= i < |l| && l[i] == p;
      var r := RemoveAt(l, i);
      TilingDropFirst(Elems(l), lo, hi, p);
      RemovedPieces(l, i);
      TotalRemove(l, i);
      TilingTotal(r, p.End(), hi);
    }
  }

  lemma RemovedPieces(l: seq<Piece>, i: nat)
    requires i < |l| && Distinct(l)
    ensures Distinct(RemoveAt(l, i)) && Elems(RemoveAt(l, i)) == Elems(l) - {l[i]}
  {
    var r := RemoveAt(l, i);
    forall p | p in l && p != l[i]
      ensures p in r
    {
      var j :| 0 <= j < |l| && l[j] == p;
      assert r[if j < i then j else j - 1] == p;
    }
  }

  function FeetSeq(used: seq<Block>): (l: seq<Piece>)
    ensures |l| == |used| && forall i :: 0 <= i < |used| ==> l[i] == used[i].Foot()
  {
    if used == [] then [] else [used[0].Foot()] + FeetSeq(used[1..])
  }

  lemma {:induction false} TotalAppend(a: seq<Piece>, b: seq<Piece>)
    ensures Total(a + b) == Total(a) + Total(b)
  {
    if a == [] {
      assert a + b == b;
    } else {
      assert (a + b)[1..] == a[1..] + b;
      TotalAppend(a[1..], b);
    }
  }

  /** In every state the free and the used bytes together make up the whole heap region. */
  lemma BytesConserved(lay: Layout, s: State)
    requires Inv(lay, s)
    ensures Total(s.free) + Total(FeetSeq(s.used)) == s.hp - s.segment
  {
    hide FeetSeq, Tiling, Aligned, Total, Placed;
    var l := s.free + FeetSeq(s.used);
    FeetSeqElems(s.used);
    assert Elems(l) == Elems(s.free) + Feet(s.used);
    DistinctPieces(s);
    TilingTotal(l, s.segment, s.hp);
    TotalAppend(s.free, FeetSeq(s.used));
  }

  lemma FeetSeqElems(used: seq<Block>)
    ensures Elems(FeetSeq(used)) == Feet(used)
  {
    forall p | p in Feet(used)
      ensures p in FeetSeq(used)
    {
      var b :| b in used && b.Foot() == p;
      var i :| 0 <= i < |used| && used[i] == b;
      assert FeetSeq(used)[i] == p;
    }
  }

  lemma DistinctPieces(s: State)
    requires HeapShape(s)
    ensures Distinct(s.free + FeetSeq(s.used))
  {
    hide FeetSeq, Tiling, Aligned;
    var l := s.free + FeetSeq(s.used);
    forall i, j | 0 <= i < j < |l|
      ensures l[i] != l[j]
    {
      if i < |s.free| <= j {
        assert l[i] in Elems(s.free);
        assert s.used[j - |s.free|] in s.used && l[j] in Feet(s.used);
      } else if j < |s.free| {
        assert l[i] == s.free[i] && l[j] == s.free[j] && s.free[i] in s.free;
      }
    }
  }
}
