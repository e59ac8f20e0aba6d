/**
 * A view of the allocator: memory, the globals, and the addresses on the three lists. What makes a view
 * good, which abstract state it stands for, and which changes to memory leave a live block intact.
 */
module Views {
  import opened Arithmetic
  import opened Placement
  import opened Arena
  import opened Tilings
  import opened FreeLists
  import opened Invariant
  import opened Memory

  datatype View = View(
    m: Mem, segment: nat, partition: nat, eos: nat, hp: nat, sp: nat,
    hfree: nat, hused: nat, sused: nat, F: seq<nat>, U: seq<nat>, K: seq<nat>)

  function BlockAt(ads: map<nat, AD>, x: nat): Block
    requires x in ads
  {
    Block(x, ads[x].nbytes, ads[x].dtype, ads[x].nelem, ads[x].client)
  }

  function BlocksOf(ads: map<nat, AD>, s: seq<nat>): (l: seq<Block>)
    requires forall x :: x in s ==> x in ads
    ensures |l| == |s| && forall i :: 0 <= i < |s| ==> l[i] == BlockAt(ads, s[i])
  {
    if s == [] then [] else [BlockAt(ads, s[0])] + BlocksOf(ads, s[1..])
  }

  ghost predicate Listed(v: View) {
    && (forall x :: x in v.F ==> x in v.m.ads)
    && (forall x :: x in v.U ==> x in v.m.ads)
    && (forall x :: x in v.K ==> x in v.m.ads)
  }

  function AbsOf(v: View): State
    requires Listed(v)
  {
    State(v.segment, v.partition, v.eos, v.hp, v.sp,
      PiecesOf(v.m.ads, v.F), BlocksOf(v.m.ads, v.U), BlocksOf(v.m.ads, v.K))
  }

  ghost function Descs(v: View): set<nat> {
    AddrSet(v.F) + AddrSet(v.U) + AddrSet(v.K)
  }

  ghost function Live(v: View): set<nat> {
    AddrSet(v.U) + AddrSet(v.K)
  }

  ghost predicate Chained(v: View) {
    Chain(v.m.ads, v.hfree, v.F) && Chain(v.m.ads, v.hused, v.U) && Chain(v.m.ads, v.sused, v.K)
  }

  /** checksum() of an AD: every field except name, next and checksum, in unsigned arithmetic. */
  function Checksum(ad: AD): nat {
    Wrap(ad.dtype + ad.nelem + ad.client + ad.nbytes)
  }

  function Guard2At(lay: Layout, ad: AD): int
    requires lay.Has(ad.dtype)
  {
    ad.client + ad.nelem * lay.size[ad.dtype]
  }

  /** The checks mh2ad makes on a descriptor: checksum, and both guard words. */
  predicate Sealed(lay: Layout, ad: AD, guards: map<int, nat>) {
    && lay.Has(ad.dtype)
    && ad.checksum == Checksum(ad)
    && ad.client - GUARD_BYTES in guards && guards[ad.client - GUARD_BYTES] == GUARD1
    && Guard2At(lay, ad) in guards && guards[Guard2At(lay, ad)] == GUARD2
  }

  predicate Intact(lay: Layout, m: Mem, x: nat) {
    x in m.ads && Sealed(lay, m.ads[x], m.guards)
  }

  /** x and y are less than the number of words apart. */
  predicate Near(x: int, y: int) {
    x - y < TWO64 && y - x < TWO64
  }

  lemma WrapApart(x: int, y: int)
    requires Near(x, y)
    ensures x != y <==> Wrap(x) != Wrap(y)
  {
    if x < y && x % TWO64 == y % TWO64 {
      ModGap(x, y, TWO64);
    } else if y < x && x % TWO64 == y % TWO64 {
      ModGap(y, x, TWO64);
    }
  }

  /** Descriptors that differ in exactly one of the fields that the checksum covers, each of them a 64-bit word. */
  predicate OneFieldChanged(a: AD, b: AD) {
    && a.checksum == b.checksum
    && Near(a.dtype, b.dtype) && Near(a.nelem, b.nelem) && Near(a.client, b.client) && Near(a.nbytes, b.nbytes)
    && (if a.dtype != b.dtype then 1 else 0) + (if a.nelem != b.nelem then 1 else 0)
       + (if a.client != b.client then 1 else 0) + (if a.nbytes != b.nbytes then 1 else 0) == 1
  }

  /** The checks of mh2ad notice every change of a single field, and every change of a guard word. */
  lemma DamageShows(lay: Layout, a: AD, b: AD, guards: map<int, nat>, at: int, word: nat)
    requires Sealed(lay, a, guards)
    ensures OneFieldChanged(a, b) ==> !Sealed(lay, b, guards)
    ensures at == a.client - GUARD_BYTES && word != 0xaaaaaaaa ==> !Sealed(lay, a, guards[at := word])
    ensures at == a.client + a.nelem * lay.size[a.dtype] && word != 0x55555555 ==> !Sealed(lay, a, guards[at := word])
  {
    if OneFieldChanged(a, b) {
      WrapApart(a.dtype + a.nelem + a.client + a.nbytes, b.dtype + b.nelem + b.client + b.nbytes);
    }
  }

  /** Links are not covered. */
  lemma LinksDoNotCount(lay: Layout, a: AD, next: nat, guards: map<int, nat>)
    ensures Sealed(lay, a.(next := next), guards) <==> Sealed(lay, a, guards)
  {
  }

  ghost predicate Good(lay: Layout, v: View) {
    && lay.Valid() && 0 < v.segment && Chained(v) && Listed(v)
    && Inv(lay, AbsOf(v))
    && forall x :: x in Live(v) ==> Intact(lay, v.m, x)
  }

  /** A good view, except that used blocks may be longer or shorter than their requests ask for. */
  ghost predicate Shaped(lay: Layout, v: View) {
    lay.Valid() && 0 < v.segment && Chained(v) && Listed(v) && ShapeInv(lay, AbsOf(v))
  }

  lemma GoodShaped(lay: Layout, v: View)
    requires Good(lay, v)
    ensures Shaped(lay, v)
  {
  }

  // ---------- extents ----------

  /** The blocks headed by the descriptors in D are big enough for a descriptor and two guards, and disjoint. */
  ghost predicate Spread(ads: map<nat, AD>, D: set<nat>) {
    && D <= ads.Keys
    && (forall x :: x in D ==> BLOCK_OVERHEAD_FIXED <= ads[x].nbytes)
    && (forall x, y :: x in D && y in D && x < y ==> x + ads[x].nbytes <= y)
  }

  lemma SpreadSeparate(ads: map<nat, AD>, D: set<nat>)
    requires Spread(ads, D)
    ensures Separate(D) && D <= ads.Keys
  {
  }

  lemma BodyClear(ads: map<nat, AD>, D: set<nat>, x: nat)
    requires Spread(ads, D) && x in D
    ensures Clear(D, x + AD_BYTES, x + ads[x].nbytes)
  {
  }

  function PieceAt(ads: map<nat, AD>, x: nat): Piece
    requires x in ads
  {
    Piece(x, ads[x].nbytes)
  }

  lemma HeapMember(v: View, x: nat)
    requires Listed(v) && HeapShape(AbsOf(v)) && (x in v.F || x in v.U)
    ensures x in v.m.ads && PieceAt(v.m.ads, x) in Elems(AbsOf(v).free) + Feet(AbsOf(v).used)
    ensures SoundPiece(PieceAt(v.m.ads, x)) && x + v.m.ads[x].nbytes <= v.hp
    ensures x in v.F ==> PieceAt(v.m.ads, x) in AbsOf(v).free
    ensures x in v.U ==> BlockAt(v.m.ads, x) in AbsOf(v).used
  {
    var s := AbsOf(v);
    if x in v.F {
      var i :| 0 <= i < |v.F| && v.F[i] == x;
      assert s.free[i] == PieceAt(v.m.ads, x);
    }
    if x in v.U {
      var i :| 0 <= i < |v.U| && v.U[i] == x;
      assert s.used[i] == BlockAt(v.m.ads, x);
      assert s.used[i].Foot() in Feet(s.used);
    }
  }

  lemma StackMember(lay: Layout, v: View, x: nat)
    requires lay.Valid() && Listed(v) && StackInv(lay, AbsOf(v)) && x in v.K
    ensures x in v.m.ads && BlockAt(v.m.ads, x) in AbsOf(v).stack
    ensures BLOCK_OVERHEAD_FIXED <= v.m.ads[x].nbytes && v.sp <= x && PlacedBefore(lay, BlockAt(v.m.ads, x))
  {
    var s := AbsOf(v);
    var i :| 0 <= i < |v.K| && v.K[i] == x;
    assert s.stack[i] == BlockAt(v.m.ads, x);
    assert PlacedBefore(lay, s.stack[i]);
    StackAscends(s.stack, s.sp, s.eos);
    BytesBeforePositive(lay, s.stack[i].dtype, s.stack[i].nelem, s.stack[i].End());
  }

  lemma HeapSpread(v: View, x: nat, y: nat)
    requires Listed(v) && HeapShape(AbsOf(v)) && (x in v.F || x in v.U) && (y in v.F || y in v.U) && x < y
    ensures x in v.m.ads && x + v.m.ads[x].nbytes <= y
  {
    HeapMember(v, x);
    HeapMember(v, y);
    assert Apart(PieceAt(v.m.ads, x), PieceAt(v.m.ads, y));
  }

  lemma StackOrder(lay: Layout, v: View)
    requires Listed(v) && StackInv(lay, AbsOf(v))
    ensures forall i, j :: 0 <= i < j < |v.K| ==> v.K[i] < v.K[i] + v.m.ads[v.K[i]].nbytes <= v.K[j]
  {
    var s := AbsOf(v);
    StackAscends(s.stack, s.sp, s.eos);
    forall i, j | 0 <= i < j < |v.K|
      ensures v.K[i] < v.K[i] + v.m.ads[v.K[i]].nbytes <= v.K[j]
    {
      assert s.stack[i] in s.stack && s.stack[i].End() <= s.stack[j].addr;
    }
  }

  lemma StackSpread(lay: Layout, v: View)
    requires Listed(v) && StackInv(lay, AbsOf(v))
    ensures forall x, y :: x in v.K && y in v.K && x < y ==> x + v.m.ads[x].nbytes <= y
    ensures NoRepeats(v.K)
  {
    StackOrder(lay, v);
    hide StackInv, AbsOf;
    forall x, y | x in v.K && y in v.K && x < y
      ensures x + v.m.ads[x].nbytes <= y
    {
      var i :| 0 <= i < |v.K| && v.K[i] == x;
      var j :| 0 <= j < |v.K| && v.K[j] == y;
    }
  }

  /** The heap pieces, the used blocks and the stack blocks of a good state do not overlap. */
  lemma InvSpread(lay: Layout, v: View)
    requires lay.Valid() && Listed(v) && ShapeInv(lay, AbsOf(v))
    ensures Spread(v.m.ads, Descs(v))
  {
    assert v.hp <= v.sp;
    hide HeapShape, StackInv, Listed, AbsOf, Aligned;
    forall x | x in Descs(v)
      ensures x in v.m.ads && BLOCK_OVERHEAD_FIXED <= v.m.ads[x].nbytes
    {
      if x in v.K { StackMember(lay, v, x); } else { HeapMember(v, x); }
    }
    StackSpread(lay, v);
    forall x, y | x in Descs(v) && y in Descs(v) && x < y
      ensures x + v.m.ads[x].nbytes <= y
    {
      if x in v.K {
        StackMember(lay, v, x);
        if y !in v.K { HeapMember(v, y); }
      } else {
        HeapMember(v, x);
        if y in v.K { StackMember(lay, v, y); } else { HeapSpread(v, x, y); }
      }
    }
  }

  lemma HeapListsApart(v: View)
    requires Listed(v) && HeapShape(AbsOf(v))
    ensures NoRepeats(v.F) && NoRepeats(v.U)
    ensures forall x :: x in v.F ==> x !in v.U
  {
    FreeNoRepeats(v);
    UsedNoRepeats(v);
    forall x | x in v.F
      ensures x !in v.U
    {
      HeapMember(v, x);
      UsedApart(AbsOf(v), PieceAt(v.m.ads, x));
    }
  }

  lemma FreeNoRepeats(v: View)
    requires Listed(v) && Gapped(AbsOf(v).free)
    ensures NoRepeats(v.F)
  {
    var l := AbsOf(v).free;
    assert forall i :: 0 <= i < |v.F| ==> l[i].addr == v.F[i] && l[i] in l;
  }

  lemma UsedNoRepeats(v: View)
    requires Listed(v) && DistinctAddrs(AbsOf(v).used)
    ensures NoRepeats(v.U)
  {
    var l := AbsOf(v).used;
    assert forall i :: 0 <= i < |v.U| ==> l[i].addr == v.U[i];
  }

  lemma InvListsApart(lay: Layout, v: View)
    requires lay.Valid() && Listed(v) && ShapeInv(lay, AbsOf(v))
    ensures NoRepeats(v.F) && NoRepeats(v.U) && NoRepeats(v.K)
    ensures forall x :: x in v.F ==> x !in v.U && x !in v.K
    ensures forall x :: x in v.U ==> x !in v.K
  {
    HeapListsApart(v);
    StackSpread(lay, v);
    forall x | x in v.F || x in v.U
      ensures x !in v.K
    {
      HeapMember(v, x);
      if x in v.K { StackMember(lay, v, x); }
    }
  }

  // ---------- live blocks ----------

  /** Guards and client space lie inside the block, past its descriptor. */
  lemma ClientInside(lay: Layout, b: Block)
    requires lay.Valid() && (Placed(lay, b) || PlacedBefore(lay, b))
    ensures b.addr + AD_BYTES + GUARD_BYTES <= b.client
    ensures b.client + b.nelem * lay.size[b.dtype] + GUARD_BYTES <= b.End()
  {
    if Placed(lay, b) {
      ClientAfterPlaced(lay, b.dtype, b.addr);
      BytesAfterRounds(lay, b.dtype, b.nelem, b.addr);
    } else {
      ClientBeforePlaced(lay, b.dtype, b.nelem, b.End());
      BytesBeforeRounds(lay, b.dtype, b.nelem, b.End());
    }
  }

  /**
   * The blocks headed by the descriptors in X are untouched: same descriptor up to next, same guards, same client
   * bytes.
   */
  ghost predicate Kept(m: Mem, m': Mem, X: set<nat>) {
    forall x :: x in X ==>
      && x in m.ads && x in m'.ads && m'.ads[x] == m.ads[x].(next := m'.ads[x].next)
      && SameIn(m, m', x + AD_BYTES, x + m.ads[x].nbytes)
  }

  lemma KeptTransitive(m: Mem, m1: Mem, m2: Mem, X: set<nat>)
    requires Kept(m, m1, X) && Kept(m1, m2, X)
    ensures Kept(m, m2, X)
  {
    forall x | x in X
      ensures SameIn(m, m2, x + AD_BYTES, x + m.ads[x].nbytes)
    {
      SameInTransitive(m, m1, m2, x + AD_BYTES, x + m.ads[x].nbytes);
    }
  }

  lemma KeptSubset(m: Mem, m': Mem, X: set<nat>, Y: set<nat>)
    requires Kept(m, m', X) && Y <= X
    ensures Kept(m, m', Y)
  {
  }

  lemma KeptRefl(m: Mem, X: set<nat>)
    requires X <= m.ads.Keys
    ensures Kept(m, m, X)
  {
  }

  lemma RelinkedKeeps(m: Mem, m': Mem, D: set<nat>, X: set<nat>)
    requires Relinked(m, m', D) && Spread(m.ads, D) && X <= D
    ensures Kept(m, m', X)
  {
    forall x | x in X
      ensures SameIn(m, m', x + AD_BYTES, x + m.ads[x].nbytes)
    {
      BodyClear(m.ads, D, x);
    }
  }

  lemma SealedKept(lay: Layout, ad: AD, ad': AD, m: Mem, m': Mem, lo: int, hi: int)
    requires ad' == ad.(next := ad'.next) && Sealed(lay, ad, m.guards) && SameIn(m, m', lo, hi)
    requires lo <= ad.client - GUARD_BYTES && ad.client <= hi && lo <= Guard2At(lay, ad)
    requires Guard2At(lay, ad) + GUARD_BYTES <= hi
    ensures Sealed(lay, ad', m'.guards)
  {
    assert Guard2At(lay, ad') == Guard2At(lay, ad);
    hide Guard2At;
  }

  /** An untouched live block stays intact. */
  lemma IntactKept(lay: Layout, m: Mem, m': Mem, X: set<nat>, x: nat)
    requires lay.Valid() && Kept(m, m', X) && x in X && Intact(lay, m, x)
    requires Placed(lay, BlockAt(m.ads, x)) || PlacedBefore(lay, BlockAt(m.ads, x))
    ensures Intact(lay, m', x)
  {
    ClientInside(lay, BlockAt(m.ads, x));
    hide Placed, PlacedBefore, Sealed, SameIn;
    NonNegative(m.ads[x].nelem, lay.size[m.ads[x].dtype]);
    SealedKept(lay, m.ads[x], m'.ads[x], m, m', x + AD_BYTES, x + m.ads[x].nbytes);
  }

  lemma NonNegative(a: nat, b: nat)
    ensures a * b >= 0
  {
  }

  lemma KeptBlocks(m: Mem, m': Mem, X: set<nat>, s: seq<nat>)
    requires Kept(m, m', X) && AddrSet(s) <= X
    ensures (forall x :: x in s ==> x in m.ads && x in m'.ads)
    ensures BlocksOf(m'.ads, s) == BlocksOf(m.ads, s)
  {
    assert forall x :: x in s ==> x in AddrSet(s);
  }

  // ---------- the free list as pieces ----------

  lemma {:induction false} UpToSnoc(l: seq<Piece>, p: Piece, addr: nat)
    ensures UpTo(l + [p], addr) == UpTo(l, addr) + (if p.addr > addr then [] else [p])
  {
    if l == [] {
      assert l + [p] == [p] && UpTo([p], addr) == (if p.addr > addr then [] else [p]) by {
        assert [p][1..] == [];
      }
    } else {
      assert (l + [p])[1..] == l[1..] + [p];
      UpToSnoc(l[1..], p, addr);
    }
  }

  /** Deleting by address and reading off the pieces commute. */
  lemma {:induction false} KeptPieces(ads: map<nat, AD>, s: seq<nat>, addr: nat)
    requires forall x :: x in s ==> x in ads
    ensures (forall x :: x in KeepUpTo(s, addr) ==> x in ads)
    ensures PiecesOf(ads, KeepUpTo(s, addr)) == UpTo(PiecesOf(ads, s), addr)
  {
    if s != [] {
      var r, last := s[..|s| - 1], s[|s| - 1];
      assert PiecesOf(ads, [last]) == [PieceAt(ads, last)];
      KeptPieces(ads, r, addr);
      assert s == r + [last];
      hide PiecesOf, UpTo;
      PiecesAppend(ads, r, [last]);
      UpToSnoc(PiecesOf(ads, r), PieceAt(ads, last), addr);
      if last <= addr {
        PiecesAppend(ads, KeepUpTo(r, addr), [last]);
      }
    }
  }

  lemma InsertedPieces(ads: map<nat, AD>, s: seq<nat>, ad: nat, k: nat)
    requires (forall x :: x in s ==> x in ads) && ad in ads && k <= |s|
    requires (forall j :: 0 <= j < k ==> s[j] <= ad) && (k < |s| ==> ad < s[k])
    ensures forall x :: x in s[..k] + [ad] + s[k..] ==> x in ads
    ensures PiecesOf(ads, s[..k] + [ad] + s[k..]) == InsertOrdered(PieceAt(ads, ad), PiecesOf(ads, s))
  {
    var l := PiecesOf(ads, s);
    InsertOrderedAt(PieceAt(ads, ad), l, k);
    hide InsertOrdered;
    assert s == s[..k] + s[k..];
    PiecesAppend(ads, s[..k], s[k..]);
    assert l[..k] == PiecesOf(ads, s[..k]) && l[k..] == PiecesOf(ads, s[k..]);
    assert PiecesOf(ads, [ad]) == [PieceAt(ads, ad)];
    hide PiecesOf;
    PiecesAppend(ads, s[..k], [ad]);
    PiecesAppend(ads, s[..k] + [ad], s[k..]);
  }

  lemma RelinkedPieces(m: Mem, m': Mem, D: set<nat>, s: seq<nat>)
    requires Relinked(m, m', D) && AddrSet(s) <= D
    ensures (forall x :: x in s ==> x in m.ads && x in m'.ads) && PiecesOf(m'.ads, s) == PiecesOf(m.ads, s)
  {
    assert forall x :: x in s ==> x in AddrSet(s);
    PiecesFrame(m.ads, m'.ads, s);
  }

  lemma RelinkedPiece(m: Mem, m': Mem, D: set<nat>, x: nat)
    requires Relinked(m, m', D) && x in D
    ensures x in m.ads && x in m'.ads && PieceAt(m'.ads, x) == PieceAt(m.ads, x)
  {
  }

  lemma RelinkedSpread(m: Mem, m': Mem, D: set<nat>)
    requires Relinked(m, m', D) && Spread(m.ads, D)
    ensures Spread(m'.ads, D)
  {
  }

  /** list_delete_many on the free list, as pieces. */
  lemma TrimmedPieces(m: Mem, m': Mem, D: set<nat>, s: seq<nat>, addr: nat)
    requires Relinked(m, m', D) && AddrSet(s) <= D && NoRepeats(s)
    ensures (forall x :: x in s ==> x in m.ads) && (forall x :: x in KeepUpTo(s, addr) ==> x in m'.ads && x in s)
    ensures PiecesOf(m'.ads, KeepUpTo(s, addr)) == UpTo(PiecesOf(m.ads, s), addr)
    ensures NoRepeats(KeepUpTo(s, addr)) && AddrSet(KeepUpTo(s, addr)) <= AddrSet(s)
  {
    RelinkedPieces(m, m', D, s);
    KeepMembers(s, addr);
    KeptPieces(m'.ads, s, addr);
  }

  /** list_insert_ordered on the free list, as pieces. */
  lemma InsertedList(m: Mem, m': Mem, D: set<nat>, s: seq<nat>, ad: nat, k: nat)
    requires Relinked(m, m', D) && AddrSet(s) <= D && NoRepeats(s) && ad in D && ad !in s && k <= |s|
    requires (forall j :: 0 <= j < k ==> s[j] <= ad) && (k < |s| ==> ad < s[k])
    ensures var t := s[..k] + [ad] + s[k..];
      && NoRepeats(t) && AddrSet(t) == AddrSet(s) + {ad}
      && (forall x :: x in t ==> x in m'.ads) && (forall x :: x in s ==> x in m.ads) && ad in m.ads
      && PiecesOf(m'.ads, t) == InsertOrdered(PieceAt(m.ads, ad), PiecesOf(m.ads, s))
  {
    var t := s[..k] + [ad] + s[k..];
    RelinkedPieces(m, m', D, s);
    InsertedPieces(m'.ads, s, ad, k);
    InsertedMembers(s, ad, k);
  }

  lemma InsertedMembers(s: seq<nat>, ad: nat, k: nat)
    requires NoRepeats(s) && ad !in s && k <= |s|
    ensures NoRepeats(s[..k] + [ad] + s[k..]) && AddrSet(s[..k] + [ad] + s[k..]) == AddrSet(s) + {ad}
  {
    assert s == s[..k] + s[k..];
    NoRepeatsParts(s[..k], s[k..]);
    NoRepeatsConcat(s[..k], [ad]);
    NoRepeatsConcat(s[..k] + [ad], s[k..]);
  }

  /** Coalescing touches only the members of the list. */
  lemma CoalescedKeeps(m: Mem, m': Mem, D: set<nat>, s: seq<nat>, X: set<nat>)
    requires Spread(m.ads, D) && D <= m'.ads.Keys && OnlyDescriptors(m, m', D)
    requires forall x :: x in D && x !in s ==> m'.ads[x] == m.ads[x]
    requires X <= D && X !! AddrSet(s)
    ensures Kept(m, m', X)
  {
    forall x | x in X
      ensures m'.ads[x] == m.ads[x] && SameIn(m, m', x + AD_BYTES, x + m.ads[x].nbytes)
    {
      assert x !in AddrSet(s);
      BodyClear(m.ads, D, x);
    }
  }

  // ---------- splitting a block ----------

  lemma MinBlockBound()
    ensures BLOCK_OVERHEAD_FIXED <= MINBLOCKSIZE
  {
  }

  /** A second descriptor inside the block at ad, leaving room for a descriptor on both sides. */
  lemma SplitClear(ads: map<nat, AD>, D: set<nat>, ad: nat, ad2: nat)
    requires Spread(ads, D) && ad in D
    requires ad + BLOCK_OVERHEAD_FIXED <= ad2 && ad2 + BLOCK_OVERHEAD_FIXED <= ad + ads[ad].nbytes
    ensures ad2 !in D && Separate(D + {ad2}) && D <= ads.Keys
    ensures forall x :: x in D && x != ad ==> Clear(D + {ad2}, x + AD_BYTES, x + ads[x].nbytes)
  {
  }

  /** The extents after the block at ad has been cut at ad2. */
  lemma SplitSpread(ads: map<nat, AD>, ads': map<nat, AD>, D: set<nat>, ad: nat, ad2: nat)
    requires Spread(ads, D) && ad in D
    requires ad + BLOCK_OVERHEAD_FIXED <= ad2 && ad2 + BLOCK_OVERHEAD_FIXED <= ad + ads[ad].nbytes
    requires D + {ad2} <= ads'.Keys && ads'[ad].nbytes == ad2 - ad && ads'[ad2].nbytes == ad + ads[ad].nbytes - ad2
    requires forall x :: x in D && x != ad ==> ads'[x].nbytes == ads[x].nbytes
    ensures Spread(ads', D + {ad2})
  {
  }

  lemma OnlyDescriptorsKeeps(m: Mem, m': Mem, D: set<nat>, X: set<nat>)
    requires OnlyDescriptors(m, m', D)
    requires forall x :: x in X ==> x in m.ads && x in m'.ads && m'.ads[x] == m.ads[x].(next := m'.ads[x].next)
    requires forall x :: x in X ==> Clear(D, x + AD_BYTES, x + m.ads[x].nbytes)
    ensures Kept(m, m', X)
  {
    forall x | x in X
      ensures SameIn(m, m', x + AD_BYTES, x + m.ads[x].nbytes)
    {
      assert Clear(D, x + AD_BYTES, x + m.ads[x].nbytes);
    }
  }

  lemma RelinkedOnly(m: Mem, m': Mem, D: set<nat>)
    requires Relinked(m, m', D)
    ensures OnlyDescriptors(m, m', D) && D <= m.ads.Keys && D <= m'.ads.Keys
    ensures forall x :: x in D ==> m'.ads[x] == m.ads[x].(next := m'.ads[x].next)
  {
  }

  // ---------- assembling a good view ----------

  /** The live blocks other than ad were live and untouched: the view is good again. */
  lemma Assemble(lay: Layout, v: View, w: View, ad: nat)
    requires Good(lay, v) && Chained(w) && Listed(w) && Inv(lay, AbsOf(w)) && 0 < w.segment
    requires forall x :: x in Live(w) && x != ad ==> x in Live(v)
    requires Kept(v.m, w.m, Live(w) - {ad})
    requires ad in Live(w) ==> Intact(lay, w.m, ad)
    ensures Good(lay, w)
  {
    forall x | x in Live(w)
      ensures Intact(lay, w.m, x)
    {
      if x != ad {
        LivePlaced(lay, v, x);
        IntactKept(lay, v.m, w.m, Live(w) - {ad}, x);
      }
    }
  }

  lemma LivePlaced(lay: Layout, v: View, x: nat)
    requires Good(lay, v) && x in Live(v)
    ensures x in v.m.ads && Intact(lay, v.m, x)
    ensures Placed(lay, BlockAt(v.m.ads, x)) || PlacedBefore(lay, BlockAt(v.m.ads, x))
  {
    if x in v.U {
      HeapMember(v, x);
    } else {
      StackMember(lay, v, x);
    }
  }

  lemma BlocksPush(ads: map<nat, AD>, ad: nat, s: seq<nat>)
    requires ad in ads && forall x :: x in s ==> x in ads
    ensures (forall x :: x in [ad] + s ==> x in ads) && BlocksOf(ads, [ad] + s) == [BlockAt(ads, ad)] + BlocksOf(ads, s)
  {
    assert ([ad] + s)[1..] == s;
  }

  /** The free blocks lie in address order. */
  ghost predicate InOrder(ads: map<nat, AD>, s: seq<nat>) {
    && (forall x :: x in s ==> x in ads)
    && (forall a, b :: 0 <= a < b < |s| ==> s[a] < s[b] && s[a] + ads[s[a]].nbytes <= s[b])
  }

  lemma FreeInOrder(v: View)
    requires Listed(v) && HeapShape(AbsOf(v))
    ensures InOrder(v.m.ads, v.F)
  {
    GappedOrder(v.m.ads, v.F, AbsOf(v).free);
  }

  lemma GappedOrder(ads: map<nat, AD>, s: seq<nat>, l: seq<Piece>)
    requires (forall x :: x in s ==> x in ads) && l == PiecesOf(ads, s) && Gapped(l)
    ensures InOrder(ads, s)
  {
    assert forall i :: 0 <= i < |s| ==> l[i] == PieceAt(ads, s[i]) && l[i] in l;
  }

  /** What the list routines need to know of a view. */
  lemma ShapedFacts(lay: Layout, v: View)
    requires Shaped(lay, v)
    ensures Spread(v.m.ads, Descs(v)) && InOrder(v.m.ads, v.F)
    ensures NoRepeats(v.F) && NoRepeats(v.U) && NoRepeats(v.K)
    ensures forall x :: x in v.F ==> x !in v.U && x !in v.K && x in Descs(v)
    ensures forall x :: x in v.U ==> x !in v.K && x in Descs(v)
    ensures forall x :: x in v.K ==> x in Descs(v)
    ensures AddrSet(v.F) <= Descs(v) && AddrSet(v.U) <= Descs(v) && AddrSet(v.K) <= Descs(v)
    ensures v.hp <= v.sp && Live(v) <= Descs(v) && forall x :: x in Descs(v) ==> x != NULL && x in v.m.ads
    ensures Chained(v) && Listed(v)
  {
    hide AbsOf, ShapeInv, InOrder, Spread, NoRepeats, Chain;
    InvSpread(lay, v);
    InvListsApart(lay, v);
    HeapOrder(lay, v);
    DescMembers(v);
    hide Descs, Live, AddrSet;
  }

  /** What the list routines need to know of a good view. */
  lemma GoodFacts(lay: Layout, v: View)
    requires Good(lay, v)
    ensures Spread(v.m.ads, Descs(v)) && InOrder(v.m.ads, v.F)
    ensures NoRepeats(v.F) && NoRepeats(v.U) && NoRepeats(v.K)
    ensures forall x :: x in v.F ==> x !in v.U && x !in v.K && x in Descs(v)
    ensures forall x :: x in v.U ==> x !in v.K && x in Descs(v)
    ensures forall x :: x in v.K ==> x in Descs(v)
    ensures AddrSet(v.F) <= Descs(v) && AddrSet(v.U) <= Descs(v) && AddrSet(v.K) <= Descs(v)
    ensures v.hp <= v.sp && Live(v) <= Descs(v) && forall x :: x in Descs(v) ==> x != NULL && x in v.m.ads
    ensures Chained(v) && Listed(v)
  {
    GoodShaped(lay, v);
    hide *;
    ShapedFacts(lay, v);
  }

  lemma DescMembers(v: View)
    requires Chained(v)
    ensures forall x :: x in v.F || x in v.U || x in v.K ==> x in Descs(v)
    ensures AddrSet(v.F) <= Descs(v) && AddrSet(v.U) <= Descs(v) && AddrSet(v.K) <= Descs(v)
    ensures Live(v) <= Descs(v) && forall x :: x in Descs(v) ==> x != NULL && x in v.m.ads
  {
    hide Chain;
    ChainMembers(v.m.ads, v.hfree, v.F);
    ChainMembers(v.m.ads, v.hused, v.U);
    ChainMembers(v.m.ads, v.sused, v.K);
    assert forall x :: x in v.F ==> x in AddrSet(v.F);
    assert forall x :: x in v.U ==> x in AddrSet(v.U);
    assert forall x :: x in v.K ==> x in AddrSet(v.K);
  }

  lemma HeapOrder(lay: Layout, v: View)
    requires Listed(v) && ShapeInv(lay, AbsOf(v))
    ensures InOrder(v.m.ads, v.F) && v.hp <= v.sp
  {
    FreeInOrder(v);
  }

  // ---------- replacing a member of a list ----------

  lemma SpliceMembers(s: seq<nat>, i: nat, rest: seq<nat>, E: set<nat>)
    requires NoRepeats(s) && i < |s| && (forall x :: x in s ==> x in E)
    requires forall x :: x in rest ==> x in E && x != s[i]
    ensures forall x :: x in s[..i] + rest + s[i + 1..] ==> x in E && x != s[i]
  {
    SpliceParts(s, i);
  }

  lemma SplicePieces(ads: map<nat, AD>, ads': map<nat, AD>, s: seq<nat>, i: nat, rest: seq<nat>)
    requires NoRepeats(s) && i < |s| && (forall x :: x in s ==> x in ads)
    requires forall x :: x in s && x != s[i] ==> x in ads' && ads'[x].nbytes == ads[x].nbytes
    requires forall x :: x in rest ==> x in ads'
    ensures forall x :: x in s[..i] + rest + s[i + 1..] ==> x in ads'
    ensures var l := PiecesOf(ads, s);
      PiecesOf(ads', s[..i] + rest + s[i + 1..]) == l[..i] + PiecesOf(ads', rest) + l[i + 1..]
  {
    var a, b, l := s[..i], s[i + 1..], PiecesOf(ads, s);
    SpliceParts(s, i);
    assert l[..i] == PiecesOf(ads, a) && l[i + 1..] == PiecesOf(ads, b);
    PiecesFrame(ads, ads', a);
    PiecesFrame(ads, ads', b);
    hide PiecesOf, NoRepeats;
    PiecesAppend(ads', a, rest);
    PiecesAppend(ads', a + rest, b);
  }

  lemma SpliceParts(s: seq<nat>, i: nat)
    requires NoRepeats(s) && i < |s|
    ensures forall x :: x in s[..i] || x in s[i + 1..] ==> x in s && x != s[i]
  {
    forall x | x in s[i + 1..]
      ensures x in s && x != s[i]
    {
      var j :| 0 <= j < |s| - i - 1 && s[i + 1..][j] == x;
      assert x == s[i + 1 + j];
    }
  }
}
