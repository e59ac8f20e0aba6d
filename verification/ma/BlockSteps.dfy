/**
 * The steps by which the allocator takes and gives back blocks, as facts about memory and views: what
 * block_split, the search of the free list and the initialisation of a block achieve, and that together
 * they are the operations of Arena.dfy.
 */
module BlockSteps {
  import opened Options
  import opened Arithmetic
  import opened Placement
  import opened Arena
  import opened Tilings
  import opened FreeLists
  import opened Invariant
  import opened Memory
  import opened Views
  import opened HandleTables
  import opened Inquiry

  /**
   * block_split has turned memory m into m' by cutting the block at ad after need bytes, if the rest was worth a
   * block.
   */
  ghost predicate Cut(m: Mem, m': Mem, D: set<nat>, ad: nat, need: nat) {
    && ad in D && ad in m.ads && need <= m.ads[ad].nbytes
    && Spread(m'.ads, D + RestSet(m, ad, need)) && ad in m'.ads
    && m'.ads[ad] == m.ads[ad].(nbytes := Carve(Piece(ad, m.ads[ad].nbytes), need).0, next := m'.ads[ad].next)
    && (RestAddr(m, ad, need) != [] ==>
          ad + need !in D && ad + need in m'.ads && m'.ads[ad + need].nbytes == m.ads[ad].nbytes - need)
    && Kept(m, m', D - {ad}) && SameIn(m, m', ad + AD_BYTES, ad + need)
  }

  /** No free block fits: the first-fit search comes to the end of the list. */
  lemma NoneFits(lay: Layout, v: View, d: nat, n: nat)
    requires lay.Has(d) && Listed(v) && forall j :: 0 <= j < |v.F| ==> TooSmall(lay, d, n, v.m.ads, v.F[j])
    ensures NoFit(lay, v, d, n)
  {
    hide BytesAfter;
    var l := AbsOf(v).free;
    assert forall j :: 0 <= j < |l| ==> l[j] == PieceAt(v.m.ads, v.F[j]);
    assert forall j :: 0 <= j < |l| ==> l[j].nbytes < BytesAfter(lay, d, n, l[j].addr);
  }

  lemma FitsAt(lay: Layout, v: View, d: nat, n: nat, i: nat)
    requires lay.Has(d) && Listed(v) && i < |v.F| && (forall j :: 0 <= j < i ==> TooSmall(lay, d, n, v.m.ads, v.F[j]))
    requires v.F[i] in v.m.ads && BytesAfter(lay, d, n, v.F[i]) <= v.m.ads[v.F[i]].nbytes
    ensures FirstFit(lay, d, n, AbsOf(v).free) == i
  {
    hide BytesAfter;
    var l := AbsOf(v).free;
    assert forall j :: 0 <= j < |l| ==> l[j] == PieceAt(v.m.ads, v.F[j]);
    assert forall j :: 0 <= j < i ==> l[j].nbytes < BytesAfter(lay, d, n, l[j].addr);
  }

  /** There is room for a block of n elements of datatype d at ad, and its descriptor can be put on the used list. */
  ghost predicate Ready(lay: Layout, u: View, ad: nat, d: nat, n: nat, E: set<nat>) {
    && lay.Has(d) && Chain(u.m.ads, u.hused, u.U) && Chain(u.m.ads, u.sused, u.K)
    && Spread(u.m.ads, E) && E <= u.m.ads.Keys && ad in E && ad != NULL
    && AddrSet(u.U) <= E && ad !in u.U && AddrSet(u.K) <= E && ad !in u.K
    && RoomFor(lay, u.m.ads[ad].(dtype := d, nelem := n), ad)
  }

  /** After carving, the block at F[i] can be initialised. */
  lemma FoundReady(lay: Layout, v: View, u: View, d: nat, n: nat, i: nat, need: nat, ad: nat)
    requires Good(lay, v) && FoundAt(lay, v, u, d, n, i, need, ad)
    ensures ad in v.m.ads && Ready(lay, u, ad, d, n, Descs(v) + RestSet(v.m, ad, need))
  {
    hide Good, BytesAfter, ClientAfter, RoomFor, Descs, Spread, Kept, Chain, InOrder, NoRepeats, TooSmall, Inv;
    hide IsPow2, RestAddr, RestSet;
    GoodFacts(lay, v);
    GoodInv(lay, v);
    SpreadKeys(u.m.ads, Descs(v) + RestSet(v.m, ad, need));
    RoomAfter(lay, u.m.ads[ad].(dtype := d, nelem := n), ad, need);
    ChainFrame(v.m.ads, u.m.ads, v.hused, v.U);
    ChainFrame(v.m.ads, u.m.ads, v.sused, v.K);
  }

  lemma RoomAfter(lay: Layout, a: AD, ad: nat, need: nat)
    requires lay.Valid() && lay.Has(a.dtype) && need == BytesAfter(lay, a.dtype, a.nelem, ad) && need <= a.nbytes
    requires a.client == ClientAfter(lay, a.dtype, ad)
    ensures RoomFor(lay, a, ad)
  {
    ClientAfterPlaced(lay, a.dtype, ad);
    BytesAfterRounds(lay, a.dtype, a.nelem, ad);
    NonNegative(a.nelem, lay.size[a.dtype]);
  }

  /** View u is view v after FindFit has returned the block ad, at position i of the free list. */
  ghost predicate FoundAt(lay: Layout, v: View, u: View, d: nat, n: nat, i: nat, need: nat, ad: nat) {
    && lay.Has(d) && i < |v.F| && ad == v.F[i] && need == BytesAfter(lay, d, n, ad)
    && (forall j :: 0 <= j < i ==> TooSmall(lay, d, n, v.m.ads, v.F[j]))
    && Carved(v.m, u.m, Descs(v), ad, need, ClientAfter(lay, d, ad)) && OthersSame(v.m, u.m, Descs(v), v.F)
    && u == v.(m := u.m, hfree := u.hfree, F := v.F[..i] + RestAddr(v.m, ad, need) + v.F[i + 1..])
    && Chain(u.m.ads, u.hfree, u.F)
  }

  lemma FindIs(lay: Layout, v: View, u: View, d: nat, n: nat, i: nat, need: nat, ad: nat)
    requires lay.Has(d) && Listed(v) && Chain(u.m.ads, u.hfree, u.F)
    requires u == v.(m := u.m, hfree := u.hfree, F := u.F)
    requires i <= |v.F| && forall j :: 0 <= j < i ==> TooSmall(lay, d, n, v.m.ads, v.F[j])
    requires ad == NULL ==> i == |v.F| && u.m == v.m && u.F == v.F && u.hfree == v.hfree
    requires ad != NULL ==> i < |v.F| && ad == v.F[i] && need == BytesAfter(lay, d, n, ad)
    requires ad != NULL ==> Carved(v.m, u.m, Descs(v), ad, need, ClientAfter(lay, d, ad))
    requires ad != NULL ==> u.F == v.F[..i] + RestAddr(v.m, ad, need) + v.F[i + 1..]
    requires OthersSame(v.m, u.m, Descs(v), v.F)
    ensures ad == NULL ==> u == v && NoFit(lay, u, d, n)
    ensures ad != NULL ==> FoundAt(lay, v, u, d, n, i, need, ad)
  {
    if ad == NULL {
      NoneFits(lay, v, d, n);
    }
  }

  /** InitHeapBlock has turned view u into w: the block at ad is in use. */
  ghost predicate Initialised(lay: Layout, u: View, w: View, E: set<nat>, ad: nat, d: nat, n: nat) {
    && E <= w.m.ads.Keys && OthersSame(u.m, w.m, E, [ad]) && Kept(u.m, w.m, E - {ad}) && ad in E
    && ad in u.m.ads && BlockAt(w.m.ads, ad) == BlockAt(u.m.ads, ad).(dtype := d, nelem := n)
    && Chain(w.m.ads, w.hused, w.U) && Intact(lay, w.m, ad)
    && w == u.(m := w.m, hused := w.hused, U := [ad] + u.U, hp := Max(u.hp, ad + u.m.ads[ad].nbytes))
  }

  /** MA_allocate_heap has turned view v into w, and the new block is at ad. */
  ghost predicate HeapTaken(lay: Layout, v: View, w: View, d: nat, n: nat, ad: nat) {
    && lay.Has(d) && Good(lay, v) && Good(lay, w)
    && w == v.(m := w.m, hfree := w.hfree, F := w.F, hused := w.hused, U := [ad] + v.U, hp := w.hp)
    && ad !in Live(v) && ad in w.m.ads && Kept(v.m, w.m, Live(v))
    && AllocateHeap(lay, AbsOf(v), d, n) == Some((AbsOf(w), BlockAt(w.m.ads, ad)))
  }

  /** No block on the free list can hold the request. */
  ghost predicate NoFit(lay: Layout, v: View, d: nat, n: nat) {
    lay.Has(d) && Listed(v) && FirstFit(lay, d, n, AbsOf(v).free) == |v.F|
  }

  /** The view after a block was taken from the free list is that of AllocateHeap. */
  lemma FromList(lay: Layout, v: View, u: View, w: View, d: nat, n: nat, i: nat, need: nat, ad: nat)
    requires Good(lay, v) && FoundAt(lay, v, u, d, n, i, need, ad) && ad in v.m.ads
    requires Initialised(lay, u, w, Descs(v) + RestSet(v.m, ad, need), ad, d, n)
    ensures HeapTaken(lay, v, w, d, n, ad)
  {
    FromListLive(lay, v, u, w, d, n, i, need, ad);
    FromListChains(lay, v, u, w, d, n, i, need, ad);
    InitialisedFacts(lay, u, w, Descs(v) + RestSet(v.m, ad, need), ad, d, n);
    FoundView(lay, v, u, d, n, i, need, ad);
    AllListed(w);
    FromListAbs(lay, v, u, w, d, n, i, need, ad);
    GoodInv(lay, v);
    AllocateKeeps(lay, AbsOf(v), d, n);
    hide Good, FoundAt, Initialised, RestSet, RestAddr, AbsOf, Kept, Chained, Inv, Chain, AllocateHeap;
    KeptSubset(v.m, w.m, Live(v), Live(w) - {ad});
    Assemble(lay, v, w, ad);
  }

  lemma FoundView(lay: Layout, v: View, u: View, d: nat, n: nat, i: nat, need: nat, ad: nat)
    requires FoundAt(lay, v, u, d, n, i, need, ad)
    ensures i < |v.F| && ad == v.F[i] && lay.Has(d) && ad in v.m.ads
    ensures u == v.(m := u.m, hfree := u.hfree, F := v.F[..i] + RestAddr(v.m, ad, need) + v.F[i + 1..])
    ensures Chain(u.m.ads, u.hfree, u.F)
  {
    hide TooSmall, OthersSame, BytesAfter, ClientAfter, Descs, Chain;
  }

  lemma GoodInv(lay: Layout, v: View)
    requires Good(lay, v)
    ensures Listed(v) && Inv(lay, AbsOf(v)) && lay.Valid() && 0 < v.segment
  {
  }

  lemma GoodFree(lay: Layout, v: View)
    requires Good(lay, v)
    ensures NoRepeats(v.F) && forall x :: x in v.F ==> x in v.m.ads && x in Descs(v)
  {
    GoodFacts(lay, v);
  }

  lemma GoodStack(lay: Layout, v: View)
    requires Good(lay, v)
    ensures NoRepeats(v.K) && forall x :: x in v.K ==> x in v.m.ads && x in Descs(v) && x !in v.F && x !in v.U
  {
    GoodFacts(lay, v);
    hide Good, Spread, InOrder, Descs, Chained, Listed;
  }

  /** A free block is not a live one. */
  lemma FoundPlace(lay: Layout, v: View, i: nat)
    requires Good(lay, v) && i < |v.F|
    ensures v.F[i] in v.m.ads && v.F[i] in Descs(v) && v.F[i] in v.F && v.F[i] !in Live(v) && v.F[i] != NULL
    ensures Live(v) <= Descs(v) - {v.F[i]} && AddrSet(v.U) <= Live(v) && AddrSet(v.K) <= Live(v)
  {
    hide Good, Spread, NoRepeats, InOrder, Chain, Chained, Listed, Descs;
    GoodFacts(lay, v);
    assert v.F[i] in v.F;
  }

  lemma FoundCarved(lay: Layout, v: View, u: View, d: nat, n: nat, i: nat, need: nat, ad: nat)
    requires FoundAt(lay, v, u, d, n, i, need, ad)
    ensures lay.Has(d) && ad in v.m.ads && ad in u.m.ads && need <= v.m.ads[ad].nbytes
    ensures need == BytesAfter(lay, d, n, ad)
    ensures Kept(v.m, u.m, Descs(v) - {ad})
    ensures forall x :: x in RestAddr(v.m, ad, need) ==> x !in Descs(v) && x in u.m.ads && x != ad
    ensures u.m.ads[ad].nbytes == Carve(PieceAt(v.m.ads, ad), need).0 && u.m.ads[ad].client == ClientAfter(lay, d, ad)
    ensures forall x :: x in Descs(v) && x !in v.F ==> x in v.m.ads && x in u.m.ads && u.m.ads[x] == v.m.ads[x]
  {
    hide Spread, TooSmall, Kept, BytesAfter, ClientAfter, Descs;
  }

  lemma FoundFirst(lay: Layout, v: View, u: View, d: nat, n: nat, i: nat, need: nat, ad: nat)
    requires Good(lay, v) && FoundAt(lay, v, u, d, n, i, need, ad)
    ensures Listed(v) && lay.Has(d) && FirstFit(lay, d, n, AbsOf(v).free) == i
  {
    hide BytesAfter, ClientAfter, Spread, Kept, OthersSame, TooSmall, Inv, Intact, Chain;
    FitsAt(lay, v, d, n, i);
  }

  /** The remainder of a carved block, as a list of pieces. */
  lemma RestPieces(m: Mem, m1: Mem, D: set<nat>, ad: nat, need: nat, client: int)
    requires Carved(m, m1, D, ad, need, client)
    ensures forall x :: x in RestAddr(m, ad, need) ==> x in m1.ads && x in RestSet(m, ad, need)
    ensures PiecesOf(m1.ads, RestAddr(m, ad, need)) == Carve(PieceAt(m.ads, ad), need).1
  {
    hide Spread, Kept;
    if RestAddr(m, ad, need) != [] {
      assert RestAddr(m, ad, need) == [ad + need];
      assert PiecesOf(m1.ads, [ad + need]) == [PieceAt(m1.ads, ad + need)];
    }
  }

  lemma InitialisedFacts(lay: Layout, u: View, w: View, E: set<nat>, ad: nat, d: nat, n: nat)
    requires Initialised(lay, u, w, E, ad, d, n)
    ensures E <= w.m.ads.Keys && Kept(u.m, w.m, E - {ad}) && ad in E && ad in u.m.ads && Chain(w.m.ads, w.hused, w.U)
    ensures forall x :: x in E && x != ad ==> x in u.m.ads && x in w.m.ads && w.m.ads[x] == u.m.ads[x]
    ensures BlockAt(w.m.ads, ad) == BlockAt(u.m.ads, ad).(dtype := d, nelem := n) && Intact(lay, w.m, ad)
    ensures w == u.(m := w.m, hused := w.hused, U := [ad] + u.U, hp := Max(u.hp, ad + u.m.ads[ad].nbytes))
  {
    hide Kept, Chain, Intact;
  }

  lemma FromListLive(lay: Layout, v: View, u: View, w: View, d: nat, n: nat, i: nat, need: nat, ad: nat)
    requires Good(lay, v) && FoundAt(lay, v, u, d, n, i, need, ad) && ad in v.m.ads
    requires Initialised(lay, u, w, Descs(v) + RestSet(v.m, ad, need), ad, d, n)
    ensures ad !in Live(v) && Kept(v.m, w.m, Descs(v) - {ad}) && Kept(v.m, w.m, Live(v))
  {
    FoundPlace(lay, v, i);
    FoundCarved(lay, v, u, d, n, i, need, ad);
    InitialisedFacts(lay, u, w, Descs(v) + RestSet(v.m, ad, need), ad, d, n);
    hide *;
    KeptSubset(u.m, w.m, Descs(v) + RestSet(v.m, ad, need) - {ad}, Descs(v) - {ad});
    KeptTransitive(v.m, u.m, w.m, Descs(v) - {ad});
    KeptSubset(v.m, w.m, Descs(v) - {ad}, Live(v));
  }

  lemma FromListSame(lay: Layout, v: View, u: View, w: View, d: nat, n: nat, i: nat, need: nat, ad: nat)
    requires Good(lay, v) && FoundAt(lay, v, u, d, n, i, need, ad) && ad in v.m.ads
    requires Initialised(lay, u, w, Descs(v) + RestSet(v.m, ad, need), ad, d, n)
    ensures forall x :: x in Descs(v) && x !in v.F ==> x in v.m.ads && x in w.m.ads && w.m.ads[x] == v.m.ads[x]
  {
    FoundPlace(lay, v, i);
    FoundCarved(lay, v, u, d, n, i, need, ad);
    InitialisedFacts(lay, u, w, Descs(v) + RestSet(v.m, ad, need), ad, d, n);
    hide *;
  }

  lemma FromListChains(lay: Layout, v: View, u: View, w: View, d: nat, n: nat, i: nat, need: nat, ad: nat)
    requires Good(lay, v) && FoundAt(lay, v, u, d, n, i, need, ad) && ad in v.m.ads
    requires Initialised(lay, u, w, Descs(v) + RestSet(v.m, ad, need), ad, d, n)
    ensures Chain(w.m.ads, w.hfree, w.F) && Chain(w.m.ads, w.sused, w.K)
  {
    FromListSame(lay, v, u, w, d, n, i, need, ad);
    FromListSplice(lay, v, u, w, d, n, i, need, ad);
    hide NoRepeats, Inv, Intact, Descs, Live, AbsOf, RestAddr, RestSet, Chain, Kept, OthersSame, Carved;
    hide BytesAfter, ClientAfter, TooSmall;
    StackStays(lay, v, w);
    ChainFrame(u.m.ads, w.m.ads, w.hfree, w.F);
  }

  lemma StackStays(lay: Layout, v: View, w: View)
    requires Good(lay, v) && w.K == v.K && w.sused == v.sused
    requires forall x :: x in Descs(v) && x !in v.F ==> x in v.m.ads && x in w.m.ads && w.m.ads[x] == v.m.ads[x]
    ensures Chain(w.m.ads, w.sused, w.K)
  {
    GoodStack(lay, v);
    hide NoRepeats, Inv, Intact, Descs, Live, AbsOf, Chain;
    ChainFrame(v.m.ads, w.m.ads, w.sused, w.K);
  }

  /** The members of the new free list were not touched by the initialisation of ad. */
  lemma FromListSplice(lay: Layout, v: View, u: View, w: View, d: nat, n: nat, i: nat, need: nat, ad: nat)
    requires Good(lay, v) && FoundAt(lay, v, u, d, n, i, need, ad) && ad in v.m.ads
    requires Initialised(lay, u, w, Descs(v) + RestSet(v.m, ad, need), ad, d, n)
    ensures forall x :: x in w.F ==> x in u.m.ads && x in w.m.ads && w.m.ads[x] == u.m.ads[x]
  {
    hide *;
    var E := Descs(v) + RestSet(v.m, ad, need);
    FoundCarved(lay, v, u, d, n, i, need, ad);
    FoundView(lay, v, u, d, n, i, need, ad);
    InitialisedFacts(lay, u, w, E, ad, d, n);
    RestInSet(v.m, ad, need);
    GoodFree(lay, v);
    SpliceMembers(v.F, i, RestAddr(v.m, ad, need), E);
  }

  lemma RestInSet(m: Mem, ad: nat, need: nat)
    requires ad in m.ads
    ensures forall x :: x in RestAddr(m, ad, need) ==> x in RestSet(m, ad, need)
  {
  }

  lemma AllListed(w: View)
    requires Chain(w.m.ads, w.hfree, w.F) && Chain(w.m.ads, w.hused, w.U) && Chain(w.m.ads, w.sused, w.K)
    ensures Chained(w) && Listed(w)
  {
    ChainMembers(w.m.ads, w.hfree, w.F);
    ChainMembers(w.m.ads, w.hused, w.U);
    ChainMembers(w.m.ads, w.sused, w.K);
  }

  lemma FromListPieces(lay: Layout, v: View, u: View, w: View, d: nat, n: nat, i: nat, need: nat, ad: nat)
    requires Good(lay, v) && FoundAt(lay, v, u, d, n, i, need, ad) && ad in v.m.ads
    requires Initialised(lay, u, w, Descs(v) + RestSet(v.m, ad, need), ad, d, n)
    ensures (forall x :: x in v.F ==> x in v.m.ads) && forall x :: x in w.F ==> x in w.m.ads
    ensures need <= v.m.ads[ad].nbytes
    ensures var l := PiecesOf(v.m.ads, v.F);
      PiecesOf(w.m.ads, w.F) == l[..i] + Carve(PieceAt(v.m.ads, ad), need).1 + l[i + 1..]
  {
    GoodFree(lay, v);
    FoundView(lay, v, u, d, n, i, need, ad);
    FromListRest(lay, v, u, w, d, n, i, need, ad);
    FromListSizes(lay, v, u, w, d, n, i, need, ad);
    hide Good, FoundAt, AbsOf, Carve, PiecesOf, RestAddr, RestSet, Descs, Live, NoRepeats, Chain, Kept;
    hide OthersSame, Intact;
    SplicePieces(v.m.ads, w.m.ads, v.F, i, RestAddr(v.m, ad, need));
  }

  lemma FromListSizes(lay: Layout, v: View, u: View, w: View, d: nat, n: nat, i: nat, need: nat, ad: nat)
    requires Good(lay, v) && FoundAt(lay, v, u, d, n, i, need, ad) && ad in v.m.ads
    requires Initialised(lay, u, w, Descs(v) + RestSet(v.m, ad, need), ad, d, n)
    ensures forall x :: x in v.F && x != ad ==> x in v.m.ads && x in w.m.ads && w.m.ads[x].nbytes == v.m.ads[x].nbytes
  {
    hide Good, FoundAt, Initialised, NoRepeats, Descs, Kept, Live, Intact, Chain, RestSet;
    GoodFree(lay, v);
    FromListLive(lay, v, u, w, d, n, i, need, ad);
    KeptSizes(v.m, w.m, Descs(v) - {ad});
  }

  lemma FromListRest(lay: Layout, v: View, u: View, w: View, d: nat, n: nat, i: nat, need: nat, ad: nat)
    requires FoundAt(lay, v, u, d, n, i, need, ad) && ad in v.m.ads
    requires Initialised(lay, u, w, Descs(v) + RestSet(v.m, ad, need), ad, d, n)
    ensures need <= v.m.ads[ad].nbytes
    ensures forall x :: x in RestAddr(v.m, ad, need) ==> x in w.m.ads
    ensures PiecesOf(w.m.ads, RestAddr(v.m, ad, need)) == Carve(PieceAt(v.m.ads, ad), need).1
  {
    FoundCarved(lay, v, u, d, n, i, need, ad);
    FoundRest(lay, v, u, d, n, i, need, ad);
    InitialisedFacts(lay, u, w, Descs(v) + RestSet(v.m, ad, need), ad, d, n);
    hide *;
    PiecesFrame(u.m.ads, w.m.ads, RestAddr(v.m, ad, need));
  }

  lemma FoundRest(lay: Layout, v: View, u: View, d: nat, n: nat, i: nat, need: nat, ad: nat)
    requires FoundAt(lay, v, u, d, n, i, need, ad)
    ensures ad in v.m.ads && need <= v.m.ads[ad].nbytes
    ensures forall x :: x in RestAddr(v.m, ad, need) ==> x in u.m.ads && x in RestSet(v.m, ad, need)
    ensures PiecesOf(u.m.ads, RestAddr(v.m, ad, need)) == Carve(PieceAt(v.m.ads, ad), need).1
  {
    hide TooSmall, OthersSame, BytesAfter, ClientAfter, Descs, RestAddr, RestSet, PiecesOf, Carve, Chain;
    RestPieces(v.m, u.m, Descs(v), ad, need, ClientAfter(lay, d, ad));
  }

  lemma KeptSizes(m: Mem, m': Mem, X: set<nat>)
    requires Kept(m, m', X)
    ensures forall x :: x in X ==> x in m.ads && x in m'.ads && m'.ads[x].nbytes == m.ads[x].nbytes
  {
  }

  lemma FromListAbs(lay: Layout, v: View, u: View, w: View, d: nat, n: nat, i: nat, need: nat, ad: nat)
    requires Good(lay, v) && FoundAt(lay, v, u, d, n, i, need, ad) && Listed(w) && ad in v.m.ads
    requires Initialised(lay, u, w, Descs(v) + RestSet(v.m, ad, need), ad, d, n)
    ensures ad in w.m.ads
    ensures AllocateHeap(lay, AbsOf(v), d, n) == Some((AbsOf(w), BlockAt(w.m.ads, ad)))
  {
    hide AddrSet, OthersSame, Carved, TooSmall, Good, Spread, InOrder, Intact, Chain, FoundAt, FirstFit;
    hide BytesAfter, ClientAfter, Carve, PiecesOf, BlocksOf, NoRepeats, Kept, Initialised, Descs, Live, RestAddr;
    hide RestSet, Chained, IsPow2, Inv;
    GoodInv(lay, v);
    FoundFirst(lay, v, u, d, n, i, need, ad);
    FoundView(lay, v, u, d, n, i, need, ad);
    FoundCarved(lay, v, u, d, n, i, need, ad);
    InitialisedFacts(lay, u, w, Descs(v) + RestSet(v.m, ad, need), ad, d, n);
    FromListLive(lay, v, u, w, d, n, i, need, ad);
    FoundPlace(lay, v, i);
    KeptBlocks(v.m, w.m, Live(v), v.U);
    KeptBlocks(v.m, w.m, Live(v), v.K);
    BlocksPush(w.m.ads, ad, v.U);
    FromListPieces(lay, v, u, w, d, n, i, need, ad);
  }

  /** Some handle names the block at x. */
  ghost predicate Named(handles: map<int, nat>, x: nat) {
    exists h :: h in handles && handles[h] == x
  }

  /** Every handle names a live block, every live block has a handle, and no two handles name the same block. */
  ghost predicate OneToOne(handles: map<int, nat>, live: set<nat>) {
    && (forall h :: h in handles ==> handles[h] in live)
    && (forall x :: x in live ==> Named(handles, x))
    && (forall g, h :: g in handles && h in handles && handles[g] == handles[h] ==> g == h)
  }

  /** What block_free_heap makes of view v when it frees the block at ad: the heap pointer and the free list. */
  ghost predicate Reclaimed(v: View, ad: nat, hp: nat, free: seq<Piece>)
  {
    Listed(v) && ad in v.m.ads ==>
      var t := Reclaim(AbsOf(v), PieceAt(v.m.ads, ad));
      hp == t.hp && free == t.free
  }

  lemma ReclaimedBy(v: View, ad: nat, max: nat, at: nat, hp: nat, free: seq<Piece>)
    requires (forall x :: x in v.F ==> x in v.m.ads) && ad in v.m.ads
    requires if v.U == [] then max == NULL else at < |v.U| && max == v.U[at] && max in v.m.ads && max != NULL
    requires forall j :: 0 <= j < |v.U| ==> v.U[j] <= max
    requires if max == NULL then hp == v.segment && free == [] else
      var p, kept := PieceAt(v.m.ads, ad), UpTo(PiecesOf(v.m.ads, v.F), max);
      hp == max + v.m.ads[max].nbytes && free == if ad < max then Coalesce(InsertOrdered(p, kept)) else kept
    ensures Reclaimed(v, ad, hp, free)
  {
    if Listed(v) {
      ReclaimIs(v, ad, max, at);
    }
  }

  lemma CutDone(m: Mem, m1: Mem, m2: Mem, m': Mem, D: set<nat>, ad: nat, need: nat, ad2: nat)
    requires Spread(m.ads, D) && ad in D && ad2 == ad + need && m.ads[ad].nbytes - need >= MINBLOCKSIZE
    requires ad + BLOCK_OVERHEAD_FIXED <= ad2 && ad2 + BLOCK_OVERHEAD_FIXED <= ad + m.ads[ad].nbytes
    requires D + {ad2} <= m1.ads.Keys && OnlyDescriptors(m, m1, D + {ad2})
    requires m1.ads[ad2].nbytes == ad + m.ads[ad].nbytes - ad2 && forall x :: x in D ==> m1.ads[x] == m.ads[x]
    requires Relinked(m1, m2, D + {ad2})
    requires D + {ad2} <= m'.ads.Keys && OnlyDescriptors(m2, m', D + {ad2})
    requires m'.ads[ad] == m2.ads[ad].(nbytes := need)
    requires forall x :: x in D + {ad2} && x != ad ==> m'.ads[x] == m2.ads[x]
    ensures Cut(m, m', D, ad, need)
  {
    SplitClear(m.ads, D, ad, ad2);
    RelinkedOnly(m1, m2, D + {ad2});
    OnlyDescriptorsTransitive(m, m1, m2, D + {ad2});
    OnlyDescriptorsTransitive(m, m2, m', D + {ad2});
    SplitSpread(m.ads, m'.ads, D, ad, ad2);
    BodyClear(m'.ads, D + {ad2}, ad);
    assert SameIn(m, m', ad + AD_BYTES, ad2);
    hide OnlyDescriptors, Separate, Clear, SameIn;
    OnlyDescriptorsKeeps(m, m', D + {ad2}, D - {ad});
    assert RestSet(m, ad, need) == {ad2};
  }

  lemma CutSeparate(m: Mem, m': Mem, D: set<nat>, ad: nat, need: nat)
    requires Cut(m, m', D, ad, need)
    ensures Separate(D + RestSet(m, ad, need)) && D + RestSet(m, ad, need) <= m'.ads.Keys && ad in D && ad in m.ads
  {
    SpreadSeparate(m'.ads, D + RestSet(m, ad, need));
  }

  lemma CarvedSeparate(m: Mem, m': Mem, D: set<nat>, ad: nat, need: nat, client: int)
    requires Carved(m, m', D, ad, need, client)
    ensures Separate(D + RestSet(m, ad, need)) && D + RestSet(m, ad, need) <= m'.ads.Keys && ad in D && ad in m.ads
    ensures RestSet(m, ad, need) == AddrSet(RestAddr(m, ad, need))
    ensures RestAddr(m, ad, need) != [] ==> |RestAddr(m, ad, need)| == 1 && RestAddr(m, ad, need)[0] !in D
  {
    SpreadSeparate(m'.ads, D + RestSet(m, ad, need));
  }

  /** Unlinking does not disturb what carving achieved. */
  lemma CarvedRelinked(m: Mem, m1: Mem, m2: Mem, D: set<nat>, ad: nat, need: nat, client: int)
    requires Carved(m, m1, D, ad, need, client) && Relinked(m1, m2, D + RestSet(m, ad, need))
    ensures Carved(m, m2, D, ad, need, client)
  {
    var E := D + RestSet(m, ad, need);
    RelinkedSpread(m1, m2, E);
    RelinkedKeeps(m1, m2, E, D - {ad});
    KeptTransitive(m, m1, m2, D - {ad});
  }

  lemma WithRestFacts(s: seq<nat>, i: nat, rest: seq<nat>, D: set<nat>)
    requires i < |s| && NoRepeats(s) && AddrSet(s) <= D
    requires rest != [] ==> |rest| == 1 && rest[0] !in D
    ensures var t := WithRest(s, i + 1, rest);
      && |t| > i && t[i] == s[i] && (i > 0 ==> t[i - 1] == s[i - 1])
      && NoRepeats(t) && AddrSet(t) <= D + AddrSet(rest)
      && t[..i] + t[i + 1..] == s[..i] + rest + s[i + 1..]
      && forall x :: x in t && x in D ==> x in s
  {
    SubsetIn(s, D);
    var a, b := s[..i + 1], s[i + 1..];
    assert s == a + b;
    NoRepeatsParts(a, b);
    assert forall x :: x in a || x in b ==> x in s;
    NoRepeatsConcat(a, rest);
    NoRepeatsConcat(a + rest, b);
    WithRestShape(s, i, rest);
  }

  lemma WithRestShape(s: seq<nat>, i: nat, rest: seq<nat>)
    requires i < |s|
    ensures var t := WithRest(s, i + 1, rest);
      && |t| > i && t[i] == s[i] && (i > 0 ==> t[i - 1] == s[i - 1])
      && t[..i] + t[i + 1..] == s[..i] + rest + s[i + 1..]
  {
    var t := WithRest(s, i + 1, rest);
    assert t[..i] == s[..i];
    assert t[i + 1..] == rest + s[i + 1..];
  }

  lemma OthersSameRefl(m: Mem, D: set<nat>, s: seq<nat>)
    requires Spread(m.ads, D)
    ensures OthersSame(m, m, D, s)
  {
  }

  lemma OthersSameStep(m: Mem, m1: Mem, m2: Mem, D: set<nat>, s: seq<nat>, t: seq<nat>)
    requires OthersSame(m, m1, D, s)
    requires forall x :: x in D && x !in t ==> x in m2.ads && x in m1.ads && m2.ads[x] == m1.ads[x]
    requires forall x :: x in t && x in D ==> x in s
    ensures OthersSame(m, m2, D, s)
  {
  }

  /** The free block at x cannot hold the request. */
  predicate TooSmall(lay: Layout, d: nat, n: nat, ads: map<nat, AD>, x: nat)
    requires lay.Has(d)
  {
    x in ads && ads[x].nbytes < BytesAfter(lay, d, n, x)
  }

  lemma CutNone(m: Mem, D: set<nat>, ad: nat, need: nat)
    requires Spread(m.ads, D) && ad in D && need <= m.ads[ad].nbytes && m.ads[ad].nbytes - need < MINBLOCKSIZE
    ensures Cut(m, m, D, ad, need)
  {
    assert D + RestSet(m, ad, need) == D;
    KeptRefl(m, D - {ad});
  }

  /** Guards and client space of the descriptor's request fit in its block, past the descriptor. */
  ghost predicate RoomFor(lay: Layout, a: AD, ad: nat)
    requires lay.Has(a.dtype)
  {
    && ad + AD_BYTES + GUARD_BYTES <= a.client && a.client <= Guard2At(lay, a)
    && Guard2At(lay, a) + GUARD_BYTES <= ad + a.nbytes
  }

  lemma ChecksumAgrees(a: AD)
    ensures Checksum(a.(checksum := Checksum(a))) == Checksum(a)
  {
  }

  lemma RoomSame(lay: Layout, a: AD, b: AD, ad: nat)
    requires lay.Has(a.dtype) && RoomFor(lay, a, ad)
    requires b.dtype == a.dtype && b.nelem == a.nelem && b.client == a.client && b.nbytes == a.nbytes
    ensures RoomFor(lay, b, ad)
  {
  }

  lemma GuardsClear(lay: Layout, ads: map<nat, AD>, D: set<nat>, ad: nat)
    requires Spread(ads, D) && ad in D && lay.Has(ads[ad].dtype) && RoomFor(lay, ads[ad], ad)
    ensures D <= ads.Keys
    ensures var g1, g2 := ads[ad].client - GUARD_BYTES, Guard2At(lay, ads[ad]);
      Clear(D, g1, g1 + GUARD_BYTES) && Clear(D, g2, g2 + GUARD_BYTES) && g1 + GUARD_BYTES <= g2
  {
    hide Guard2At;
    BodyClear(ads, D, ad);
  }

  lemma GuardsKeep(lay: Layout, m: Mem, m': Mem, D: set<nat>, ad: nat)
    requires Spread(m.ads, D) && ad in D && lay.Has(m.ads[ad].dtype) && RoomFor(lay, m.ads[ad], ad)
    requires D <= m'.ads.Keys && forall x :: x in D ==> m'.ads[x] == m.ads[x]
    requires var g1, g2 := m.ads[ad].client - GUARD_BYTES, Guard2At(lay, m.ads[ad]);
      && g1 in m'.guards && m'.guards[g1] == GUARD1 && g2 in m'.guards && m'.guards[g2] == GUARD2
      && forall lo: int, hi: int {:trigger SameIn(m, m', lo, hi)} ::
        (hi <= g1 || g2 + GUARD_BYTES <= lo) || (g1 + GUARD_BYTES <= lo && hi <= g2) ==> SameIn(m, m', lo, hi)
    ensures m.ads[ad].checksum == Checksum(m.ads[ad]) ==> Intact(lay, m', ad)
    ensures Kept(m, m', D - {ad}) && SameIn(m, m', m.ads[ad].client, Guard2At(lay, m.ads[ad]))
  {
    hide Guard2At, Checksum;
    var g1, g2 := m.ads[ad].client - GUARD_BYTES, Guard2At(lay, m.ads[ad]);
    assert SameIn(m, m', m.ads[ad].client, g2);
    forall x | x in D - {ad}
      ensures SameIn(m, m', x + AD_BYTES, x + m.ads[x].nbytes)
    {
      assert x + m.ads[x].nbytes <= ad || ad + m.ads[ad].nbytes <= x;
    }
  }

  lemma DescriptorDone(m0: Mem, m1: Mem, m2: Mem, m3: Mem, D: set<nat>, ad: nat)
    requires Spread(m0.ads, D) && ad in D
    requires D <= m1.ads.Keys && OnlyDescriptors(m0, m1, D) && forall x :: x in D && x != ad ==> m1.ads[x] == m0.ads[x]
    requires D <= m2.ads.Keys && OnlyDescriptors(m1, m2, D) && forall x :: x in D && x != ad ==> m2.ads[x] == m1.ads[x]
    requires D <= m3.ads.Keys && OnlyDescriptors(m2, m3, D) && forall x :: x in D && x != ad ==> m3.ads[x] == m2.ads[x]
    requires m3.ads[ad].nbytes == m0.ads[ad].nbytes
    ensures Spread(m3.ads, D) && Kept(m0, m3, D - {ad})
  {
    OnlyDescriptorsTransitive(m0, m1, m2, D);
    OnlyDescriptorsTransitive(m0, m2, m3, D);
    forall x | x in D
      ensures Clear(D, x + AD_BYTES, x + m0.ads[x].nbytes)
    {
      BodyClear(m0.ads, D, x);
    }
    OnlyDescriptorsKeeps(m0, m3, D, D - {ad});
  }

  lemma SamePlace(s: seq<nat>, x: nat, at: nat, k: nat)
    requires at <= |s| && (forall j :: 0 <= j < at ==> s[j] <= x) && (at < |s| ==> x < s[at])
    requires k <= |s| && (forall j :: 0 <= j < k ==> s[j] < x) && (forall j :: k <= j < |s| ==> x < s[j])
    ensures at == k
  {
    assert k == |s| || x < s[k];
  }

  lemma InsertedIn(s: seq<nat>, x: nat, k: nat, E: set<nat>)
    requires k <= |s| && x in E && forall y :: y in s ==> y in E
    ensures forall y :: y in WithRest(s, k, [x]) ==> y in E
  {
  }

  lemma ChainNotNull(ads: map<nat, AD>, head: nat, s: seq<nat>, i: nat)
    requires Chain(ads, head, s) && i < |s|
    ensures s[i] != NULL
  {
  }

  /** s with rest inserted at position k. */
  function WithRest(s: seq<nat>, k: nat, rest: seq<nat>): seq<nat>
    requires k <= |s|
  {
    s[..k] + rest + s[k..]
  }

  lemma RestIs(m: Mem, ad: nat, need: nat, ad2: nat)
    requires ad in m.ads && ad2 == ad + need
    ensures m.ads[ad].nbytes - need >= MINBLOCKSIZE ==> RestAddr(m, ad, need) == [ad2]
    ensures m.ads[ad].nbytes - need < MINBLOCKSIZE ==> RestAddr(m, ad, need) == []
  {
  }

  lemma WithRestIs(s: seq<nat>, k: nat)
    requires k <= |s|
    ensures WithRest(s, k, []) == s
  {
  }

  lemma OrderFacts(ads: map<nat, AD>, s: seq<nat>, i: nat)
    requires InOrder(ads, s) && i < |s|
    ensures s[i] in ads && (forall j :: 0 <= j < i + 1 ==> s[j] <= s[i])
    ensures forall j :: i + 1 <= j < |s| ==> s[i] + ads[s[i]].nbytes <= s[j]
  {
  }

  lemma OthersSameSub(m: Mem, m': Mem, D: set<nat>, s: seq<nat>, x: nat)
    requires OthersSame(m, m', D, s + [x]) && x in s
    ensures OthersSame(m, m', D, s)
  {
  }

  /** The descriptors in D that are not on the list s have not changed. */
  ghost predicate OthersSame(m: Mem, m': Mem, D: set<nat>, s: seq<nat>) {
    forall x :: x in D && x !in s ==> x in m.ads && x in m'.ads && m'.ads[x] == m.ads[x]
  }

  /** The remainder that block_split makes of the block at ad, if any. */
  function RestAddr(m: Mem, ad: nat, need: nat): seq<nat>
    requires ad in m.ads
  {
    if m.ads[ad].nbytes - need >= MINBLOCKSIZE then [ad + need] else []
  }

  ghost function RestSet(m: Mem, ad: nat, need: nat): set<nat>
    requires ad in m.ads
  {
    AddrSet(RestAddr(m, ad, need))
  }

  /** The free block at ad of memory m has been carved for a request of need bytes. */
  ghost predicate Carved(m: Mem, m': Mem, D: set<nat>, ad: nat, need: nat, client: int) {
    && ad in D && ad in m.ads && need <= m.ads[ad].nbytes
    && Spread(m'.ads, D + RestSet(m, ad, need))
    && (RestAddr(m, ad, need) != [] ==>
          ad + need !in D && ad + need in m'.ads && m'.ads[ad + need].nbytes == m.ads[ad].nbytes - need)
    && ad in m'.ads && m'.ads[ad].nbytes == Carve(Piece(ad, m.ads[ad].nbytes), need).0 && m'.ads[ad].client == client
    && Kept(m, m', D - {ad})
  }

  lemma CarvedMembers(m: Mem, F0: seq<nat>, F: seq<nat>, i: nat, need: nat, D: set<nat>)
    requires i < |F0| && F0[i] in m.ads && F == WithRest(F0, i + 1, RestAddr(m, F0[i], need))
    requires forall x :: x in F0 ==> x in D
    ensures forall x :: x in F ==> x in D + RestSet(m, F0[i], need)
  {
  }

  lemma CarvedDone(m: Mem, m1: Mem, m': Mem, D: set<nat>, ad: nat, need: nat, client: int)
    requires Cut(m, m1, D, ad, need)
    requires D + RestSet(m, ad, need) <= m'.ads.Keys && OnlyDescriptors(m1, m', D + RestSet(m, ad, need))
    requires m'.ads[ad] == m1.ads[ad].(client := client)
    requires forall x :: x in D + RestSet(m, ad, need) && x != ad ==> m'.ads[x] == m1.ads[x]
    ensures Carved(m, m', D, ad, need, client)
  {
    var E := D + RestSet(m, ad, need);
    forall x | x in D - {ad}
      ensures Clear(E, x + AD_BYTES, x + m1.ads[x].nbytes)
    {
      BodyClear(m1.ads, E, x);
    }
    OnlyDescriptorsKeeps(m1, m', E, D - {ad});
    KeptTransitive(m, m1, m', D - {ad});
  }

  lemma SubsetIn(s: seq<nat>, D: set<nat>)
    requires AddrSet(s) <= D
    ensures forall x :: x in s ==> x in D
  {
    assert forall x :: x in s ==> x in AddrSet(s);
  }

  lemma SubsetNotIn(s: seq<nat>, t: seq<nat>, x: nat)
    requires AddrSet(s) <= AddrSet(t)
    ensures forall y :: y in s ==> y in t
  {
    assert forall y :: y in s ==> y in AddrSet(s);
  }

  lemma EmptyChain(ads: map<nat, AD>)
    ensures Chain(ads, NULL, [])
  {
  }

  lemma InSpread(ads: map<nat, AD>, D: set<nat>, F: seq<nat>, U: seq<nat>)
    requires Spread(ads, D) && AddrSet(F) + AddrSet(U) <= D
    ensures (forall x :: x in F ==> x in ads && x in D) && (forall x :: x in U ==> x in ads && x in D) && D <= ads.Keys
  {
    assert forall x :: x in F ==> x in AddrSet(F);
    assert forall x :: x in U ==> x in AddrSet(U);
  }

  /** Reclaim in terms of descriptors, given the rightmost used one. */
  lemma ReclaimIs(v: View, ad: nat, max: nat, at: nat)
    requires Listed(v) && ad in v.m.ads
    requires if v.U == [] then max == NULL else at < |v.U| && max == v.U[at]
    requires forall j :: 0 <= j < |v.U| ==> v.U[j] <= max
    ensures var t := Reclaim(AbsOf(v), PieceAt(v.m.ads, ad)); var kept := UpTo(PiecesOf(v.m.ads, v.F), max);
      if v.U == [] then t.hp == v.segment && t.free == [] else
        max in v.m.ads && t.hp == max + v.m.ads[max].nbytes
        && t.free == if ad < max then Coalesce(InsertOrdered(PieceAt(v.m.ads, ad), kept)) else kept
  {
    if v.U != [] {
      RightmostIs(v.m.ads, v.U, max, at);
      hide Rightmost, UpTo, Coalesce, InsertOrdered, PiecesOf, BlocksOf;
    }
  }

  lemma RightmostIs(ads: map<nat, AD>, U: seq<nat>, max: nat, at: nat)
    requires (forall x :: x in U ==> x in ads) && at < |U| && max == U[at]
    requires forall j :: 0 <= j < |U| ==> U[j] <= max
    ensures max in ads && BlocksOf(ads, U) != [] && Rightmost(BlocksOf(ads, U)) == BlockAt(ads, max)
  {
    var l := BlocksOf(ads, U);
    var b := Rightmost(l);
    assert l[at] in l && l[at] == BlockAt(ads, max);
    var i :| 0 <= i < |l| && l[i] == b;
    assert b == BlockAt(ads, U[i]);
  }

  // ---------- a block in the space between heap and stack ----------

  /** No space for the heap request. */
  ghost predicate NoSpace(lay: Layout, v: View, d: nat, n: nat) {
    lay.Valid() && lay.Has(d) && Listed(v) && AllocateHeap(lay, AbsOf(v), d, n) == None
  }

  /** No space for the stack request. */
  ghost predicate NoStackSpace(lay: Layout, v: View, d: nat, n: nat) {
    lay.Valid() && lay.Has(d) && Listed(v) && PushStack(lay, AbsOf(v), d, n) == None
  }

  /** MA_push_stack has turned view v into w, and the new block is at ad. */
  ghost predicate StackTaken(lay: Layout, v: View, w: View, d: nat, n: nat, ad: nat) {
    && lay.Has(d) && Good(lay, v) && Good(lay, w)
    && w == v.(m := w.m, sused := w.sused, K := [ad] + v.K, sp := ad)
    && ad !in Live(v) && ad in w.m.ads && Kept(v.m, w.m, Live(v))
    && PushStack(lay, AbsOf(v), d, n) == Some((AbsOf(w), BlockAt(w.m.ads, ad)))
  }

  /** View u is view v with a descriptor for a new block at ad, clear of all others. */
  ghost predicate Opened(v: View, u: View, ad: nat, nbytes: nat, client: int) {
    && ad !in Descs(v) && Descs(v) + {ad} <= u.m.ads.Keys && Spread(u.m.ads, Descs(v) + {ad})
    && u == v.(m := u.m)
    && u.m.ads[ad].nbytes == nbytes && u.m.ads[ad].client == client
    && (forall x :: x in Descs(v) ==> x in v.m.ads && u.m.ads[x] == v.m.ads[x])
    && Kept(v.m, u.m, Descs(v))
  }

  /** InitStackBlock has turned view u into w: the block at ad is in use. */
  ghost predicate StackInitialised(lay: Layout, u: View, w: View, E: set<nat>, ad: nat, d: nat, n: nat) {
    && E <= w.m.ads.Keys && OthersSame(u.m, w.m, E, [ad]) && Kept(u.m, w.m, E - {ad}) && ad in E
    && ad in u.m.ads && BlockAt(w.m.ads, ad) == BlockAt(u.m.ads, ad).(dtype := d, nelem := n)
    && Chain(w.m.ads, w.sused, w.K) && Intact(lay, w.m, ad)
    && w == u.(m := w.m, sused := w.sused, K := [ad] + u.K, sp := ad)
  }

  /** The space between heap and stack is clear of blocks. */
  lemma GapClear(lay: Layout, v: View, ad: nat, nbytes: nat)
    requires Good(lay, v) && v.hp <= ad && ad + nbytes <= v.sp && BLOCK_OVERHEAD_FIXED <= nbytes
    ensures Spread(v.m.ads, Descs(v)) && Descs(v) <= v.m.ads.Keys && ad !in Descs(v) && Separate(Descs(v) + {ad})
    ensures forall x :: x in Descs(v) ==> x + v.m.ads[x].nbytes <= ad || ad + nbytes <= x
  {
    GoodInv(lay, v);
    hide Good, Inv, AbsOf, Descs, Spread, Separate;
    InvSpread(lay, v);
    OutsideGap(lay, v);
    GapSeparate(v.m.ads, Descs(v), v.hp, v.sp, ad, nbytes);
  }

  lemma GapSeparate(ads: map<nat, AD>, D: set<nat>, lo: nat, hi: nat, ad: nat, nbytes: nat)
    requires Spread(ads, D) && forall x :: x in D ==> x in ads && (x + ads[x].nbytes <= lo || hi <= x)
    requires lo <= ad && ad + nbytes <= hi && BLOCK_OVERHEAD_FIXED <= nbytes
    ensures D <= ads.Keys && ad !in D && Separate(D + {ad})
    ensures forall x :: x in D ==> x + ads[x].nbytes <= ad || ad + nbytes <= x
  {
    SpreadSeparate(ads, D);
  }

  lemma OutsideGap(lay: Layout, v: View)
    requires lay.Valid() && Listed(v) && Inv(lay, AbsOf(v))
    ensures forall x :: x in Descs(v) ==> x in v.m.ads && (x + v.m.ads[x].nbytes <= v.hp || v.sp <= x)
  {
    forall x | x in Descs(v)
      ensures x in v.m.ads && (x + v.m.ads[x].nbytes <= v.hp || v.sp <= x)
    {
      if x in v.K { StackMember(lay, v, x); } else { HeapMember(v, x); }
    }
  }

  lemma OpenDone(v: View, m1: Mem, u: View, D: set<nat>, ad: nat, nbytes: nat, client: int)
    requires D == Descs(v) && Spread(v.m.ads, D) && ad !in D && BLOCK_OVERHEAD_FIXED <= nbytes
    requires forall x :: x in D ==> x + v.m.ads[x].nbytes <= ad || ad + nbytes <= x
    requires D + {ad} <= m1.ads.Keys && OnlyDescriptors(v.m, m1, D + {ad}) && m1.ads[ad].nbytes == nbytes
    requires forall x :: x in D ==> m1.ads[x] == v.m.ads[x]
    requires D + {ad} <= u.m.ads.Keys && OnlyDescriptors(m1, u.m, D + {ad})
    requires u.m.ads[ad] == m1.ads[ad].(client := client)
    requires forall x :: x in D + {ad} && x != ad ==> u.m.ads[x] == m1.ads[x]
    requires u == v.(m := u.m)
    ensures Opened(v, u, ad, nbytes, client)
  {
    hide Descs;
    OnlyDescriptorsTransitive(v.m, m1, u.m, D + {ad});
    hide OnlyDescriptors;
    assert Spread(u.m.ads, D + {ad});
    OnlyDescriptorsKeeps(v.m, u.m, D + {ad}, D);
  }

  lemma OpenFacts(v: View, u: View, ad: nat, nbytes: nat, client: int)
    requires Opened(v, u, ad, nbytes, client)
    ensures ad !in Descs(v) && ad in u.m.ads && u == v.(m := u.m)
    ensures u.m.ads[ad].nbytes == nbytes && u.m.ads[ad].client == client
    ensures forall x :: x in Descs(v) ==> x in v.m.ads && x in u.m.ads && u.m.ads[x] == v.m.ads[x]
    ensures Kept(v.m, u.m, Descs(v)) && Spread(u.m.ads, Descs(v) + {ad}) && Descs(v) + {ad} <= u.m.ads.Keys
  {
    hide Descs, Spread, Kept;
  }

  lemma OpenReadyLists(lay: Layout, v: View, u: View, ad: nat, d: nat, n: nat, nbytes: nat, client: int)
    requires Good(lay, v) && Opened(v, u, ad, nbytes, client) && lay.Has(d) && v.hp <= ad
    requires ad in u.m.ads && RoomFor(lay, u.m.ads[ad].(dtype := d, nelem := n), ad)
    ensures Ready(lay, u, ad, d, n, Descs(v) + {ad})
  {
    OpenFacts(v, u, ad, nbytes, client);
    GoodFacts(lay, v);
    HeapNotNull(lay, v);
    hide Good, Opened, RoomFor, Descs, Spread, NoRepeats, InOrder, Kept, Listed, Chain, Live;
    ChainFrame(v.m.ads, u.m.ads, v.hused, v.U);
    ChainFrame(v.m.ads, u.m.ads, v.sused, v.K);
  }

  lemma HeapNotNull(lay: Layout, v: View)
    requires Good(lay, v)
    ensures 0 < v.segment <= v.hp <= v.sp
  {
  }

  lemma OpenReady(lay: Layout, v: View, u: View, ad: nat, d: nat, n: nat, nbytes: nat, client: int)
    requires Good(lay, v) && Opened(v, u, ad, nbytes, client) && lay.Has(d) && v.hp <= ad
    requires nbytes == BytesAfter(lay, d, n, ad) && client == ClientAfter(lay, d, ad)
    ensures Ready(lay, u, ad, d, n, Descs(v) + {ad})
  {
    hide Good, Inv, Opened, RoomFor, Ready, BytesAfter, ClientAfter, Descs, Kept, Spread, IsPow2;
    OpenFacts(v, u, ad, nbytes, client);
    GoodInv(lay, v);
    RoomAfter(lay, u.m.ads[ad].(dtype := d, nelem := n), ad, nbytes);
    OpenReadyLists(lay, v, u, ad, d, n, nbytes, client);
  }

  lemma TopNeed(lay: Layout, v: View, d: nat, n: nat)
    requires Good(lay, v) && lay.Has(d) && NoFit(lay, v, d, n)
    ensures BLOCK_OVERHEAD_FIXED <= BytesAfter(lay, d, n, v.hp) && v.hp != NULL
    ensures v.hp + BytesAfter(lay, d, n, v.hp) > v.sp ==> NoSpace(lay, v, d, n)
  {
    HeapNotNull(lay, v);
    GoodInv(lay, v);
    hide Good, Inv, Listed, FirstFit, BytesAfter, PiecesOf, BlocksOf, AllocateHeap;
    AllocateNone(lay, AbsOf(v), d, n);
  }

  lemma AllocateNone(lay: Layout, s: State, d: nat, n: nat)
    requires lay.Valid() && lay.Has(d) && FirstFit(lay, d, n, s.free) == |s.free|
    ensures BLOCK_OVERHEAD_FIXED <= BytesAfter(lay, d, n, s.hp)
    ensures s.hp + BytesAfter(lay, d, n, s.hp) > s.sp ==> AllocateHeap(lay, s, d, n) == None
  {
    hide BytesAfter, ClientAfter, FirstFit, IsPow2;
    BytesAfterLower(lay, d, n, s.hp);
  }

  /** A block at the heap pointer is what AllocateHeap makes when no free block fits. */
  lemma TopAbs(lay: Layout, s: State, t: State, d: nat, n: nat, b: Block)
    requires lay.Valid() && lay.Has(d) && FirstFit(lay, d, n, s.free) == |s.free|
    requires s.hp + BytesAfter(lay, d, n, s.hp) <= s.sp
    requires b.addr == s.hp && b.nbytes == BytesAfter(lay, d, n, s.hp) && b.dtype == d && b.nelem == n
    requires b.client == ClientAfter(lay, d, s.hp)
    requires t == s.(used := [b] + s.used, hp := Max(s.hp, b.End()))
    ensures AllocateHeap(lay, s, d, n) == Some((t, b))
  {
    hide BytesAfter, ClientAfter;
  }

  /** What the initialisation of a new block left as it was. */
  lemma SameAfter(v: View, u: View, w: View, ad: nat, nbytes: nat, client: int)
    requires Opened(v, u, ad, nbytes, client)
    requires OthersSame(u.m, w.m, Descs(v) + {ad}, [ad]) && Kept(u.m, w.m, Descs(v) + {ad} - {ad})
    ensures forall x :: x in Descs(v) ==> x in v.m.ads && x in w.m.ads && w.m.ads[x] == v.m.ads[x]
    ensures Kept(v.m, w.m, Descs(v))
  {
    hide Descs, Spread;
    assert Descs(v) + {ad} - {ad} == Descs(v);
    KeptTransitive(v.m, u.m, w.m, Descs(v));
  }

  lemma FramePieces(v: View, w: View, s: seq<nat>)
    requires forall x :: x in s ==> x in v.m.ads && x in w.m.ads && w.m.ads[x] == v.m.ads[x]
    ensures PiecesOf(w.m.ads, s) == PiecesOf(v.m.ads, s)
  {
    PiecesFrame(v.m.ads, w.m.ads, s);
  }

  /** The view after the heap has grown is that of AllocateHeap. */
  lemma FromTop(lay: Layout, v: View, u: View, w: View, d: nat, n: nat, ad: nat)
    requires Good(lay, v) && lay.Has(d) && NoFit(lay, v, d, n)
    requires ad == v.hp && v.hp + BytesAfter(lay, d, n, v.hp) <= v.sp && 0 <= BytesAfter(lay, d, n, v.hp)
    requires Opened(v, u, ad, BytesAfter(lay, d, n, v.hp), ClientAfter(lay, d, v.hp))
    requires Initialised(lay, u, w, Descs(v) + {ad}, ad, d, n)
    ensures HeapTaken(lay, v, w, d, n, ad)
  {
    hide BytesAfter, ClientAfter, Descs, Live, Chain, Intact, AbsOf, Inv, Spread, OthersSame, Kept, HeapTaken;
    hide Chained, Listed;
    OpenFacts(v, u, ad, BytesAfter(lay, d, n, v.hp), ClientAfter(lay, d, v.hp));
    InitialisedFacts(lay, u, w, Descs(v) + {ad}, ad, d, n);
    SameAfter(v, u, w, ad, BytesAfter(lay, d, n, v.hp), ClientAfter(lay, d, v.hp));
    FromTopSame(lay, v, w, d, n, ad);
  }

  lemma FromTopSame(lay: Layout, v: View, w: View, d: nat, n: nat, ad: nat)
    requires Good(lay, v) && lay.Has(d) && NoFit(lay, v, d, n) && ad !in Descs(v)
    requires ad == v.hp && v.hp + BytesAfter(lay, d, n, v.hp) <= v.sp && 0 <= BytesAfter(lay, d, n, v.hp)
    requires forall x :: x in Descs(v) ==> x in v.m.ads && x in w.m.ads && w.m.ads[x] == v.m.ads[x]
    requires Kept(v.m, w.m, Descs(v)) && ad in w.m.ads && Chain(w.m.ads, w.hused, w.U) && Intact(lay, w.m, ad)
    requires BlockAt(w.m.ads, ad) == Block(ad, BytesAfter(lay, d, n, v.hp), d, n, ClientAfter(lay, d, v.hp))
    requires w == v.(m := w.m, hused := w.hused, U := [ad] + v.U, hp := Max(v.hp, ad + w.m.ads[ad].nbytes))
    ensures HeapTaken(lay, v, w, d, n, ad)
  {
    hide Good, BytesAfter, ClientAfter, Descs, Intact, Inv, Spread, Kept, HeapTaken, NoRepeats, InOrder, FirstFit;
    hide PiecesOf, BlocksOf, Chain, AllocateHeap;
    GoodFacts(lay, v);
    GoodInv(lay, v);
    FramePieces(v, w, v.F);
    FrameBlocks(v, w, v.U);
    FrameBlocks(v, w, v.K);
    TopChains(v, w);
    BlocksPush(w.m.ads, ad, v.U);
    TopAbs(lay, AbsOf(v), AbsOf(w), d, n, BlockAt(w.m.ads, ad));
    AllocateKeeps(lay, AbsOf(v), d, n);
    FromTopGood(lay, v, w, ad);
    hide AbsOf;
    TakenIs(lay, v, w, d, n, ad);
  }

  lemma TakenIs(lay: Layout, v: View, w: View, d: nat, n: nat, ad: nat)
    requires Good(lay, v) && Good(lay, w) && lay.Has(d)
    requires w == v.(m := w.m, hfree := w.hfree, F := w.F, hused := w.hused, U := [ad] + v.U, hp := w.hp)
    requires ad !in Live(v) && ad in w.m.ads && Kept(v.m, w.m, Live(v))
    requires AllocateHeap(lay, AbsOf(v), d, n) == Some((AbsOf(w), BlockAt(w.m.ads, ad)))
    ensures HeapTaken(lay, v, w, d, n, ad)
  {
  }

  lemma TopChains(v: View, w: View)
    requires Chained(v) && w.hfree == v.hfree && w.F == v.F && w.sused == v.sused && w.K == v.K
    requires Chain(w.m.ads, w.hused, w.U)
    requires forall x :: x in v.F || x in v.K ==> x in v.m.ads && x in w.m.ads && w.m.ads[x] == v.m.ads[x]
    ensures Chained(w) && Listed(w)
  {
    hide Chain;
    ChainFrame(v.m.ads, w.m.ads, v.hfree, v.F);
    ChainFrame(v.m.ads, w.m.ads, v.sused, v.K);
    AllListed(w);
  }

  /** The new live blocks are ad and the old ones, and those were kept. */
  lemma FromTopGood(lay: Layout, v: View, w: View, ad: nat)
    requires Good(lay, v) && Chained(w) && Listed(w) && Inv(lay, AbsOf(w)) && w.segment == v.segment
    requires Live(w) == Live(v) + {ad} && ad !in Descs(v) && Kept(v.m, w.m, Descs(v)) && Intact(lay, w.m, ad)
    ensures Good(lay, w) && ad !in Live(v) && Kept(v.m, w.m, Live(v))
  {
    hide Inv, AbsOf, Intact, Chained, Listed, Kept;
    assert Live(v) <= Descs(v);
    KeptSubset(v.m, w.m, Descs(v), Live(v));
    KeptSubset(v.m, w.m, Descs(v), Live(w) - {ad});
    Assemble(lay, v, w, ad);
  }

  // ---------- MA_push_stack ----------

  lemma StackNeed(lay: Layout, v: View, d: nat, n: nat)
    requires Good(lay, v) && lay.Has(d)
    ensures BLOCK_OVERHEAD_FIXED <= BytesBefore(lay, d, n, v.sp) && v.hp <= v.sp
    ensures v.sp - v.hp < BytesBefore(lay, d, n, v.sp) ==> NoStackSpace(lay, v, d, n)
  {
    hide Inv, BytesBefore, ClientBefore, Chained, Intact, BlocksOf, PiecesOf;
    BytesBeforePositive(lay, d, n, v.sp);
    BelowStack(lay, AbsOf(v));
  }

  lemma RoomBefore(lay: Layout, a: AD, ad: nat)
    requires lay.Valid() && lay.Has(a.dtype) && a.nbytes == BytesBefore(lay, a.dtype, a.nelem, ad + a.nbytes)
    requires a.client == ClientBefore(lay, a.dtype, a.nelem, ad + a.nbytes)
    ensures RoomFor(lay, a, ad)
  {
    ClientBeforePlaced(lay, a.dtype, a.nelem, ad + a.nbytes);
    BytesBeforeRounds(lay, a.dtype, a.nelem, ad + a.nbytes);
    NonNegative(a.nelem, lay.size[a.dtype]);
  }

  lemma OpenReadyBefore(lay: Layout, v: View, u: View, ad: nat, d: nat, n: nat, nbytes: nat, client: int)
    requires Good(lay, v) && Opened(v, u, ad, nbytes, client) && lay.Has(d) && v.hp <= ad && ad + nbytes == v.sp
    requires nbytes == BytesBefore(lay, d, n, v.sp) && client == ClientBefore(lay, d, n, v.sp)
    ensures Ready(lay, u, ad, d, n, Descs(v) + {ad})
  {
    hide Good, Inv, Opened, RoomFor, Ready, BytesBefore, ClientBefore, Descs, Kept, Spread, IsPow2;
    OpenFacts(v, u, ad, nbytes, client);
    GoodInv(lay, v);
    RoomBefore(lay, u.m.ads[ad].(dtype := d, nelem := n), ad);
    OpenReadyLists(lay, v, u, ad, d, n, nbytes, client);
  }

  lemma StackAbs(lay: Layout, s: State, t: State, d: nat, n: nat, b: Block)
    requires lay.Valid() && lay.Has(d) && s.hp <= b.addr && b.addr + b.nbytes == s.sp
    requires b.nbytes == BytesBefore(lay, d, n, s.sp) && b.dtype == d && b.nelem == n
    requires b.client == ClientBefore(lay, d, n, s.sp)
    requires t == s.(stack := [b] + s.stack, sp := b.addr)
    ensures PushStack(lay, s, d, n) == Some((t, b))
  {
    hide BytesBefore, ClientBefore;
  }

  lemma StackInitFacts(lay: Layout, u: View, w: View, E: set<nat>, ad: nat, d: nat, n: nat)
    requires StackInitialised(lay, u, w, E, ad, d, n)
    ensures E <= w.m.ads.Keys && Kept(u.m, w.m, E - {ad}) && OthersSame(u.m, w.m, E, [ad])
    ensures ad in u.m.ads && ad in w.m.ads && Chain(w.m.ads, w.sused, w.K) && Intact(lay, w.m, ad)
    ensures BlockAt(w.m.ads, ad) == BlockAt(u.m.ads, ad).(dtype := d, nelem := n)
    ensures w == u.(m := w.m, sused := w.sused, K := [ad] + u.K, sp := ad)
  {
    hide Kept, Chain, Intact, OthersSame;
  }

  /** The view after a block has been pushed is that of PushStack. */
  lemma FromStack(lay: Layout, v: View, u: View, w: View, d: nat, n: nat, ad: nat)
    requires Good(lay, v) && lay.Has(d) && v.hp <= ad && ad + BytesBefore(lay, d, n, v.sp) == v.sp
    requires 0 <= BytesBefore(lay, d, n, v.sp)
    requires Opened(v, u, ad, BytesBefore(lay, d, n, v.sp), ClientBefore(lay, d, n, v.sp))
    requires StackInitialised(lay, u, w, Descs(v) + {ad}, ad, d, n)
    ensures StackTaken(lay, v, w, d, n, ad)
  {
    hide BytesBefore, ClientBefore, Descs, Live, Chain, Intact, AbsOf, Inv, Spread, OthersSame, Kept, StackTaken;
    hide Chained, Listed;
    OpenFacts(v, u, ad, BytesBefore(lay, d, n, v.sp), ClientBefore(lay, d, n, v.sp));
    StackInitFacts(lay, u, w, Descs(v) + {ad}, ad, d, n);
    SameAfter(v, u, w, ad, BytesBefore(lay, d, n, v.sp), ClientBefore(lay, d, n, v.sp));
    FromStackSame(lay, v, w, d, n, ad);
  }

  lemma FromStackSame(lay: Layout, v: View, w: View, d: nat, n: nat, ad: nat)
    requires Good(lay, v) && lay.Has(d) && ad !in Descs(v)
    requires v.hp <= ad && ad + BytesBefore(lay, d, n, v.sp) == v.sp && 0 <= BytesBefore(lay, d, n, v.sp)
    requires forall x :: x in Descs(v) ==> x in v.m.ads && x in w.m.ads && w.m.ads[x] == v.m.ads[x]
    requires Kept(v.m, w.m, Descs(v)) && ad in w.m.ads && Chain(w.m.ads, w.sused, w.K) && Intact(lay, w.m, ad)
    requires BlockAt(w.m.ads, ad) == Block(ad, BytesBefore(lay, d, n, v.sp), d, n, ClientBefore(lay, d, n, v.sp))
    requires w == v.(m := w.m, sused := w.sused, K := [ad] + v.K, sp := ad)
    ensures StackTaken(lay, v, w, d, n, ad)
  {
    hide Good, BytesBefore, ClientBefore, Descs, Intact, Inv, Spread, Kept, StackTaken, NoRepeats, InOrder;
    hide PiecesOf, BlocksOf, Chain, PushStack;
    GoodFacts(lay, v);
    GoodInv(lay, v);
    FramePieces(v, w, v.F);
    FrameBlocks(v, w, v.U);
    FrameBlocks(v, w, v.K);
    PushChains(v, w);
    BlocksPush(w.m.ads, ad, v.K);
    StackAbs(lay, AbsOf(v), AbsOf(w), d, n, BlockAt(w.m.ads, ad));
    PushKeeps(lay, AbsOf(v), d, n);
    FromTopGood(lay, v, w, ad);
    hide AbsOf;
    StackTakenIs(lay, v, w, d, n, ad);
  }

  lemma StackTakenIs(lay: Layout, v: View, w: View, d: nat, n: nat, ad: nat)
    requires Good(lay, v) && Good(lay, w) && lay.Has(d)
    requires w == v.(m := w.m, sused := w.sused, K := [ad] + v.K, sp := ad)
    requires ad !in Live(v) && ad in w.m.ads && Kept(v.m, w.m, Live(v))
    requires PushStack(lay, AbsOf(v), d, n) == Some((AbsOf(w), BlockAt(w.m.ads, ad)))
    ensures StackTaken(lay, v, w, d, n, ad)
  {
  }

  lemma PushChains(v: View, w: View)
    requires Chained(v) && w.hfree == v.hfree && w.F == v.F && w.hused == v.hused && w.U == v.U
    requires Chain(w.m.ads, w.sused, w.K)
    requires forall x :: x in v.F || x in v.U ==> x in v.m.ads && x in w.m.ads && w.m.ads[x] == v.m.ads[x]
    ensures Chained(w) && Listed(w)
  {
    hide Chain;
    ChainFrame(v.m.ads, w.m.ads, v.hfree, v.F);
    ChainFrame(v.m.ads, w.m.ads, v.hused, v.U);
    AllListed(w);
  }

  // ---------- handles ----------

  /** The table has gained one handle, and the others mean what they meant. */
  ghost predicate Granted(was: map<int, nat>, now: map<int, nat>, handle: int) {
    handle !in was && handle in now && now == was[handle := now[handle]]
  }

  lemma GrantedOneToOne(was: map<int, nat>, live: set<nat>, handle: int, ad: nat)
    requires OneToOne(was, live) && handle !in was && ad !in live
    ensures OneToOne(was[handle := ad], live + {ad}) && Granted(was, was[handle := ad], handle)
  {
    var now := was[handle := ad];
    forall x | x in live + {ad}
      ensures Named(now, x)
    {
      if x == ad {
        assert now[handle] == ad;
      } else {
        var h :| h in was && was[h] == x;
        assert now[h] == x;
      }
    }
  }

  lemma HeapTakenLive(lay: Layout, v: View, w: View, d: nat, n: nat, ad: nat)
    requires HeapTaken(lay, v, w, d, n, ad)
    ensures Good(lay, w) && ad !in Live(v) && Live(w) == Live(v) + {ad} && !NoSpace(lay, v, d, n)
  {
    hide Good, AbsOf, Kept, AllocateHeap;
  }

  lemma StackTakenLive(lay: Layout, v: View, w: View, d: nat, n: nat, ad: nat)
    requires StackTaken(lay, v, w, d, n, ad)
    ensures Good(lay, w) && ad !in Live(v) && Live(w) == Live(v) + {ad} && !NoStackSpace(lay, v, d, n)
  {
    hide Good, AbsOf, Kept, PushStack;
  }

  // ---------- mh2ad ----------

  /** Where a handle's block must reside. */
  datatype BlockLocation = HeapOrStack | Heap | Stack | StackTop

  ghost predicate LivesAt(v: View, location: BlockLocation, ad: nat) {
    match location
    case HeapOrStack => ad in v.U || ad in v.K
    case Heap => ad in v.U
    case Stack => ad in v.K
    case StackTop => ad in v.K && ad == v.sp
  }

  lemma HandleLive(handles: map<int, nat>, v: View, handle: int)
    requires OneToOne(handles, Live(v)) && handle in handles
    ensures handles[handle] in Live(v) && (v.U != [] || v.K != [])
  {
  }

  /** A live block has a reasonable address and passes the checks of its checksum and guards. */
  lemma LiveAddress(lay: Layout, v: View, ad: nat)
    requires Good(lay, v) && ad in Live(v)
    ensures v.segment <= ad < v.eos && ad in v.m.ads && Sealed(lay, v.m.ads[ad], v.m.guards)
    ensures Chain(v.m.ads, v.hused, v.U) && Chain(v.m.ads, v.sused, v.K)
  {
    LivePlaced(lay, v, ad);
    var s := AbsOf(v);
    StackAscends(s.stack, s.sp, s.eos);
    if ad in v.U {
      HeapMember(v, ad);
      HeapAddress(s, PieceAt(v.m.ads, ad));
    } else {
      StackMember(lay, v, ad);
    }
  }

  lemma HeapAddress(s: State, p: Piece)
    requires HeapShape(s) && p in Elems(s.free) + Feet(s.used)
    ensures s.segment <= p.addr < s.hp
  {
    assert Tiling(Elems(s.free) + Feet(s.used), s.segment, s.hp);
  }

  // ---------- MA_free_heap ----------

  /** The block at ad is on neither heap list, and all of memory's blocks are in D. */
  ghost predicate Loose(u: View, ad: nat, D: set<nat>) {
    && Chain(u.m.ads, u.hfree, u.F) && Chain(u.m.ads, u.hused, u.U)
    && Spread(u.m.ads, D) && AddrSet(u.F) + AddrSet(u.U) <= D && ad in D
    && NoRepeats(u.F) && ad !in u.F && ad !in u.U && ad != NULL && forall x :: x in u.F ==> x !in u.U
  }

  /** block_free_heap has given the block at ad back to the heap. */
  ghost predicate Recovered(u: View, w: View, ad: nat, D: set<nat>) {
    && w == u.(m := w.m, hp := w.hp, hfree := w.hfree, F := w.F)
    && Chain(w.m.ads, w.hfree, w.F) && D <= w.m.ads.Keys && D <= u.m.ads.Keys
    && (forall x :: x in w.F ==> x in w.m.ads) && Reclaimed(u, ad, w.hp, PiecesOf(w.m.ads, w.F))
    && (forall x :: x in D && x !in u.F && x != ad ==> w.m.ads[x] == u.m.ads[x])
    && Kept(u.m, w.m, D - AddrSet(u.F) - {ad})
  }

  /** The block at ad, at position k of the used list, has been taken off it. */
  ghost predicate Unlisted(v: View, u: View, ad: nat, k: nat) {
    && k < |v.U| && v.U[k] == ad
    && u == v.(m := u.m, hused := u.hused, U := v.U[..k] + v.U[k + 1..])
    && Relinked(v.m, u.m, Descs(v)) && Chain(u.m.ads, u.hused, u.U)
    && (forall x :: x in Descs(v) && x !in v.U ==> u.m.ads[x] == v.m.ads[x])
    && ad in u.m.ads && ad in v.m.ads && u.m.ads[ad] == v.m.ads[ad]
  }

  /** MA_free_heap has turned view v into w: the block at ad is gone, and no other live block was touched. */
  ghost predicate HeapFreed(lay: Layout, v: View, w: View, ad: nat) {
    && Good(lay, v) && Good(lay, w) && ad in v.U && HasBlock(AbsOf(v).used, ad)
    && w == v.(m := w.m, hp := w.hp, hfree := w.hfree, F := w.F, hused := w.hused, U := w.U)
    && Live(w) == Live(v) - {ad} && Kept(v.m, w.m, Live(v) - {ad})
    && AbsOf(w) == FreeHeap(AbsOf(v), ad)
  }

  lemma HeapFreedLive(lay: Layout, v: View, w: View, ad: nat)
    requires HeapFreed(lay, v, w, ad)
    ensures Good(lay, w) && Live(w) == Live(v) - {ad}
  {
    hide Good, AbsOf, Kept, FreeHeap;
  }

  lemma RevokedOneToOne(was: map<int, nat>, live: set<nat>, handle: int)
    requires OneToOne(was, live) && handle in was
    ensures OneToOne(was - {handle}, live - {was[handle]})
  {
    var now := was - {handle};
    forall x | x in live - {was[handle]}
      ensures Named(now, x)
    {
      var h :| h in was && was[h] == x;
      assert now[h] == x;
    }
  }

  lemma SpreadKeys(ads: map<nat, AD>, D: set<nat>)
    requires Spread(ads, D)
    ensures D <= ads.Keys
  {
  }

  lemma UnlistedLoose(lay: Layout, v: View, u: View, ad: nat, k: nat)
    requires Good(lay, v) && Unlisted(v, u, ad, k)
    ensures Loose(u, ad, Descs(v))
  {
    hide Good, Spread, NoRepeats, Relinked, Descs, InOrder, Chain;
    GoodFacts(lay, v);
    RelinkedSpread(v.m, u.m, Descs(v));
    RelinkedOnly(v.m, u.m, Descs(v));
    ChainFrame(v.m.ads, u.m.ads, v.hfree, v.F);
    SpliceParts(v.U, k);
    assert forall x :: x in u.U ==> x in v.U;
    assert ad in v.U;
  }

  /** Only the heap pointer and the free list change. */
  lemma ReclaimOnly(s: State, p: Piece)
    ensures Reclaim(s, p) == s.(hp := Reclaim(s, p).hp, free := Reclaim(s, p).free)
  {
  }

  /** What block_free_heap makes of a view is Reclaim of its abstract state. */
  lemma RecoveredView(u: View, w: View, ad: nat, D: set<nat>)
    requires Recovered(u, w, ad, D) && Chained(u) && Listed(u) && ad in u.m.ads && ad in D
    requires forall x :: x in u.U || x in u.K ==> x in D && x !in u.F && x != ad
    ensures Chained(w) && Listed(w) && AbsOf(w) == Reclaim(AbsOf(u), PieceAt(u.m.ads, ad))
  {
    hide Chain, PiecesOf, BlocksOf, Kept;
    ChainFrame(u.m.ads, w.m.ads, w.hused, w.U);
    ChainFrame(u.m.ads, w.m.ads, w.sused, w.K);
    AllListed(w);
    FrameBlocks(u, w, u.U);
    FrameBlocks(u, w, u.K);
    ReclaimOnly(AbsOf(u), PieceAt(u.m.ads, ad));
    hide Reclaim;
  }

  lemma FrameBlocks(v: View, w: View, s: seq<nat>)
    requires forall x :: x in s ==> x in v.m.ads && x in w.m.ads && w.m.ads[x] == v.m.ads[x]
    ensures BlocksOf(w.m.ads, s) == BlocksOf(v.m.ads, s)
  {
  }

  /** Taking a block off the used list, as a step on abstract states. */
  lemma UnlistedAbs(lay: Layout, v: View, u: View, ad: nat, k: nat)
    requires Good(lay, v) && Unlisted(v, u, ad, k)
    ensures Listed(v) && HasBlock(AbsOf(v).used, ad) && IndexOf(AbsOf(v).used, ad) == k
    ensures Chained(u) && Listed(u) && AbsOf(u) == AbsOf(v).(used := RemoveAt(AbsOf(v).used, k))
    ensures AbsOf(v).used[k].Foot() == PieceAt(u.m.ads, ad)
  {
    hide Good, Spread, NoRepeats, InOrder, Inv;
    GoodFacts(lay, v);
    UnlistedSame(lay, v, u, ad, k);
    IndexIs(v, ad, k);
    RemovedBlocks(v.m.ads, u.m.ads, v.U, k);
    FramePieces(v, u, v.F);
    FrameBlocks(v, u, v.K);
  }

  lemma IndexIs(v: View, ad: nat, k: nat)
    requires Listed(v) && NoRepeats(v.U) && k < |v.U| && v.U[k] == ad
    ensures HasBlock(AbsOf(v).used, ad) && IndexOf(AbsOf(v).used, ad) == k
  {
    var l := AbsOf(v).used;
    assert l[k].addr == ad;
    var i := IndexOf(l, ad);
    assert l[i].addr == v.U[i];
  }

  lemma RemovedBlocks(ads: map<nat, AD>, ads': map<nat, AD>, s: seq<nat>, k: nat)
    requires k < |s| && forall x :: x in s ==> x in ads && x in ads' && ads'[x] == ads[x].(next := ads'[x].next)
    ensures forall x :: x in s[..k] + s[k + 1..] ==> x in ads'
    ensures BlocksOf(ads', s[..k] + s[k + 1..]) == RemoveAt(BlocksOf(ads, s), k)
  {
    hide BlocksOf;
    var t, l := s[..k] + s[k + 1..], BlocksOf(ads, s);
    assert forall x :: x in t ==> x in s;
    var r := RemoveAt(l, k);
    forall i | 0 <= i < |t|
      ensures BlocksOf(ads', t)[i] == r[i]
    {
      var j := if i < k then i else i + 1;
      assert t[i] == s[j] && r[i] == l[j] && s[j] in s;
    }
  }

  lemma UnlistedSame(lay: Layout, v: View, u: View, ad: nat, k: nat)
    requires Good(lay, v) && Unlisted(v, u, ad, k)
    ensures forall x :: x in v.U ==> x in v.m.ads && x in u.m.ads && u.m.ads[x] == v.m.ads[x].(next := u.m.ads[x].next)
    ensures forall x :: x in v.F || x in v.K ==> x in v.m.ads && x in u.m.ads && u.m.ads[x] == v.m.ads[x]
    ensures Chained(u) && Listed(u)
  {
    hide Good, Spread, NoRepeats, Descs, InOrder, Chain;
    GoodFacts(lay, v);
    ChainFrame(v.m.ads, u.m.ads, v.hfree, v.F);
    ChainFrame(v.m.ads, u.m.ads, v.sused, v.K);
    AllListed(u);
  }

  /** The view after MA_free_heap is that of FreeHeap. */
  lemma FromFree(lay: Layout, v: View, u: View, w: View, ad: nat, k: nat)
    requires Good(lay, v) && Unlisted(v, u, ad, k) && Recovered(u, w, ad, Descs(v))
    ensures HeapFreed(lay, v, w, ad)
  {
    hide Good, Kept, Chained, Listed, AbsOf, Inv, Live, FreeHeap, Reclaim, RemoveAt, Reclaimed, Relinked, Chain;
    UnlistedAbs(lay, v, u, ad, k);
    FreeParts(lay, v, u, w, ad, k);
    RecoveredView(u, w, ad, Descs(v));
    GoodInv(lay, v);
    FreeKeeps(lay, AbsOf(v), ad);
    FreeIs(AbsOf(v), ad, k);
    Assemble(lay, v, w, ad);
  }

  lemma FreeIs(s: State, ad: nat, k: nat)
    requires HasBlock(s.used, ad) && IndexOf(s.used, ad) == k
    ensures FreeHeap(s, ad) == Reclaim(s.(used := RemoveAt(s.used, k)), s.used[k].Foot())
  {
  }

  lemma LiveWithout(v: View, u: View, ad: nat, k: nat)
    requires NoRepeats(v.U) && k < |v.U| && v.U[k] == ad && u.U == v.U[..k] + v.U[k + 1..] && u.K == v.K && ad !in v.K
    ensures Live(u) == Live(v) - {ad} && Live(u) - {ad} == Live(u) && ad !in Live(u)
  {
    SpliceParts(v.U, k);
    assert v.U == v.U[..k] + [v.U[k]] + v.U[k + 1..];
    assert forall x :: x in v.U <==> x in u.U || x == ad;
  }

  lemma FreeParts(lay: Layout, v: View, u: View, w: View, ad: nat, k: nat)
    requires Good(lay, v) && Unlisted(v, u, ad, k) && Recovered(u, w, ad, Descs(v))
    ensures ad in u.m.ads && ad in Descs(v)
    ensures forall x :: x in u.U || x in u.K ==> x in Descs(v) && x !in u.F && x != ad
    ensures Live(w) == Live(v) - {ad} && Kept(v.m, w.m, Live(v) - {ad})
    ensures Live(w) - {ad} == Live(v) - {ad} && ad !in Live(w)
  {
    hide Good, InOrder, Spread, Chain, NoRepeats, Kept, Relinked, Reclaimed, PiecesOf;
    GoodFacts(lay, v);
    SpliceParts(v.U, k);
    LiveWithout(v, u, ad, k);
    RelinkedKeeps(v.m, u.m, Descs(v), Live(v) - {ad});
    KeptSubset(u.m, w.m, Descs(v) - AddrSet(u.F) - {ad}, Live(v) - {ad});
    KeptTransitive(v.m, u.m, w.m, Live(v) - {ad});
  }

  // ---------- MA_free_heap_piece ----------

  /** The block at ad can be cut after need bytes. */
  ghost predicate Cuttable(v: View, ad: nat, need: nat) {
    && ad in v.m.ads && Aligned(need) && BLOCK_OVERHEAD_FIXED <= need <= v.m.ads[ad].nbytes
  }

  /** block_split has cut the used block at ad after need bytes, if the rest was worth a block. */
  ghost predicate UsedCut(v: View, u: View, ad: nat, need: nat) {
    && u == v.(m := u.m, hfree := u.hfree) && Chain(u.m.ads, u.hfree, u.F)
    && Cut(v.m, u.m, Descs(v), ad, need)
    && OthersSame(v.m, u.m, Descs(v), v.F + [ad])
    && u.m.ads[ad].next == v.m.ads[ad].next
  }

  /** Where a block that is not free lies among the free ones. */
  lemma PlaceAmongFree(ads: map<nat, AD>, s: seq<nat>, D: set<nat>, ad: nat) returns (k: nat)
    requires Spread(ads, D) && InOrder(ads, s) && (forall x :: x in s ==> x in D) && ad in D && ad !in s
    ensures ad in ads && k <= |s| && (forall j :: 0 <= j < k ==> s[j] <= ad)
    ensures forall j :: k <= j < |s| ==> ad + ads[ad].nbytes <= s[j]
  {
    k := 0;
    while k < |s| && s[k] <= ad
      invariant k <= |s| && (forall j :: 0 <= j < k ==> s[j] <= ad)
    {
      k := k + 1;
    }
    assert k < |s| ==> ad < s[k] && s[k] in s;
  }

  /** The used block at position i cut down to need bytes, if that frees enough for a block, and the rest reclaimed. */
  function CutBack(s: State, i: nat, need: nat): State
    requires i < |s.used| && need <= s.used[i].nbytes
  {
    var b := s.used[i];
    if b.nbytes - need >= MINBLOCKSIZE then
      Reclaim(s.(used := s.used[i := b.(nbytes := need)]), Piece(b.addr + need, b.nbytes - need))
    else s
  }

  /** View w is view v with the used block at ad, at position k, cut back to need bytes. */
  ghost predicate Shortened(lay: Layout, v: View, w: View, ad: nat, k: nat, need: nat) {
    && k < |v.U| && v.U[k] == ad && Listed(v) && ad in v.m.ads && need <= v.m.ads[ad].nbytes
    && w == v.(m := w.m, hp := w.hp, hfree := w.hfree, F := w.F) && Shaped(lay, w)
    && AbsOf(w) == CutBack(AbsOf(v), k, need)
    && ad in w.m.ads && w.m.ads[ad] == v.m.ads[ad].(nbytes := Carve(PieceAt(v.m.ads, ad), need).0)
    && Kept(v.m, w.m, Live(v) - {ad}) && SameIn(v.m, w.m, ad + AD_BYTES, ad + need)
  }

  lemma UsedCutFacts(v: View, u: View, ad: nat, need: nat)
    requires UsedCut(v, u, ad, need)
    ensures u == v.(m := u.m, hfree := u.hfree) && Chain(u.m.ads, u.hfree, u.F)
    ensures ad in v.m.ads && need <= v.m.ads[ad].nbytes && ad in u.m.ads
    ensures u.m.ads[ad] == v.m.ads[ad].(nbytes := Carve(PieceAt(v.m.ads, ad), need).0)
    ensures forall x :: x in Descs(v) && x !in v.F && x != ad ==>
      x in v.m.ads && x in u.m.ads && u.m.ads[x] == v.m.ads[x]
    ensures Kept(v.m, u.m, Descs(v) - {ad}) && SameIn(v.m, u.m, ad + AD_BYTES, ad + need)
  {
    hide Chain, Spread, Kept, SameIn, Descs, RestAddr, RestSet;
  }

  ghost predicate CutAway(v: View, u: View, ad: nat, need: nat) {
    Cuttable(v, ad, need) && UsedCut(v, u, ad, need) && v.m.ads[ad].nbytes - need >= MINBLOCKSIZE
  }

  /** The heap lists are linked, have no member in common, and consist of known descriptors. */
  ghost predicate ListsApart(v: View) {
    && Chain(v.m.ads, v.hused, v.U) && NoRepeats(v.F)
    && (forall x :: x in v.F ==> x in Descs(v) && x !in v.U)
    && (forall x :: x in v.U ==> x in Descs(v) && x in v.m.ads)
  }

  lemma GoodApart(lay: Layout, v: View)
    requires Good(lay, v)
    ensures ListsApart(v)
  {
    hide Good, Chain, Spread, NoRepeats, InOrder, Descs;
    GoodFacts(lay, v);
  }

  lemma SplitLoose(v: View, u: View, ad: nat, need: nat, ad2: nat, D: set<nat>)
    requires CutAway(v, u, ad, need) && ListsApart(v) && ad in v.U && ad2 == ad + need && D == Descs(v) + {ad2}
    ensures Loose(u, ad2, D)
  {
    hide Chain, Kept, SameIn, Spread, NoRepeats, Descs, Cut, UsedCut, OthersSame;
    UsedCutFacts(v, u, ad, need);
    UsedCutRest(v, u, ad, need);
    CutChain(v, u, ad);
    assert ad2 !in v.F && ad2 !in v.U;
  }

  lemma UsedCutRest(v: View, u: View, ad: nat, need: nat)
    requires UsedCut(v, u, ad, need) && v.m.ads[ad].nbytes - need >= MINBLOCKSIZE
    ensures ad + need !in Descs(v) && ad + need in u.m.ads && u.m.ads[ad + need].nbytes == v.m.ads[ad].nbytes - need
    ensures Spread(u.m.ads, Descs(v) + {ad + need})
  {
    hide Chain, Kept, SameIn, Spread, Descs, OthersSame;
    assert RestSet(v.m, ad, need) == {ad + need};
  }

  /** The used list is still linked the way it was. */
  lemma CutChain(v: View, u: View, ad: nat)
    requires Chain(v.m.ads, v.hused, v.U) && u.U == v.U && u.hused == v.hused
    requires ad in v.m.ads && ad in u.m.ads && u.m.ads[ad].next == v.m.ads[ad].next
    requires forall x :: x in v.U && x != ad ==> x in v.m.ads && x in u.m.ads && u.m.ads[x] == v.m.ads[x]
    ensures Chain(u.m.ads, u.hused, u.U)
  {
    hide Chain;
    ChainNext(v.m.ads, u.m.ads, v.hused, v.U);
  }

  lemma CutView(lay: Layout, v: View, u: View, ad: nat, k: nat, need: nat)
    requires Good(lay, v) && k < |v.U| && v.U[k] == ad && UsedCut(v, u, ad, need)
    ensures Chained(u) && Listed(u) && Listed(v) && ad in v.m.ads && need <= v.m.ads[ad].nbytes
    ensures k < |AbsOf(v).used| && AbsOf(v).used[k] == BlockAt(v.m.ads, ad)
    ensures AbsOf(u) ==
      AbsOf(v).(used := AbsOf(v).used[k := BlockAt(v.m.ads, ad).(nbytes := Carve(PieceAt(v.m.ads, ad), need).0)])
  {
    hide Good, Chain, Kept, SameIn, Spread, NoRepeats, InOrder, Descs, Cut, OthersSame, Carve, UsedCut, PiecesOf;
    hide BlocksOf;
    GoodFacts(lay, v);
    UsedCutFacts(v, u, ad, need);
    CutChain(v, u, ad);
    ChainFrame(v.m.ads, u.m.ads, v.sused, v.K);
    AllListed(u);
    KeptSizes(v.m, u.m, Descs(v) - {ad});
    PiecesFrame(v.m.ads, u.m.ads, v.F);
    FrameBlocks(v, u, v.K);
    ResizedBlocks(v.m.ads, u.m.ads, v.U, ad, k);
  }

  lemma ResizedBlocks(ads: map<nat, AD>, ads': map<nat, AD>, s: seq<nat>, ad: nat, k: nat)
    requires k < |s| && s[k] == ad && NoRepeats(s) && forall x :: x in s ==> x in ads && x in ads'
    requires forall x :: x in s && x != ad ==> ads'[x] == ads[x]
    ensures BlocksOf(ads', s) == BlocksOf(ads, s)[k := BlockAt(ads', ad)] && BlocksOf(ads, s)[k] == BlockAt(ads, ad)
  {
    var l := BlocksOf(ads, s)[k := BlockAt(ads', ad)];
    assert forall i :: 0 <= i < |s| ==> BlocksOf(ads', s)[i] == l[i];
  }

  /** Cutting back keeps the shape of the heap. */
  lemma CutBackShape(lay: Layout, s: State, i: nat, need: nat)
    requires Inv(lay, s) && i < |s.used| && need <= s.used[i].nbytes && Aligned(need) && BLOCK_OVERHEAD_FIXED <= need
    ensures ShapeInv(lay, CutBack(s, i, need))
  {
    hide HeapInv, HeapShape, StackInv, Pending, Reclaim, Aligned;
    InvShape(lay, s);
    var t := CutBack(s, i, need);
    if s.used[i].nbytes - need >= MINBLOCKSIZE {
      var b := s.used[i];
      ShortenPending(s, i, need);
      var s0 := s.(used := s.used[i := b.(nbytes := need)]);
      ReclaimShape(s0, Piece(b.addr + need, b.nbytes - need));
      ReclaimOnly(s0, Piece(b.addr + need, b.nbytes - need));
      StackFrame(lay, s, t);
    }
  }

  lemma FromNoSplit(lay: Layout, v: View, u: View, ad: nat, k: nat, need: nat)
    requires Good(lay, v) && k < |v.U| && v.U[k] == ad && Cuttable(v, ad, need) && UsedCut(v, u, ad, need)
    requires v.m.ads[ad].nbytes - need < MINBLOCKSIZE
    ensures Shortened(lay, v, u, ad, k, need)
  {
    hide Good, Chain, Kept, SameIn, Spread, NoRepeats, InOrder, Cut, OthersSame, UsedCut, PiecesOf, BlocksOf;
    hide Chained, Inv, ShapeInv;
    GoodInv(lay, v);
    UsedCutFacts(v, u, ad, need);
    CutView(lay, v, u, ad, k, need);
    KeptSubset(v.m, u.m, Descs(v) - {ad}, Live(v) - {ad});
    GoodShaped(lay, v);
    NoSplitState(AbsOf(v), AbsOf(u), k, need);
  }

  lemma NoSplitState(s: State, t: State, k: nat, need: nat)
    requires k < |s.used| && need <= s.used[k].nbytes && s.used[k].nbytes - need < MINBLOCKSIZE
    requires t == s.(used := s.used[k := s.used[k].(nbytes := Carve(s.used[k].Foot(), need).0)])
    ensures t == s && t == CutBack(s, k, need)
  {
    assert s.used[k := s.used[k]] == s.used;
  }

  lemma FromSplit(lay: Layout, v: View, u: View, w: View, ad: nat, k: nat, need: nat, ad2: nat)
    requires Good(lay, v) && k < |v.U| && v.U[k] == ad && Cuttable(v, ad, need) && UsedCut(v, u, ad, need)
    requires v.m.ads[ad].nbytes - need >= MINBLOCKSIZE && ad2 == ad + need
    requires Recovered(u, w, ad2, Descs(v) + {ad2})
    ensures Shortened(lay, v, w, ad, k, need)
  {
    hide Good, Chain, Kept, SameIn, Spread, NoRepeats, InOrder, Cut, OthersSame, UsedCut, Loose, PiecesOf;
    hide BlocksOf, Chained, Inv, ShapeInv, AbsOf, Descs, Live, Reclaimed, Reclaim, Aligned, Listed;
    GoodInv(lay, v);
    UsedCutFacts(v, u, ad, need);
    CutView(lay, v, u, ad, k, need);
    UsedCutRest(v, u, ad, need);
    UsedIn(lay, v, ad, k);
    RecoveredView(u, w, ad2, Descs(v) + {ad2});
    CutBackShape(lay, AbsOf(v), k, need);
    SplitKept(lay, v, u, w, ad, k, need, ad2);
    SplitState(AbsOf(v), AbsOf(u), AbsOf(w), k, need);
  }

  lemma SplitState(s: State, s1: State, t: State, k: nat, need: nat)
    requires k < |s.used| && need <= s.used[k].nbytes && s.used[k].nbytes - need >= MINBLOCKSIZE
    requires s1 == s.(used := s.used[k := s.used[k].(nbytes := Carve(s.used[k].Foot(), need).0)])
    requires t == Reclaim(s1, Piece(s.used[k].addr + need, s.used[k].nbytes - need))
    ensures t == CutBack(s, k, need)
  {
    hide Reclaim;
  }

  lemma UsedIn(lay: Layout, v: View, ad: nat, k: nat)
    requires Good(lay, v) && k < |v.U| && v.U[k] == ad
    ensures forall x :: x in v.U || x in v.K ==> x in Descs(v) && x !in v.F
    ensures ad in Live(v) && ad in Descs(v) && ad !in v.F && Live(v) <= Descs(v) && Live(v) !! AddrSet(v.F)
  {
    hide Good, Chained, Listed, NoRepeats, InOrder, Spread, Descs;
    GoodFacts(lay, v);
    assert ad in v.U;
  }

  lemma SplitKept(lay: Layout, v: View, u: View, w: View, ad: nat, k: nat, need: nat, ad2: nat)
    requires Good(lay, v) && k < |v.U| && v.U[k] == ad && UsedCut(v, u, ad, need) && ad2 == ad + need
    requires ad2 !in Descs(v)
    requires Recovered(u, w, ad2, Descs(v) + {ad2}) && v.m.ads[ad].nbytes - need >= MINBLOCKSIZE
    ensures ad in u.m.ads && ad in w.m.ads && w.m.ads[ad] == u.m.ads[ad]
    ensures Kept(v.m, w.m, Live(v) - {ad}) && SameIn(v.m, w.m, ad + AD_BYTES, ad + need)
  {
    hide Good, Chain, SameIn, Spread, Cut, OthersSame, UsedCut, Descs, Live, Reclaimed, PiecesOf, AddrSet;
    UsedCutFacts(v, u, ad, need);
    UsedIn(lay, v, ad, k);
    var X := Descs(v) + {ad2} - AddrSet(u.F) - {ad2};
    assert ad in X;
    SameInTransitive(v.m, u.m, w.m, ad + AD_BYTES, ad + need);
    hide Kept;
    KeptSubset(v.m, u.m, Descs(v) - {ad}, Live(v) - {ad});
    KeptSubset(u.m, w.m, X, Live(v) - {ad});
    KeptTransitive(v.m, u.m, w.m, Live(v) - {ad});
  }

  /** The descriptor at ad would have room for kept elements. */
  ghost predicate Labelled(lay: Layout, v: View, ad: nat, kept: nat) {
    && ad in v.m.ads && ad in v.U && lay.Has(v.m.ads[ad].dtype)
    && RoomFor(lay, v.m.ads[ad].(nelem := kept), ad)
  }

  /** The block at ad now holds kept elements: descriptor and guards say so, and its remaining data are as they were. */
  ghost predicate Relabelled(lay: Layout, v: View, w: View, ad: nat, kept: nat) {
    && w == v.(m := w.m) && ad in v.m.ads && ad in w.m.ads && Descs(v) <= v.m.ads.Keys && Descs(v) <= w.m.ads.Keys
    && w.m.ads[ad] == v.m.ads[ad].(nelem := kept, checksum := w.m.ads[ad].checksum)
    && (forall x :: x in Descs(v) && x != ad ==> w.m.ads[x] == v.m.ads[x])
    && Intact(lay, w.m, ad) && Kept(v.m, w.m, Descs(v) - {ad})
    && SameIn(v.m, w.m, w.m.ads[ad].client, Guard2At(lay, w.m.ads[ad]))
  }

  lemma LabelledClear(lay: Layout, v: View, ad: nat, kept: nat)
    requires Shaped(lay, v) && Labelled(lay, v, ad, kept)
    ensures Descs(v) <= v.m.ads.Keys && ad in Descs(v)
    ensures Clear(Descs(v), v.m.ads[ad].client, Guard2At(lay, v.m.ads[ad].(nelem := kept)))
  {
    hide Shaped, Spread, NoRepeats, InOrder, Descs, Guard2At;
    ShapedFacts(lay, v);
    BodyClear(v.m.ads, Descs(v), ad);
    SpreadKeys(v.m.ads, Descs(v));
  }

  lemma RelabelDone(lay: Layout, v: View, m2: Mem, w: View, ad: nat, kept: nat)
    requires w == v.(m := w.m) && ad in Descs(v) && Descs(v) <= v.m.ads.Keys
    requires Descs(v) <= m2.ads.Keys && Descs(v) <= w.m.ads.Keys && lay.Has(v.m.ads[ad].dtype)
    requires OnlyDescriptors(v.m, m2, Descs(v)) && Kept(v.m, m2, Descs(v) - {ad})
    requires m2.ads[ad] == v.m.ads[ad].(nelem := kept, checksum := m2.ads[ad].checksum)
    requires forall x :: x in Descs(v) && x != ad ==> m2.ads[x] == v.m.ads[x]
    requires forall x :: x in Descs(v) ==> w.m.ads[x] == m2.ads[x]
    requires Clear(Descs(v), v.m.ads[ad].client, Guard2At(lay, v.m.ads[ad].(nelem := kept)))
    requires Intact(lay, w.m, ad) && Kept(m2, w.m, Descs(v) - {ad})
    requires SameIn(m2, w.m, w.m.ads[ad].client, Guard2At(lay, w.m.ads[ad]))
    ensures Relabelled(lay, v, w, ad, kept)
  {
    hide Descs, Clear, SameIn, Intact, Kept;
    KeptTransitive(v.m, m2, w.m, Descs(v) - {ad});
    var lo, hi := w.m.ads[ad].client, Guard2At(lay, w.m.ads[ad]);
    assert Guard2At(lay, v.m.ads[ad].(nelem := kept)) == hi;
    SameInTransitive(v.m, m2, w.m, lo, hi);
  }

  /** MA_free_heap_piece has shortened the block at ad by n elements; what is left of its data is as it was. */
  ghost predicate PieceFreed(lay: Layout, v: View, w: View, ad: nat, n: nat) {
    && Good(lay, v) && Good(lay, w) && ad in v.U && HasBlock(AbsOf(v).used, ad)
    && w == v.(m := w.m, hp := w.hp, hfree := w.hfree, F := w.F)
    && lay.Has(AbsOf(v).used[IndexOf(AbsOf(v).used, ad)].dtype)
    && AbsOf(w) == FreePiece(lay, AbsOf(v), ad, n)
    && Kept(v.m, w.m, Live(v) - {ad})
    && ad in w.m.ads && lay.Has(w.m.ads[ad].dtype) && SameIn(v.m, w.m, w.m.ads[ad].client, Guard2At(lay, w.m.ads[ad]))
  }

  ghost predicate FreesAll(v: View, ad: nat, n: int) {
    ad in v.m.ads && v.m.ads[ad].nelem <= n
  }

  ghost predicate FreesPart(v: View, ad: nat, n: int) {
    ad in v.m.ads && 0 <= n < v.m.ads[ad].nelem
  }

  lemma PieceFreedLive(lay: Layout, v: View, w: View, ad: nat, n: nat)
    requires PieceFreed(lay, v, w, ad, n)
    ensures Good(lay, w) && Live(w) == Live(v)
  {
    hide Good, AbsOf, Kept, FreePiece, SameIn, Guard2At;
  }

  /** The block at ad as an element of the abstract used list. */
  lemma UsedAt(lay: Layout, v: View, ad: nat, k: nat)
    requires Good(lay, v) && k < |v.U| && v.U[k] == ad
    ensures Listed(v) && ad in v.m.ads && AbsOf(v).used[k] == BlockAt(v.m.ads, ad) && Placed(lay, BlockAt(v.m.ads, ad))
    ensures HasBlock(AbsOf(v).used, ad) && IndexOf(AbsOf(v).used, ad) == k
  {
    hide Good, Inv, NoRepeats, Spread, InOrder, Placed;
    GoodInv(lay, v);
    GoodFacts(lay, v);
    UsedPlaced(lay, AbsOf(v), k);
    IndexIs(v, ad, k);
  }

  lemma PartNeed(lay: Layout, v: View, ad: nat, k: nat, kept: nat)
    requires Good(lay, v) && k < |v.U| && v.U[k] == ad && ad in v.m.ads && kept <= v.m.ads[ad].nelem
    ensures lay.Has(v.m.ads[ad].dtype) && 0 <= BytesAfter(lay, v.m.ads[ad].dtype, kept, ad)
    ensures Cuttable(v, ad, BytesAfter(lay, v.m.ads[ad].dtype, kept, ad))
  {
    hide Good, Inv, BytesAfter, ClientAfter, Listed, PiecesOf, IndexOf, HasBlock;
    UsedAt(lay, v, ad, k);
    GoodInv(lay, v);
    KeptNeed(lay, BlockAt(v.m.ads, ad), kept);
  }

  /** A block that is exactly as long as its remaining elements need is not cut. */
  lemma WholeBlock(lay: Layout, v: View, ad: nat, k: nat, need: nat)
    requires Good(lay, v) && k < |v.U| && v.U[k] == ad && ad in v.m.ads && need == v.m.ads[ad].nbytes
    ensures Shortened(lay, v, v, ad, k, need)
  {
    hide Good, Shaped, BlocksOf, PiecesOf, Inv;
    UsedAt(lay, v, ad, k);
    GoodShaped(lay, v);
    GoodFacts(lay, v);
    KeptRefl(v.m, Live(v) - {ad});
    hide AbsOf;
  }

  lemma PlacedRoom(lay: Layout, b: Block, a: AD, kept: nat, need: nat)
    requires lay.Valid() && Placed(lay, b) && need == BytesAfter(lay, b.dtype, kept, b.addr) && need <= a.nbytes
    requires a.dtype == b.dtype && a.client == b.client
    ensures RoomFor(lay, a.(nelem := kept), b.addr)
    ensures b.addr + AD_BYTES <= a.client && Guard2At(lay, a.(nelem := kept)) + GUARD_BYTES <= b.addr + need
  {
    hide BytesAfter, ClientAfter;
    ClientAfterPlaced(lay, b.dtype, b.addr);
    BytesAfterRounds(lay, b.dtype, kept, b.addr);
    NonNegative(kept, lay.size[b.dtype]);
  }

  lemma ShortenedReady(lay: Layout, v: View, u: View, ad: nat, k: nat, kept: nat, need: nat)
    requires Good(lay, v) && Shortened(lay, v, u, ad, k, need)
    requires ad in v.m.ads && lay.Has(v.m.ads[ad].dtype) && need == BytesAfter(lay, v.m.ads[ad].dtype, kept, ad)
    ensures Shaped(lay, u) && Labelled(lay, u, ad, kept)
  {
    hide Good, Inv, Shaped, BytesAfter, ClientAfter, AbsOf, Kept, SameIn, Placed, RoomFor, CutBack, IndexOf, HasBlock;
    GoodInv(lay, v);
    UsedAt(lay, v, ad, k);
    PlacedRoom(lay, BlockAt(v.m.ads, ad), u.m.ads[ad], kept, need);
  }

  /** FreePiece for a request that leaves some elements: cut back, then relabel. */
  lemma FreePieceIs(lay: Layout, s: State, ad: nat, k: nat, n: nat, need: nat, t: State)
    requires lay.Valid() && HasBlock(s.used, ad) && IndexOf(s.used, ad) == k && lay.Has(s.used[k].dtype)
    requires n < s.used[k].nelem
    requires need == BytesAfter(lay, s.used[k].dtype, s.used[k].nelem - n, ad) <= s.used[k].nbytes
    requires k < |CutBack(s, k, need).used|
    requires var u := CutBack(s, k, need);
      t == u.(used := u.used[k := u.used[k].(nelem := s.used[k].nelem - n)])
    ensures t == FreePiece(lay, s, ad, n)
  {
    hide BytesAfter, Reclaim, IndexOf, HasBlock;
    if s.used[k].nbytes - need >= MINBLOCKSIZE {
      var b := s.used[k];
      ReclaimOnly(s.(used := s.used[k := b.(nbytes := need)]), Piece(b.addr + need, b.nbytes - need));
    }
  }

  /** Relabelling changes one block's element count. */
  lemma RelabelledAbs(lay: Layout, v: View, w: View, ad: nat, k: nat, kept: nat)
    requires Shaped(lay, v) && Relabelled(lay, v, w, ad, kept) && k < |v.U| && v.U[k] == ad
    ensures Chained(w) && Listed(w) && Listed(v) && k < |AbsOf(v).used|
    ensures AbsOf(w) == AbsOf(v).(used := AbsOf(v).used[k := AbsOf(v).used[k].(nelem := kept)])
  {
    hide Shaped, Chain, PiecesOf, BlocksOf, NoRepeats, Spread, InOrder, Kept, SameIn, Intact, Descs, Guard2At;
    ShapedFacts(lay, v);
    assert ad in v.U;
    ChainFrame(v.m.ads, w.m.ads, v.hfree, v.F);
    CutChain(v, w, ad);
    ChainFrame(v.m.ads, w.m.ads, v.sused, v.K);
    AllListed(w);
    FramePieces(v, w, v.F);
    FrameBlocks(v, w, v.K);
    ResizedBlocks(v.m.ads, w.m.ads, v.U, ad, k);
  }

  lemma SameInSub(m: Mem, m': Mem, lo: int, hi: int, lo': int, hi': int)
    requires SameIn(m, m', lo, hi) && lo <= lo' && hi' <= hi
    ensures SameIn(m, m', lo', hi')
  {
  }

  /** What the two steps of MA_free_heap_piece left as it was. */
  lemma PartKept(lay: Layout, v: View, u: View, w: View, ad: nat, k: nat, kept: nat, need: nat)
    requires Good(lay, v) && Shortened(lay, v, u, ad, k, need) && Relabelled(lay, u, w, ad, kept)
    requires ad in v.m.ads && lay.Has(v.m.ads[ad].dtype) && need == BytesAfter(lay, v.m.ads[ad].dtype, kept, ad)
    ensures Kept(v.m, w.m, Live(v) - {ad}) && lay.Has(w.m.ads[ad].dtype)
    ensures SameIn(v.m, w.m, w.m.ads[ad].client, Guard2At(lay, w.m.ads[ad]))
  {
    hide Good, Shaped, Inv, AbsOf, CutBack, Kept, SameIn, Placed, BytesAfter, ClientAfter, Intact, IndexOf, HasBlock;
    GoodInv(lay, v);
    UsedAt(lay, v, ad, k);
    PlacedRoom(lay, BlockAt(v.m.ads, ad), u.m.ads[ad], kept, need);
    var lo, hi := w.m.ads[ad].client, Guard2At(lay, w.m.ads[ad]);
    assert hi == Guard2At(lay, u.m.ads[ad].(nelem := kept));
    SameInSub(v.m, u.m, ad + AD_BYTES, ad + need, lo, hi);
    SameInTransitive(v.m, u.m, w.m, lo, hi);
    KeptSubset(u.m, w.m, Descs(u) - {ad}, Live(v) - {ad});
    KeptTransitive(v.m, u.m, w.m, Live(v) - {ad});
  }

  lemma FromPart(lay: Layout, v: View, u: View, w: View, ad: nat, k: nat, n: nat, kept: nat, need: nat)
    requires Good(lay, v) && Shortened(lay, v, u, ad, k, need) && Relabelled(lay, u, w, ad, kept)
    requires ad in v.m.ads && n < v.m.ads[ad].nelem && kept == v.m.ads[ad].nelem - n
    requires lay.Has(v.m.ads[ad].dtype) && need == BytesAfter(lay, v.m.ads[ad].dtype, kept, ad)
    ensures PieceFreed(lay, v, w, ad, n)
  {
    hide Good, Shaped, Inv, AbsOf, CutBack, Kept, SameIn, Placed, BytesAfter, ClientAfter, Intact, IndexOf;
    hide HasBlock, Chained, Listed, FreePiece, Guard2At;
    GoodInv(lay, v);
    UsedAt(lay, v, ad, k);
    RelabelledAbs(lay, u, w, ad, k, kept);
    PartKept(lay, v, u, w, ad, k, kept, need);
    FreePieceIs(lay, AbsOf(v), ad, k, n, need, AbsOf(w));
    FreePieceKeeps(lay, AbsOf(v), ad, n);
    assert Live(w) == Live(v);
    Assemble(lay, v, w, ad);
  }

  // ---------- MA_pop_stack and MA_chop_stack ----------

  /** The first c members of the stack list of view v have been taken off it, and nothing else has changed. */
  ghost predicate DroppedTo(v: View, u: View, c: nat) {
    && c <= |v.K| && u == v.(sused := u.sused, K := v.K[c..]) && Chain(v.m.ads, u.sused, u.K)
  }

  /** MA_pop_stack has turned view v into w: the top block is gone, and memory has not changed. */
  ghost predicate StackPopped(lay: Layout, v: View, w: View, ad: nat) {
    && Good(lay, v) && Good(lay, w) && v.K != [] && v.K[0] == ad == v.sp && ad in v.m.ads
    && HasBlock(AbsOf(v).stack, v.sp)
    && w == v.(sused := w.sused, K := v.K[1..], sp := v.sp + v.m.ads[ad].nbytes)
    && Live(w) == Live(v) - {ad} && AbsOf(w) == PopStack(AbsOf(v))
  }

  /** MA_chop_stack has turned view v into w: the block at ad, at position k, is gone with those above it. */
  ghost predicate StackChopped(lay: Layout, v: View, w: View, ad: nat, k: nat) {
    && Good(lay, v) && Good(lay, w) && k < |v.K| && v.K[k] == ad && HasBlock(AbsOf(v).stack, ad)
    && w == v.(sused := w.sused, K := v.K[k + 1..], sp := w.sp)
    && Live(w) == Live(v) - AddrSet(v.K[..k + 1]) && AbsOf(w) == ChopStack(AbsOf(v), ad)
  }

  lemma StackPoppedLive(lay: Layout, v: View, w: View, ad: nat)
    requires StackPopped(lay, v, w, ad)
    ensures Good(lay, w) && Live(w) == Live(v) - {ad}
  {
    hide Good, AbsOf, PopStack;
  }

  lemma StackChoppedLive(lay: Layout, v: View, w: View, ad: nat, k: nat)
    requires StackChopped(lay, v, w, ad, k)
    ensures Good(lay, w) && k < |v.K| && Live(w) == Live(v) - AddrSet(v.K[..k + 1])
  {
    hide Good, AbsOf, ChopStack;
  }

  lemma DroppedNone(lay: Layout, v: View)
    requires Good(lay, v)
    ensures DroppedTo(v, v, 0) && v.sused == NextIn(v.K, -1)
  {
    hide Inv, Listed;
  }

  lemma DroppedReady(lay: Layout, v: View, u: View, c: nat)
    requires Good(lay, v) && DroppedTo(v, u, c) && c < |v.K|
    ensures Separate(Descs(v)) && Descs(v) <= u.m.ads.Keys && AddrSet(u.K) <= Descs(v) && NoRepeats(u.K)
    ensures Chain(u.m.ads, u.sused, u.K) && 0 < |u.K| && u.K[0] == v.K[c]
    ensures v.K[c..][..0] + v.K[c..][1..] == v.K[c + 1..]
  {
    hide Good, Descs, Listed, InOrder, Spread, Chained, Separate;
    GoodFacts(lay, v);
    SpreadSeparate(v.m.ads, Descs(v));
    assert forall x :: x in u.K ==> x in v.K;
  }

  lemma DroppedSame(lay: Layout, v: View, u: View, c: nat, i: nat)
    requires Good(lay, v) && DroppedTo(v, u, c)
    ensures u.m == v.m
    ensures i < |v.K| ==> v.K[i] in v.m.ads && v.K[i] != NULL && v.m.ads[v.K[i]].next == NextIn(v.K, i)
  {
    hide Inv, Listed;
  }

  lemma GoodStackOrder(lay: Layout, v: View)
    requires Good(lay, v)
    ensures forall i, j :: 0 <= i < j < |v.K| ==> v.K[i] < v.K[j]
  {
    StackOrder(lay, v);
  }

  lemma TopFirst(lay: Layout, v: View, ad: nat)
    requires Good(lay, v) && ad in v.K && ad == v.sp
    ensures |v.K| > 0 && v.K[0] == ad && v.sused == ad && ad in v.m.ads
    ensures Listed(v) && HasBlock(AbsOf(v).stack, v.sp)
  {
    var s := AbsOf(v);
    assert s.stack[0].addr == v.sp;
  }

  /** In an ascending list, the members up to the one at k are those that are not above it. */
  lemma CountBelow(s: seq<nat>, x: nat, k: nat, c: nat)
    requires k < |s| && s[k] == x && c <= |s| && forall i, j :: 0 <= i < j < |s| ==> s[i] < s[j]
    requires (forall j :: 0 <= j < c ==> s[j] <= x) && (forall j :: c <= j < |s| ==> x < s[j])
    ensures c == k + 1
  {
    assert k + 1 < |s| ==> s[k] < s[k + 1];
  }

  lemma BlocksFrom(ads: map<nat, AD>, s: seq<nat>, c: nat)
    requires c <= |s| && forall x :: x in s ==> x in ads
    ensures forall x :: x in s[c..] ==> x in ads
    ensures BlocksOf(ads, s[c..]) == BlocksOf(ads, s)[c..]
  {
  }

  /** The view after the stack pointer has been moved. */
  lemma DroppedView(lay: Layout, v: View, u: View, w: View, c: nat)
    requires Good(lay, v) && DroppedTo(v, u, c) && w == u.(sp := w.sp)
    ensures Chained(w) && Listed(w) && Listed(v)
    ensures c <= |AbsOf(v).stack| && AbsOf(w) == AbsOf(v).(stack := AbsOf(v).stack[c..], sp := w.sp)
    ensures Live(w) == Live(v) - AddrSet(v.K[..c]) && Live(w) <= Live(v)
  {
    hide Good, Chain, NoRepeats, InOrder, Spread, BlocksOf, PiecesOf, Live;
    GoodFacts(lay, v);
    AllListed(w);
    BlocksFrom(v.m.ads, v.K, c);
    DroppedLive(v, w, c);
  }

  lemma DroppedLive(v: View, w: View, c: nat)
    requires NoRepeats(v.K) && c <= |v.K| && w.K == v.K[c..] && w.U == v.U && forall x :: x in v.U ==> x !in v.K
    ensures Live(w) == Live(v) - AddrSet(v.K[..c]) && Live(w) <= Live(v)
  {
    assert v.K == v.K[..c] + v.K[c..];
    NoRepeatsParts(v.K[..c], v.K[c..]);
    assert forall x :: x in v.K <==> x in v.K[..c] || x in v.K[c..];
  }

  /** Memory has not changed, so the remaining live blocks are intact. */
  lemma DroppedGood(lay: Layout, v: View, w: View)
    requires Good(lay, v) && w.m == v.m && Live(w) <= Live(v) && w.segment == v.segment
    requires Chained(w) && Listed(w) && Inv(lay, AbsOf(w))
    ensures Good(lay, w)
  {
    hide Inv, Chained, Listed, AbsOf, Live, Intact;
  }

  lemma StackIndex(v: View, ad: nat, k: nat)
    requires Listed(v) && NoRepeats(v.K) && k < |v.K| && v.K[k] == ad
    ensures HasBlock(AbsOf(v).stack, ad) && IndexOf(AbsOf(v).stack, ad) == k
    ensures AbsOf(v).stack[k] == BlockAt(v.m.ads, ad)
  {
    var l := AbsOf(v).stack;
    assert l[k].addr == ad;
    var i := IndexOf(l, ad);
    assert l[i].addr == v.K[i];
  }

  lemma FromPop(lay: Layout, v: View, u: View, w: View, ad: nat)
    requires Good(lay, v) && DroppedTo(v, u, 1) && ad in v.K && ad == v.sp && ad in v.m.ads
    requires w == u.(sp := v.sp + v.m.ads[ad].nbytes)
    ensures StackPopped(lay, v, w, ad)
  {
    hide Good, Inv, AbsOf, Listed, Chained, Live, IndexOf, HasBlock, InOrder, Spread, NoRepeats;
    GoodInv(lay, v);
    GoodFacts(lay, v);
    TopFirst(lay, v, ad);
    AbsSp(v);
    StackIndex(v, ad, 0);
    DroppedView(lay, v, u, w, 1);
    PopKeeps(lay, AbsOf(v));
    PopIs(AbsOf(v), AbsOf(w), BlockAt(v.m.ads, ad), 0);
    assert v.K[..1] == [ad];
    assert AddrSet(v.K[..1]) == {ad};
    DroppedGood(lay, v, w);
  }

  lemma AbsSp(v: View)
    requires Listed(v)
    ensures AbsOf(v).sp == v.sp
  {
  }

  lemma PopIs(s: State, t: State, b: Block, k: nat)
    requires HasBlock(s.stack, s.sp) && IndexOf(s.stack, s.sp) == 0 && s.stack[0] == b && b.addr == s.sp
    requires t == s.(stack := s.stack[1..], sp := b.End())
    ensures t == PopStack(s)
  {
    assert RemoveAt(s.stack, 0) == s.stack[1..];
  }

  lemma FromChop(lay: Layout, v: View, u: View, w: View, ad: nat, k: nat)
    requires Good(lay, v) && k < |v.K| && v.K[k] == ad && DroppedTo(v, u, k + 1) && ad in v.m.ads
    requires w == u.(sp := ad + v.m.ads[ad].nbytes)
    ensures StackChopped(lay, v, w, ad, k)
  {
    hide Good, Inv, AbsOf, Listed, Chained, Live, IndexOf, HasBlock, InOrder, Spread, NoRepeats, ChopStack;
    GoodInv(lay, v);
    GoodFacts(lay, v);
    StackIndex(v, ad, k);
    DroppedView(lay, v, u, w, k + 1);
    ChopKeeps(lay, AbsOf(v), ad);
    ChopIs(AbsOf(v), AbsOf(w), ad, k);
    DroppedGood(lay, v, w);
  }

  lemma ChopIs(s: State, t: State, ad: nat, k: nat)
    requires HasBlock(s.stack, ad) && IndexOf(s.stack, ad) == k && k < |s.stack|
    requires ChopStack(s, ad).stack == s.stack[k + 1..] && t == s.(stack := s.stack[k + 1..], sp := s.stack[k].End())
    ensures t == ChopStack(s, ad)
  {
  }

  // ---------- popping until a block has been popped ----------

  /** The first c blocks of the stack of view v have been popped. */
  ghost predicate PoppedTo(v: View, w: View, c: nat) {
    && c <= |v.K| && w == v.(sused := w.sused, K := v.K[c..], sp := w.sp)
    && (c == 0 ==> w.sp == v.sp)
    && (c > 0 ==> v.K[c - 1] in v.m.ads && w.sp == v.K[c - 1] + v.m.ads[v.K[c - 1]].nbytes)
  }

  lemma PoppedNone(v: View)
    ensures PoppedTo(v, v, 0)
  {
  }

  lemma PoppedRest(v: View, w: View, c: nat)
    requires PoppedTo(v, w, c)
    ensures c <= |v.K| && w.K == v.K[c..] && (c < |v.K| ==> w.K != [] && w.K[0] == v.K[c])
  {
  }

  lemma NoRepeatAt(s: seq<nat>, i: nat, j: nat)
    requires NoRepeats(s) && i < |s| && j < |s|
    ensures s[i] == s[j] <==> i == j
  {
  }

  lemma PoppedStep(lay: Layout, v: View, u: View, w: View, c: nat)
    requires PoppedTo(v, u, c) && c < |v.K| && StackPopped(lay, u, w, v.K[c])
    ensures PoppedTo(v, w, c + 1) && Live(w) == Live(u) - {v.K[c]}
  {
    hide Good, AbsOf, PopStack, HasBlock;
    assert v.K[c..][1..] == v.K[c + 1..];
  }

  lemma PoppedAll(lay: Layout, v: View, w: View, ad: nat, k: nat)
    requires Good(lay, v) && Good(lay, w) && k < |v.K| && v.K[k] == ad && PoppedTo(v, w, k + 1)
    ensures StackChopped(lay, v, w, ad, k)
  {
    hide Good, Chain, StackChopped;
    GoodLinked(lay, w);
    FromChop(lay, v, w.(sp := v.sp), w, ad, k);
  }

  lemma GoodNoRepeats(lay: Layout, v: View)
    requires Good(lay, v)
    ensures NoRepeats(v.K)
  {
    hide Good, NoRepeats, Spread, InOrder, Descs, Live;
    GoodFacts(lay, v);
  }

  lemma GoodLinked(lay: Layout, v: View)
    requires Good(lay, v)
    ensures Chain(v.m.ads, v.sused, v.K)
  {
    hide Chain, Inv;
  }

  /** The top of a stack that is not empty is at the stack pointer, and it has a handle. */
  lemma TopHandle(lay: Layout, handles: map<int, nat>, v: View, top: int)
    requires Good(lay, v) && OneToOne(handles, Live(v)) && v.K != []
    requires top == TABLE_HANDLE_NONE ==> v.sp !in handles.Values
    requires top != TABLE_HANDLE_NONE ==> top in handles && handles[top] == v.sp
    ensures top in handles && handles[top] == v.sp == v.K[0] && LivesAt(v, StackTop, v.sp)
  {
    TopAtPointer(lay, v);
    assert v.sp in v.K;
    assert Named(handles, v.sp);
    var h :| h in handles && handles[h] == v.sp;
    assert handles[h] in handles.Values;
  }

  lemma TopAtPointer(lay: Layout, v: View)
    requires Good(lay, v) && v.K != []
    ensures v.K[0] == v.sp
  {
    var s := AbsOf(v);
    assert s.stack[0].addr == v.K[0];
  }

  lemma SameHandle(handles: map<int, nat>, gone: seq<nat>, g: int, h: int)
    requires Injective(handles) && g in Forget(handles, gone) && h in handles
    ensures g in handles && Forget(handles, gone)[g] == handles[g] && (handles[g] == handles[h] <==> g == h)
  {
  }

  /** Dropping the handle of one more block. */
  lemma ForgetHandle(handles: map<int, nat>, s: seq<nat>, c: nat, g: int)
    requires Injective(handles) && c < |s| && g in Forget(handles, s[..c]) && Forget(handles, s[..c])[g] == s[c]
    ensures Forget(handles, s[..c]) - {g} == Forget(handles, s[..c + 1])
  {
    ForgetInjective(handles, s[..c]);
    ForgetNext(handles, s, c);
    var m := Forget(handles, s[..c]);
    hide Forget;
    HandleGoes(m, g, s[c]);
  }

  lemma HandleGoes(handles: map<int, nat>, g: int, x: nat)
    requires Injective(handles) && g in handles && handles[g] == x
    ensures handles - {g} == Forget(handles, [x])
  {
    assert forall h :: h in handles && handles[h] == handles[g] ==> h == g;
  }

  // ---------- the handles of dropped blocks ----------

  ghost predicate Injective(handles: map<int, nat>) {
    forall g, h :: g in handles && h in handles && handles[g] == handles[h] ==> g == h
  }

  /** The handles without those of the blocks at the addresses in gone. */
  function Forget(handles: map<int, nat>, gone: seq<nat>): map<int, nat> {
    map h | h in handles && handles[h] !in gone :: handles[h]
  }

  lemma ForgetOne(handles: map<int, nat>, handle: int, ad: nat)
    requires Injective(handles)
    requires handle == TABLE_HANDLE_NONE ==> ad !in handles.Values
    requires handle != TABLE_HANDLE_NONE ==> handle in handles && handles[handle] == ad
    ensures Forget(handles, [ad]) == if handle == TABLE_HANDLE_NONE then handles else handles - {handle}
  {
    assert forall h :: h in handles ==> handles[h] in handles.Values;
    assert forall h :: h in handles && handle in handles && handles[h] == handles[handle] ==> h == handle;
  }

  lemma ForgetNone(handles: map<int, nat>, s: seq<nat>)
    ensures Forget(handles, s[..0]) == handles
  {
  }

  lemma ForgetInjective(handles: map<int, nat>, gone: seq<nat>)
    requires Injective(handles)
    ensures Injective(Forget(handles, gone))
  {
  }

  lemma ForgetNext(handles: map<int, nat>, s: seq<nat>, c: nat)
    requires c < |s|
    ensures Forget(Forget(handles, s[..c]), [s[c]]) == Forget(handles, s[..c + 1])
  {
    assert s[..c + 1] == s[..c] + [s[c]];
  }

  lemma OneToOneInjective(handles: map<int, nat>, live: set<nat>)
    requires OneToOne(handles, live)
    ensures Injective(handles)
  {
  }

  lemma ForgetOneToOne(handles: map<int, nat>, live: set<nat>, gone: seq<nat>, live': set<nat>)
    requires OneToOne(handles, live) && live' == live - AddrSet(gone)
    ensures OneToOne(Forget(handles, gone), live')
  {
    forall x | x in live'
      ensures Named(Forget(handles, gone), x)
    {
      assert x in live;
      var h :| h in handles && handles[h] == x;
      assert Forget(handles, gone)[h] == x;
    }
  }

  // ---------- MA_init ----------

  lemma EmptyLive(v: View)
    requires v.U == [] && v.K == []
    ensures Live(v) == {}
  {
  }

  lemma EmptyGood(lay: Layout, v: View, address: nat, heapBytes: nat, stackBytes: nat)
    requires lay.Valid() && Aligned(address) && Aligned(heapBytes) && Aligned(stackBytes) && 0 < address
    requires var eos := address + heapBytes + stackBytes;
      v == View(v.m, address, address + heapBytes, eos, address, eos, NULL, NULL, NULL, [], [], [])
    ensures Good(lay, v) && Listed(v) && AbsOf(v) == Init(address, heapBytes, stackBytes) && Live(v) == {}
  {
    assert AbsOf(v) == Init(address, heapBytes, stackBytes);
    InitInv(lay, address, heapBytes, stackBytes);
    hide Inv, AbsOf;
  }

  // ---------- inquiries ----------

  /** The answer of ma_max_heap_frag_nelem for the first i members of the free list. */
  ghost predicate FragSoFar(lay: Layout, d: nat, partition: nat, min: nat, ads: map<nat, AD>, s: seq<nat>, i: nat,
      most: nat)
  {
    && lay.Has(d) && i <= |s| && (forall x :: x in s ==> x in ads)
    && FragAnswer(lay, d, partition, min, PiecesOf(ads, s)[..i], most)
  }

  lemma FragStart(lay: Layout, d: nat, partition: nat, min: nat, ads: map<nat, AD>, s: seq<nat>)
    requires lay.Has(d) && forall x :: x in s ==> x in ads
    ensures FragSoFar(lay, d, partition, min, ads, s, 0, 0)
  {
  }

  lemma FragNext(lay: Layout, d: nat, partition: nat, min: nat, ads: map<nat, AD>, s: seq<nat>, i: nat, most: nat,
      found: nat)
    requires FragSoFar(lay, d, partition, min, ads, s, i, most) && lay.Valid() && i < |s|
    requires s[i] in ads && Usable(PieceAt(ads, s[i]), partition) < MinBytes(lay, d, min) ==> found == 0
    requires s[i] in ads && Usable(PieceAt(ads, s[i]), partition) >= MinBytes(lay, d, min) ==>
      MostElements(lay, d, s[i], Usable(PieceAt(ads, s[i]), partition), found)
    ensures FragSoFar(lay, d, partition, min, ads, s, i + 1, Max(most, found))
  {
    hide MostElements, FragAnswer, MinBytes, Usable, IsPow2;
    var l := PiecesOf(ads, s);
    FragStep(lay, d, partition, min, l[..i], PieceAt(ads, s[i]), most, found);
    assert l[..i + 1] == l[..i] + [PieceAt(ads, s[i])];
  }

  lemma FragEnd(lay: Layout, d: nat, partition: nat, min: nat, ads: map<nat, AD>, s: seq<nat>, i: nat, most: nat)
    requires FragSoFar(lay, d, partition, min, ads, s, i, most) && i == |s|
    ensures FragAnswer(lay, d, partition, min, PiecesOf(ads, s), most)
  {
    hide FragAnswer;
    assert PiecesOf(ads, s)[..i] == PiecesOf(ads, s);
  }

  lemma GoodLists(lay: Layout, v: View)
    requires Good(lay, v)
    ensures lay.Valid() && Chain(v.m.ads, v.hfree, v.F) && (forall x :: x in v.F ==> x in v.m.ads) && v.hp <= v.sp
  {
    hide Inv, AbsOf, Spread, InOrder, NoRepeats, Descs;
    GoodFacts(lay, v);
  }

  /** The free block at x reaches beyond the partition, and holds one element more than most. */
  ghost predicate BeyondAt(lay: Layout, v: View, d: nat, most: nat, x: nat) {
    && x in v.m.ads && lay.Has(d)
    && v.partition < x + v.m.ads[x].nbytes && BytesAfter(lay, d, most + 1, x) <= v.m.ads[x].nbytes
  }

  ghost predicate FreeBeyond(lay: Layout, v: View, d: nat, most: nat) {
    exists x :: x in v.F && BeyondAt(lay, v, d, most, x)
  }

  lemma BeyondIs(lay: Layout, v: View, d: nat, most: nat)
    requires Listed(v) && lay.Has(d)
    ensures NothingBeyond(lay, AbsOf(v), d, most) <==> !FreeBeyond(lay, v, d, most)
  {
    hide BytesAfter, BlocksOf, PiecesOf, BeyondAt, FitsPiece;
    var l := AbsOf(v).free;
    forall i | 0 <= i < |l|
      ensures l[i] == PieceAt(v.m.ads, v.F[i])
      ensures BeyondAt(lay, v, d, most, v.F[i]) <==> v.partition < l[i].End() && FitsPiece(lay, d, most + 1, l[i])
    {
      BeyondPiece(lay, v, d, most, v.F[i]);
    }
    if FreeBeyond(lay, v, d, most) {
      var x :| x in v.F && BeyondAt(lay, v, d, most, x);
      var i :| 0 <= i < |v.F| && v.F[i] == x;
      assert l[i] in l;
    }
    if !NothingBeyond(lay, AbsOf(v), d, most) {
      var p :| p in l && v.partition < p.End() && FitsPiece(lay, d, most + 1, p);
      var i :| 0 <= i < |l| && l[i] == p;
      assert v.F[i] in v.F;
    }
  }

  lemma BeyondPiece(lay: Layout, v: View, d: nat, most: nat, x: nat)
    requires lay.Has(d) && x in v.m.ads
    ensures BeyondAt(lay, v, d, most, x) <==>
      v.partition < PieceAt(v.m.ads, x).End() && FitsPiece(lay, d, most + 1, PieceAt(v.m.ads, x))
  {
    hide BytesAfter;
  }

  /** n elements fit between heap and stack, or in a fragment below the partition. */
  ghost predicate InSight(lay: Layout, v: View, d: nat, n: nat) {
    && lay.Has(d)
    && (v.hp + BytesAfter(lay, d, n, v.hp) <= v.sp || exists x :: x in v.F && SightAt(lay, v, d, n, x))
  }

  ghost predicate SightAt(lay: Layout, v: View, d: nat, n: nat, x: nat)
    requires lay.Has(d)
  {
    && x in v.m.ads && x < v.partition
    && var end := x + v.m.ads[x].nbytes;
      x + BytesAfter(lay, d, n, x) <= if end < v.partition then end else v.partition
  }

  lemma SightIs(lay: Layout, v: View, d: nat, n: nat)
    requires lay.Has(d) && forall x :: x in v.F ==> x in v.m.ads
    ensures (exists x :: x in v.F && SightAt(lay, v, d, n, x)) <==>
      SomeFitsBelow(lay, d, v.partition, n, PiecesOf(v.m.ads, v.F))
  {
    var l := PiecesOf(v.m.ads, v.F);
    hide BytesAfter;
    forall i | 0 <= i < |l|
      ensures l[i] == PieceAt(v.m.ads, v.F[i])
      ensures SightAt(lay, v, d, n, v.F[i]) <==> FitsBelow(lay, d, v.partition, n, l[i])
    {
    }
    hide SightAt, FitsBelow, PiecesOf;
    if x :| x in v.F && SightAt(lay, v, d, n, x) {
      var i :| 0 <= i < |v.F| && v.F[i] == x;
      assert l[i] in l;
    }
    if SomeFitsBelow(lay, d, v.partition, n, l) {
      var p :| p in l && FitsBelow(lay, d, v.partition, n, p);
      var i :| 0 <= i < |l| && l[i] == p;
      assert v.F[i] in v.F;
    }
  }

  /** The answer of the heap inquiry, exactly. */
  lemma InquiryInSight(lay: Layout, v: View, d: nat, gap: nat, frag: nat)
    requires Good(lay, v) && lay.Has(d) && forall x :: x in v.F ==> x in v.m.ads
    requires if v.sp > v.hp then MostElements(lay, d, v.hp, v.sp - v.hp, gap) else gap == 0
    requires FragAnswer(lay, d, v.partition, gap, PiecesOf(v.m.ads, v.F), frag)
    ensures forall n: nat :: 1 <= n ==> (n <= Max(gap, frag) <==> InSight(lay, v, d, n))
  {
    hide Good, Inv, MostElements, FragAnswer, SomeFitsBelow, SightAt, BytesAfter, IsPow2, PiecesOf, BlocksOf;
    GoodInv(lay, v);
    BelowStack(lay, AbsOf(v));
    forall n: nat | 1 <= n
      ensures n <= Max(gap, frag) <==> InSight(lay, v, d, n)
    {
      AnswerIs(lay, AbsOf(v), d, gap, frag, n);
      SightIs(lay, v, d, n);
    }
  }

  lemma BelowStack(lay: Layout, s: State)
    requires Inv(lay, s)
    ensures s.hp <= s.sp
  {
  }

  lemma HeapInquiry(lay: Layout, v: View, d: nat, gap: nat, frag: nat)
    requires Good(lay, v) && lay.Has(d) && forall x :: x in v.F ==> x in v.m.ads
    requires if v.sp > v.hp then MostElements(lay, d, v.hp, v.sp - v.hp, gap) else gap == 0
    requires FragAnswer(lay, d, v.partition, gap, PiecesOf(v.m.ads, v.F), frag)
    ensures forall n: nat :: 1 <= n <= Max(gap, frag) ==> !NoSpace(lay, v, d, n)
    ensures (forall n: nat :: 1 <= n ==> (n <= Max(gap, frag) <==> !NoSpace(lay, v, d, n)))
      <==> !FreeBeyond(lay, v, d, Max(gap, frag))
    ensures v.hp <= v.partition ==> !FreeBeyond(lay, v, d, Max(gap, frag))
  {
    hide Good, Inv, MostElements, FragAnswer, AllocateHeap, IsPow2, PiecesOf, BlocksOf, NothingBeyond, FreeBeyond;
    GoodInv(lay, v);
    var most := Max(gap, frag);
    InquiryIsExact(lay, AbsOf(v), d, gap, frag);
    BeyondIs(lay, v, d, most);
    assert forall n: nat :: HasSpace(lay, AbsOf(v), d, n) <==> !NoSpace(lay, v, d, n);
  }

  lemma StackInquiry(lay: Layout, v: View, d: nat, gap: nat)
    requires Good(lay, v) && lay.Has(d)
    requires if v.sp > v.hp then MostElements(lay, d, v.hp, v.sp - v.hp, gap) else gap == 0
    ensures forall n: nat :: 1 <= n ==> (n <= gap <==> !NoStackSpace(lay, v, d, n))
  {
    hide Good, Inv, MostElements, PushStack, IsPow2, PiecesOf, BlocksOf;
    GoodInv(lay, v);
    forall n: nat | 1 <= n
      ensures n <= gap <==> !NoStackSpace(lay, v, d, n)
    {
      StackInquiryIsExact(lay, AbsOf(v), d, gap, n);
    }
  }

  // ---------- the client ----------

  /** offset is inside the client space of the live block at ad. */
  ghost predicate InClient(lay: Layout, v: View, ad: nat, offset: nat) {
    ad in v.m.ads && lay.Has(v.m.ads[ad].dtype) && v.m.ads[ad].client + offset < Guard2At(lay, v.m.ads[ad])
  }

  /**
   * The client of the block at ad has stored a byte: that byte is the only one to change, and no other block is
   * touched.
   */
  ghost predicate Stored(lay: Layout, v: View, w: View, ad: nat, offset: nat, value: int) {
    && Good(lay, w) && Listed(v) && AbsOf(w) == AbsOf(v) && Kept(v.m, w.m, Live(v) - {ad}) && ad in v.m.ads
    && w.m.data == v.m.data[v.m.ads[ad].client + offset := value]
  }

  lemma PutByteSame(m: Mem, a: int, value: int, lo: int, hi: int)
    requires a < lo || hi <= a
    ensures SameIn(m, PutByte(m, a, value), lo, hi)
  {
  }

  lemma PutByteClear(m: Mem, a: int, value: int, D: set<nat>)
    requires Clear(D, a, a + 1) && D <= m.ads.Keys
    ensures forall x :: x in D ==> x in PutByte(m, a, value).ads && PutByte(m, a, value).ads[x] == m.ads[x]
  {
  }

  lemma StoreKept(v: View, w: View, D: set<nat>, ad: nat, a: int, value: int)
    requires Spread(v.m.ads, D) && ad in D && ad + AD_BYTES <= a < ad + v.m.ads[ad].nbytes
    requires w.m == PutByte(v.m, a, value)
    ensures forall x :: x in D ==> x in v.m.ads && x in w.m.ads && w.m.ads[x] == v.m.ads[x]
    ensures Kept(v.m, w.m, D - {ad})
  {
    BodyClear(v.m.ads, D, ad);
    hide SameIn;
    PutByteClear(v.m, a, value, D);
    forall x | x in D - {ad}
      ensures SameIn(v.m, w.m, x + AD_BYTES, x + v.m.ads[x].nbytes)
    {
      PutByteSame(v.m, a, value, x + AD_BYTES, x + v.m.ads[x].nbytes);
    }
  }

  /** A byte between the guards does not touch them. */
  lemma StoreIntact(lay: Layout, m: Mem, m': Mem, x: nat, a: int, value: int)
    requires Intact(lay, m, x) && x in m'.ads && m'.ads[x] == m.ads[x] && m' == PutByte(m, a, value)
    requires m.ads[x].client <= a < Guard2At(lay, m.ads[x])
    ensures Intact(lay, m', x)
  {
    hide Guard2At, Checksum;
  }

  lemma ClientBounds(lay: Layout, v: View, ad: nat)
    requires Good(lay, v) && ad in Live(v)
    ensures ad in v.m.ads && Intact(lay, v.m, ad) && lay.Has(v.m.ads[ad].dtype) && ad in Descs(v)
    ensures ad + AD_BYTES <= v.m.ads[ad].client && Guard2At(lay, v.m.ads[ad]) <= ad + v.m.ads[ad].nbytes
  {
    hide Placed, PlacedBefore, Inv, AbsOf, IsPow2;
    LivePlaced(lay, v, ad);
    ClientInside(lay, BlockAt(v.m.ads, ad));
  }

  lemma StoreGood(lay: Layout, v: View, w: View, ad: nat, offset: nat, value: int)
    requires Good(lay, v) && ad in Live(v) && InClient(lay, v, ad, offset)
    requires w == v.(m := PutByte(v.m, v.m.ads[ad].client + offset, value))
    ensures Good(lay, w) && Live(w) == Live(v) && Stored(lay, v, w, ad, offset, value)
  {
    hide Good, Intact, Inv, Descs, Spread, InOrder, NoRepeats, Kept, Chain, PiecesOf, BlocksOf, Guard2At;
    var a := v.m.ads[ad].client + offset;
    GoodFacts(lay, v);
    GoodInv(lay, v);
    ClientBounds(lay, v, ad);
    StoreKept(v, w, Descs(v), ad, a, value);
    ChainFrame(v.m.ads, w.m.ads, v.hfree, v.F);
    ChainFrame(v.m.ads, w.m.ads, v.hused, v.U);
    ChainFrame(v.m.ads, w.m.ads, v.sused, v.K);
    FramePieces(v, w, v.F);
    FrameBlocks(v, w, v.U);
    FrameBlocks(v, w, v.K);
    StoreIntact(lay, v.m, w.m, ad, a, value);
    KeptSubset(v.m, w.m, Descs(v) - {ad}, Live(v) - {ad});
    Assemble(lay, v, w, ad);
  }
}
