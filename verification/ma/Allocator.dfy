/**
 * The allocator itself: globals, linked lists in memory and the table of handles, with the operations
 * of ma.c updating them in place. Every operation is proved against the state machine in Arena.dfy.
 */
module Allocators {
  import opened Arithmetic
  import opened Placement
  import opened Arena
  import opened Tilings
  import opened FreeLists
  import opened Invariant
  import opened Memory
  import opened Views
  import opened BlockSteps
  import opened HandleTables
  import opened Inquiry

  /** The maximum of the addresses in s is max, at position at; it is NULL if there are none. */
  ghost predicate Highest(s: seq<nat>, max: nat, at: nat) {
    && (if s == [] then max == NULL else at < |s| && max == s[at] && max != NULL)
    && forall j :: 0 <= j < |s| ==> s[j] <= max
  }

  lemma HighestNext(s: seq<nat>, max: nat, at: nat, cur: nat)
    requires Highest(s, max, at) && cur != NULL
    ensures if cur > max then Highest(s + [cur], cur, |s|) else Highest(s + [cur], max, at)
  {
  }

  class Allocator {
    const lay: Layout
    const ram: Ram
    const table: HandleTable
    var segment: nat
    var partition: nat
    var eos: nat
    var hp: nat
    var sp: nat
    var hfree: nat
    var hused: nat
    var sused: nat
    ghost var F: seq<nat>
    ghost var U: seq<nat>
    ghost var K: seq<nat>

    var initialized: bool

    /** The allocator before MA_init. */
    constructor (lay: Layout)
      requires lay.Valid()
      ensures Valid() && !initialized && table.Live() == map[]
      ensures this.lay == lay && fresh(ram) && fresh(table)
    {
      this.lay := lay;
      ram := new Ram();
      table := new HandleTable();
      F, U, K := [], [], [];
      initialized := false;
      new;
      assert Live(Now()) == {};
    }

    /** Once initialized, the view is good; and the handles in use correspond one to one to the live blocks. */
    ghost predicate Valid()
      reads this, ram, table
    {
      && lay.Valid() && table.Valid()
      && (initialized ==> Good(lay, Now()))
      && (!initialized ==> U == [] && K == [])
      && OneToOne(table.Live(), Live(Now()))
    }

    lemma ValidIs()
      requires lay.Valid() && table.Valid() && (initialized ==> Good(lay, Now()))
      requires (!initialized ==> U == [] && K == []) && OneToOne(table.Live(), Live(Now()))
      ensures Valid()
    {
    }

    lemma ValidParts()
      requires Valid()
      ensures lay.Valid() && table.Valid() && (initialized ==> Good(lay, Now()))
      ensures (!initialized ==> U == [] && K == []) && OneToOne(table.Live(), Live(Now()))
    {
    }

    ghost function Now(): View
      reads this, ram
    {
      View(ram.mem, segment, partition, eos, hp, sp, hfree, hused, sused, F, U, K)
    }

    // ---------- block_free_heap ----------

    /** The address of the rightmost used block, or NULL. */
    method FindRightmost() returns (max: nat, ghost at: nat)
      requires Chain(ram.mem.ads, hused, U)
      ensures if U == [] then max == NULL else at < |U| && max == U[at] && max != NULL
      ensures forall j :: 0 <= j < |U| ==> U[j] <= max
    {
      max, at := NULL, 0;
      var cur := hused;
      ghost var i := 0;
      while cur != NULL
        invariant 0 <= i <= |U| && cur == NextIn(U, i - 1)
        invariant Highest(U[..i], max, at)
        decreases |U| - i
      {
        assert U[..i + 1] == U[..i] + [cur];
        HighestNext(U[..i], max, at, cur);
        if cur > max {
          max, at := cur, i;
        }
        cur := ram.mem.ads[cur].next;
        i := i + 1;
      }
      assert U[..i] == U;
    }

    // ---------- a new block ----------

    /** guard_set */
    method GuardSet(ad: nat, ghost D: set<nat>)
      requires Spread(ram.mem.ads, D) && ad in D && lay.Has(ram.mem.ads[ad].dtype)
      requires RoomFor(lay, ram.mem.ads[ad], ad)
      modifies ram
      ensures D <= ram.mem.ads.Keys && forall x :: x in D ==> ram.mem.ads[x] == old(ram.mem).ads[x]
      ensures old(ram.mem.ads[ad].checksum == Checksum(ram.mem.ads[ad])) ==> Intact(lay, ram.mem, ad)
      ensures var a := ram.mem.ads[ad];
        && a.client - GUARD_BYTES in ram.mem.guards && ram.mem.guards[a.client - GUARD_BYTES] == 0xaaaaaaaa
        && Guard2At(lay, a) in ram.mem.guards && ram.mem.guards[Guard2At(lay, a)] == 0x55555555
      ensures Kept(old(ram.mem), ram.mem, D - {ad})
      ensures SameIn(old(ram.mem), ram.mem, ram.mem.ads[ad].client, Guard2At(lay, ram.mem.ads[ad]))
    {
      var a := ram.mem.ads[ad];
      GuardsClear(lay, ram.mem.ads, D, ad);
      hide Spread, Clear, SameIn, Kept, Guard2At;
      ram.SetGuards(a.client - GUARD_BYTES, Guard2At(lay, a), D);
      GuardsKeep(lay, old(ram.mem), ram.mem, D, ad);
    }

    /** Fills in the descriptor at ad and puts it on a used list. */
    method InitDescriptor(head: nat, ad: nat, d: nat, n: nat, ghost s: seq<nat>, ghost D: set<nat>) returns (head': nat)
      requires Chain(ram.mem.ads, head, s) && Spread(ram.mem.ads, D) && ad in D && AddrSet(s) <= D && ad !in s
      requires ad != NULL
      modifies ram
      ensures Spread(ram.mem.ads, D) && ad in ram.mem.ads && Chain(ram.mem.ads, head', [ad] + s)
      ensures OthersSame(old(ram.mem), ram.mem, D, [ad])
      ensures ram.mem.ads[ad].dtype == d && ram.mem.ads[ad].nelem == n
      ensures ram.mem.ads[ad].client == old(ram.mem).ads[ad].client
      ensures ram.mem.ads[ad].nbytes == old(ram.mem).ads[ad].nbytes
      ensures ram.mem.ads[ad].checksum == Checksum(ram.mem.ads[ad])
      ensures Kept(old(ram.mem), ram.mem, D - {ad})
    {
      ghost var m0 := ram.mem;
      SpreadSeparate(ram.mem.ads, D);
      SubsetIn(s, D);
      hide Spread, Separate, OnlyDescriptors, Chain, Kept;
      ram.SetRequest(ad, d, n, D);
      ghost var m1 := ram.mem;
      ChainFrame(m0.ads, m1.ads, head, s);
      head' := ram.ListInsert(head, ad, s, D);
      ghost var m2 := ram.mem;
      RelinkedOnly(m1, m2, D);
      ChecksumAgrees(m2.ads[ad]);
      hide Checksum;
      ram.SetChecksum(ad, Checksum(ram.mem.ads[ad]), D);
      ChainNext(m2.ads, ram.mem.ads, head', [ad] + s);
      DescriptorDone(m0, m1, m2, ram.mem, D, ad);
    }

    /**
     * The part that heap and stack allocation share: fill in the descriptor at ad, put it on a used list, set the
     * guards.
     */
    method InitBlock(head: nat, ad: nat, d: nat, n: nat, ghost s: seq<nat>, ghost D: set<nat>) returns (head': nat)
      requires Chain(ram.mem.ads, head, s) && Spread(ram.mem.ads, D) && ad in D && AddrSet(s) <= D && ad !in s
      requires ad != NULL
      requires lay.Has(d) && RoomFor(lay, ram.mem.ads[ad].(dtype := d, nelem := n), ad)
      modifies ram
      ensures D <= ram.mem.ads.Keys && Chain(ram.mem.ads, head', [ad] + s)
      ensures OthersSame(old(ram.mem), ram.mem, D, [ad])
      ensures ram.mem.ads[ad].dtype == d && ram.mem.ads[ad].nelem == n
      ensures ram.mem.ads[ad].client == old(ram.mem).ads[ad].client
      ensures ram.mem.ads[ad].nbytes == old(ram.mem).ads[ad].nbytes
      ensures Intact(lay, ram.mem, ad) && Kept(old(ram.mem), ram.mem, D - {ad})
    {
      ghost var m0 := ram.mem;
      SubsetIn(s, D);
      head' := InitDescriptor(head, ad, d, n, s, D);
      ghost var m3 := ram.mem;
      RoomSame(lay, m0.ads[ad].(dtype := d, nelem := n), m3.ads[ad], ad);
      hide Spread, Chain, Kept, Intact, RoomFor, Checksum;
      GuardSet(ad, D);
      ChainFrame(m3.ads, ram.mem.ads, head', [ad] + s);
      KeptTransitive(m0, m3, ram.mem, D - {ad});
    }

    // ---------- block_split ----------

    /** block_split's optional insertion of the remainder ad2, whose place on the free list is k. */
    method PlaceRest(ad2: nat, insertFree: bool, ghost k: nat, ghost E: set<nat>)
      requires Chain(ram.mem.ads, hfree, F) && Separate(E) && E <= ram.mem.ads.Keys && AddrSet(F) <= E && NoRepeats(F)
      requires ad2 in E && ad2 !in F && ad2 != NULL
      requires k <= |F| && (forall j :: 0 <= j < k ==> F[j] < ad2) && (forall j :: k <= j < |F| ==> ad2 < F[j])
      modifies this`hfree, this`F, ram
      ensures Relinked(old(ram.mem), ram.mem, E) && Chain(ram.mem.ads, hfree, F)
      ensures F == if insertFree then WithRest(old(F), k, [ad2]) else old(F)
      ensures forall x :: x in F ==> x in E
      ensures forall x :: x in E && x != ad2 && x !in old(F) ==> ram.mem.ads[x] == old(ram.mem).ads[x]
    {
      SubsetIn(F, E);
      RelinkedRefl(ram.mem, E);
      InsertedIn(F, ad2, k, E);
      hide Separate, Chain, NoRepeats, Relinked;
      if insertFree {
        ghost var at;
        hfree, at := ram.ListInsertOrdered(hfree, ad2, F, E);
        SamePlace(F, ad2, at, k);
        F := WithRest(F, at, [ad2]);
      }
    }

    /**
     * block_split: cuts the block at ad after need bytes if the rest is worth a block, and puts the rest on
     * the free list if asked to. F[..k] are the free blocks below ad, and ad itself if it is free.
     */
    method BlockSplit(ad: nat, need: nat, insertFree: bool, ghost k: nat, ghost D: set<nat>) returns (ad2: nat)
      requires Chain(ram.mem.ads, hfree, F) && Spread(ram.mem.ads, D) && AddrSet(F) <= D && NoRepeats(F)
      requires ad in D && ad != NULL && BLOCK_OVERHEAD_FIXED <= need <= ram.mem.ads[ad].nbytes
      requires k <= |F| && (forall j :: 0 <= j < k ==> F[j] <= ad)
      requires forall j :: k <= j < |F| ==> ad + ram.mem.ads[ad].nbytes <= F[j]
      modifies this`hfree, this`F, ram
      ensures ad2 != NULL <==> old(ram.mem.ads[ad].nbytes) - need >= MINBLOCKSIZE
      ensures Aligned(old(ram.mem.ads[ad].nbytes) - need) ==>
        (ad2 != NULL <==> old(ram.mem.ads[ad].nbytes) - need >= AD_BYTES + 2 * GUARD_BYTES + ALIGNMENT)
      ensures ad2 != NULL ==> ad2 == ad + need
      ensures Cut(old(ram.mem), ram.mem, D, ad, need)
      ensures F == if insertFree then WithRest(old(F), k, RestAddr(old(ram.mem), ad, need)) else old(F)
      ensures Chain(ram.mem.ads, hfree, F)
      ensures OthersSame(old(ram.mem), ram.mem, D, old(F) + [ad])
      ensures ad !in old(F) ==> ram.mem.ads[ad].next == old(ram.mem).ads[ad].next
    {
      hide Aligned, RoundUp;
      var extra := ram.mem.ads[ad].nbytes - need;
      WorthIfAligned(extra);
      MinBlockBound();
      WithRestIs(F, k);
      hide Spread, Separate, Chain, NoRepeats, Cut, OthersSame, WithRest, RestAddr;
      ad2 := NULL;
      if extra >= MINBLOCKSIZE {
        ad2 := ad + need;
        RestIs(ram.mem, ad, need, ad2);
        CutBlock(ad, need, ad2, extra, insertFree, k, D);
      } else {
        RestIs(ram.mem, ad, need, ad + need);
        CutNone(ram.mem, D, ad, need);
        OthersSameRefl(ram.mem, D, F + [ad]);
      }
    }

    /** The remainder of a cut gets a descriptor at ad2, and its place on the free list if asked for. */
    method OpenRest(ad: nat, ad2: nat, extra: nat, insertFree: bool, ghost k: nat, ghost D: set<nat>)
      returns (ghost m1: Mem)
      requires Chain(ram.mem.ads, hfree, F) && Separate(D + {ad2}) && D <= ram.mem.ads.Keys && AddrSet(F) <= D
      requires NoRepeats(F) && ad in D && ad < ad2 && ad2 !in D && ad2 <= ad + ram.mem.ads[ad].nbytes - AD_BYTES
      requires k <= |F| && (forall j :: 0 <= j < k ==> F[j] <= ad)
      requires forall j :: k <= j < |F| ==> ad + ram.mem.ads[ad].nbytes <= F[j]
      modifies this`hfree, this`F, ram
      ensures D + {ad2} <= m1.ads.Keys && OnlyDescriptors(old(ram.mem), m1, D + {ad2}) && m1.ads[ad2].nbytes == extra
      ensures (forall x :: x in D ==> m1.ads[x] == old(ram.mem).ads[x]) && Relinked(m1, ram.mem, D + {ad2})
      ensures F == if insertFree then WithRest(old(F), k, [ad2]) else old(F)
      ensures D + {ad2} <= ram.mem.ads.Keys && Chain(ram.mem.ads, hfree, F) && forall x :: x in F ==> x in D + {ad2}
      ensures forall x :: x in D && x !in old(F) ==> ram.mem.ads[x] == old(ram.mem).ads[x]
    {
      ghost var m0 := ram.mem;
      SubsetIn(F, D);
      hide OnlyDescriptors, Separate, Chain, NoRepeats, Relinked, WithRest;
      ram.NewDescriptor(ad2, extra, D);
      m1 := ram.mem;
      ChainFrame(m0.ads, m1.ads, hfree, F);
      PlaceRest(ad2, insertFree, k, D + {ad2});
      RelinkedOnly(m1, ram.mem, D + {ad2});
    }

    /** The cutting step of block_split. */
    method CutBlock(ad: nat, need: nat, ad2: nat, extra: nat, insertFree: bool, ghost k: nat, ghost D: set<nat>)
      requires Chain(ram.mem.ads, hfree, F) && Spread(ram.mem.ads, D) && AddrSet(F) <= D && NoRepeats(F)
      requires ad in D && BLOCK_OVERHEAD_FIXED <= need && ad2 == ad + need
      requires need + extra == ram.mem.ads[ad].nbytes && extra >= MINBLOCKSIZE >= BLOCK_OVERHEAD_FIXED
      requires k <= |F| && (forall j :: 0 <= j < k ==> F[j] <= ad)
      requires forall j :: k <= j < |F| ==> ad + ram.mem.ads[ad].nbytes <= F[j]
      modifies this`hfree, this`F, ram
      ensures Cut(old(ram.mem), ram.mem, D, ad, need)
      ensures F == if insertFree then WithRest(old(F), k, [ad2]) else old(F)
      ensures Chain(ram.mem.ads, hfree, F)
      ensures OthersSame(old(ram.mem), ram.mem, D, old(F) + [ad])
      ensures ad !in old(F) ==> ram.mem.ads[ad].next == old(ram.mem).ads[ad].next
    {
      ghost var m0 := ram.mem;
      SplitClear(m0.ads, D, ad, ad2);
      hide Spread, OnlyDescriptors, Separate, Chain, NoRepeats, Cut, Relinked, WithRest;
      ghost var m1 := OpenRest(ad, ad2, extra, insertFree, k, D);
      ghost var m2 := ram.mem;
      ram.SetNbytes(ad, need, D + {ad2});
      CutDone(m0, m1, m2, ram.mem, D, ad, need, ad2);
      ChainNext(m2.ads, ram.mem.ads, hfree, F);
    }

    // ---------- the search of the free list ----------

    /** Splits the free block ad at position i for a request of need bytes, and sets its client space. */
    method CarveBlock(ad: nat, need: nat, client: int, ghost i: nat, ghost D: set<nat>)
      requires Chain(ram.mem.ads, hfree, F) && Spread(ram.mem.ads, D) && AddrSet(F) <= D && NoRepeats(F)
      requires InOrder(ram.mem.ads, F) && i < |F| && F[i] == ad && ad in D
      requires BLOCK_OVERHEAD_FIXED <= need <= ram.mem.ads[ad].nbytes
      modifies this`hfree, this`F, ram
      ensures Chain(ram.mem.ads, hfree, F)
      ensures Carved(old(ram.mem), ram.mem, D, ad, need, client)
      ensures F == WithRest(old(F), i + 1, RestAddr(old(ram.mem), ad, need))
      ensures OthersSame(old(ram.mem), ram.mem, D, old(F))
    {
      ChainNotNull(ram.mem.ads, hfree, F, i);
      ghost var m0, F0 := ram.mem, F;
      SubsetIn(F, D);
      OrderFacts(m0.ads, F, i);
      hide Spread, Separate, OnlyDescriptors, NoRepeats, Chain, Cut, Carved, OthersSame, WithRest, InOrder, Kept;
      var _ := BlockSplit(ad, need, true, i + 1, D);
      OthersSameSub(m0, ram.mem, D, F0, ad);
      CarvedMembers(m0, F0, F, i, need, D);
      SetCarvedClient(m0, F0, ad, need, client, D);
    }

    method SetCarvedClient(ghost m0: Mem, ghost F0: seq<nat>, ad: nat, need: nat, client: int, ghost D: set<nat>)
      requires Chain(ram.mem.ads, hfree, F) && ad in F0 && Cut(m0, ram.mem, D, ad, need)
      requires forall x :: x in F ==> x in D + RestSet(m0, ad, need)
      requires OthersSame(m0, ram.mem, D, F0)
      modifies ram
      ensures Chain(ram.mem.ads, hfree, F) && Carved(m0, ram.mem, D, ad, need, client)
      ensures OthersSame(m0, ram.mem, D, F0)
    {
      ghost var m1, E := ram.mem, D + RestSet(m0, ad, need);
      CutSeparate(m0, m1, D, ad, need);
      hide Spread, Separate, OnlyDescriptors, Chain, Carved, Kept, Cut, RestSet;
      ram.SetClient(ad, client, E);
      CarvedDone(m0, m1, ram.mem, D, ad, need, client);
      ChainNext(m1.ads, ram.mem.ads, hfree, F);
    }

    /**
     * ad_big_enough on the free block ad at position i: if the request fits, the block is split, the remainder
     * goes on the free list right after it, and client_space is set.
     */
    method AdBigEnough(ad: nat, d: nat, n: nat, ghost i: nat, ghost D: set<nat>) returns (big: bool, ghost need: nat)
      requires lay.Valid() && lay.Has(d)
      requires Chain(ram.mem.ads, hfree, F) && Spread(ram.mem.ads, D) && AddrSet(F) <= D && NoRepeats(F)
      requires InOrder(ram.mem.ads, F) && i < |F| && F[i] == ad && ad in D
      modifies this`hfree, this`F, ram
      ensures Chain(ram.mem.ads, hfree, F) && need == BytesAfter(lay, d, n, ad)
      ensures big <==> need <= old(ram.mem).ads[ad].nbytes
      ensures !big ==> ram.mem == old(ram.mem) && F == old(F) && hfree == old(hfree)
      ensures big ==> Carved(old(ram.mem), ram.mem, D, ad, need, ClientAfter(lay, d, ad))
      ensures big ==> F == WithRest(old(F), i + 1, RestAddr(old(ram.mem), ad, need))
      ensures OthersSame(old(ram.mem), ram.mem, D, old(F))
    {
      NeedSound(lay, d, n, ad);
      SpreadSeparate(ram.mem.ads, D);
      OthersSameRefl(ram.mem, D, F);
      hide BytesAfter, ClientAfter, Spread, NoRepeats, Chain, Layout.Valid, Carved, InOrder, OthersSame, RestAddr;
      hide WithRest;
      var client, nbytes := ClientAfter(lay, d, ad), BytesAfter(lay, d, n, ad);
      need := nbytes;
      big := nbytes <= ram.mem.ads[ad].nbytes;
      if big {
        CarveBlock(ad, nbytes, client, i, D);
      }
    }

    /**
     * list_delete_one(&ma_hfree, ad_big_enough, &ar): removes the first free block that fits, at position i. The
     * predicate may insert the remainder into the very list being walked.
     */
    method FindFit(d: nat, n: nat, ghost D: set<nat>) returns (ad: nat, ghost i: nat, ghost need: nat)
      requires lay.Valid() && lay.Has(d)
      requires Chain(ram.mem.ads, hfree, F) && Spread(ram.mem.ads, D) && AddrSet(F) <= D && NoRepeats(F)
      requires InOrder(ram.mem.ads, F)
      modifies this`hfree, this`F, ram
      ensures Chain(ram.mem.ads, hfree, F)
      ensures i <= |old(F)| && forall j :: 0 <= j < i ==> TooSmall(lay, d, n, old(ram.mem).ads, old(F)[j])
      ensures ad == NULL ==> i == |old(F)| && ram.mem == old(ram.mem) && F == old(F) && hfree == old(hfree)
      ensures ad != NULL ==> i < |old(F)| && ad == old(F)[i] && need == BytesAfter(lay, d, n, ad)
      ensures ad != NULL ==> Carved(old(ram.mem), ram.mem, D, ad, need, ClientAfter(lay, d, ad))
      ensures ad != NULL ==> F == old(F)[..i] + RestAddr(old(ram.mem), ad, need) + old(F)[i + 1..]
      ensures OthersSame(old(ram.mem), ram.mem, D, old(F))
    {
      var prev, cur := NULL, hfree;
      i, need := 0, 0;
      SubsetIn(F, D);
      OthersSameRefl(ram.mem, D, F);
      hide BytesAfter, ClientAfter, Spread, NoRepeats, Layout.Valid, Carved, InOrder, OthersSame, RestAddr, WithRest;
      while cur != NULL
        invariant i <= |F| && cur == NextIn(F, i - 1) && prev == if i == 0 then NULL else F[i - 1]
        invariant ram.mem == old(ram.mem) && F == old(F) && hfree == old(hfree)
        invariant forall j :: 0 <= j < i ==> TooSmall(lay, d, n, ram.mem.ads, F[j])
        decreases |F| - i
      {
        var big;
        big, need := AdBigEnough(cur, d, n, i, D);
        if big {
          ad := cur;
          UnlinkCarved(old(ram.mem), prev, cur, old(F), i, need, ClientAfter(lay, d, cur), D);
          return;
        }
        prev, cur := cur, ram.mem.ads[cur].next;
        i := i + 1;
      }
      ad := NULL;
    }

    /** Unlinks the free block that has just been carved. */
    method UnlinkCarved(ghost m0: Mem, prev: nat, ad: nat, ghost F0: seq<nat>, ghost i: nat, ghost need: nat,
        ghost client: int, ghost D: set<nat>)
      requires Chain(ram.mem.ads, hfree, F) && Carved(m0, ram.mem, D, ad, need, client)
      requires i < |F0| && F0[i] == ad && NoRepeats(F0) && AddrSet(F0) <= D
      requires F == WithRest(F0, i + 1, RestAddr(m0, ad, need)) && OthersSame(m0, ram.mem, D, F0)
      requires prev == if i == 0 then NULL else F0[i - 1]
      modifies this`hfree, this`F, ram
      ensures Chain(ram.mem.ads, hfree, F) && Carved(m0, ram.mem, D, ad, need, client)
      ensures F == F0[..i] + RestAddr(m0, ad, need) + F0[i + 1..] && OthersSame(m0, ram.mem, D, F0)
    {
      ghost var m1, E := ram.mem, D + RestSet(m0, ad, need);
      CarvedSeparate(m0, m1, D, ad, need, client);
      WithRestFacts(F0, i, RestAddr(m0, ad, need), D);
      hide Carved, Chain, NoRepeats, Separate, WithRest, RestAddr, RestSet, OthersSame;
      hfree := ram.Unlink(hfree, prev, ad, F, i, E);
      F := F[..i] + F[i + 1..];
      CarvedRelinked(m0, m1, ram.mem, D, ad, need, client);
      OthersSameStep(m0, m1, ram.mem, D, F0, WithRest(F0, i + 1, RestAddr(m0, ad, need)));
    }

    // ---------- MA_allocate_heap ----------

    /** Takes the block from the free list, if some free block fits. */
    method TakeFree(d: nat, n: nat) returns (ad: nat)
      requires lay.Has(d) && Good(lay, Now())
      modifies this`hfree, this`F, this`hused, this`U, this`hp, ram
      ensures ad == NULL ==> Now() == old(Now()) && NoFit(lay, Now(), d, n)
      ensures ad != NULL ==> HeapTaken(lay, old(Now()), Now(), d, n, ad)
    {
      ghost var v := Now();
      hide *;
      ghost var i, need;
      ad, i, need := FindFree(d, n);
      if ad != NULL {
        ghost var u := Now();
        FoundReady(lay, v, u, d, n, i, need, ad);
        InitHeapBlock(ad, d, n, Descs(v) + RestSet(v.m, ad, need));
        FromList(lay, v, u, Now(), d, n, i, need, ad);
      }
    }

    /** The search of the free list, when the view is good. */
    method FindFree(d: nat, n: nat) returns (ad: nat, ghost i: nat, ghost need: nat)
      requires lay.Has(d) && Good(lay, Now())
      modifies this`hfree, this`F, ram
      ensures ad == NULL ==> Now() == old(Now()) && NoFit(lay, Now(), d, n)
      ensures ad != NULL ==> FoundAt(lay, old(Now()), Now(), d, n, i, need, ad)
    {
      ghost var v := Now();
      GoodFacts(lay, v);
      GoodInv(lay, v);
      hide Inv, Good, NoFit, FoundAt, AbsOf, Spread, InOrder, NoRepeats, Chain, Carved, TooSmall, OthersSame;
      hide BytesAfter, ClientAfter, RestAddr, Descs, Live;
      ad, i, need := FindFit(d, n, Descs(v));
      FindIs(lay, v, Now(), d, n, i, need, ad);
    }

    /** What is left to do once space for a heap block has been found at ad. */
    method InitHeapBlock(ad: nat, d: nat, n: nat, ghost E: set<nat>)
      requires Ready(lay, Now(), ad, d, n, E)
      modifies this`hused, this`hp, this`U, ram
      ensures Initialised(lay, old(Now()), Now(), E, ad, d, n)
    {
      hide Chain, Spread, RoomFor, OthersSame, Intact, Kept;
      hused := InitBlock(hused, ad, d, n, U, E);
      U := [ad] + U;
      var newHp := ad + ram.mem.ads[ad].nbytes;
      if newHp > hp {
        hp := newHp;
      }
    }

    // ---------- a block in the space between heap and stack ----------

    /** Starts a block in the space between heap and stack. */
    method OpenBlock(ad: nat, nbytes: nat, client: int)
      requires Good(lay, Now()) && hp <= ad && ad + nbytes <= sp && BLOCK_OVERHEAD_FIXED <= nbytes
      modifies ram
      ensures Opened(old(Now()), Now(), ad, nbytes, client)
    {
      ghost var v := Now();
      ghost var D := Descs(v);
      GapClear(lay, v, ad, nbytes);
      hide Good, Spread, Separate, OnlyDescriptors, Descs, Opened, Kept;
      ram.NewDescriptor(ad, nbytes, D);
      ghost var m1 := ram.mem;
      ram.SetClient(ad, client, D + {ad});
      OpenDone(v, m1, Now(), D, ad, nbytes, client);
    }

    /** Grows the heap by a block at the heap pointer, if that leaves it below the stack. */
    method TakeTop(d: nat, n: nat) returns (ad: nat)
      requires lay.Has(d) && Good(lay, Now()) && NoFit(lay, Now(), d, n)
      modifies this`hused, this`U, this`hp, ram
      ensures ad == NULL ==> Now() == old(Now()) && NoSpace(lay, Now(), d, n)
      ensures ad != NULL ==> HeapTaken(lay, old(Now()), Now(), d, n, ad)
    {
      ghost var v := Now();
      TopNeed(lay, v, d, n);
      hide *;
      var client, nbytes := ClientAfter(lay, d, hp), BytesAfter(lay, d, n, hp);
      if hp + nbytes > sp {
        return NULL;
      }
      ad := hp;
      OpenBlock(ad, nbytes, client);
      ghost var u := Now();
      OpenReady(lay, v, u, ad, d, n, nbytes, client);
      InitHeapBlock(ad, d, n, Descs(v) + {ad});
      FromTop(lay, v, u, Now(), d, n, ad);
    }

    /** What is left to do once space for a stack block has been found at ad. */
    method InitStackBlock(ad: nat, d: nat, n: nat, ghost E: set<nat>)
      requires Ready(lay, Now(), ad, d, n, E)
      modifies this`sused, this`sp, this`K, ram
      ensures StackInitialised(lay, old(Now()), Now(), E, ad, d, n)
    {
      hide Chain, Spread, RoomFor, OthersSame, Intact, Kept;
      sused := InitBlock(sused, ad, d, n, K, E);
      K := [ad] + K;
      sp := ad;
    }

    /** Takes a block from the top of the space between heap and stack, if it is long enough. */
    method TakeStack(d: nat, n: nat) returns (ad: nat)
      requires lay.Has(d) && Good(lay, Now())
      modifies this`sused, this`K, this`sp, ram
      ensures ad == NULL ==> Now() == old(Now()) && NoStackSpace(lay, Now(), d, n)
      ensures ad != NULL ==> StackTaken(lay, old(Now()), Now(), d, n, ad)
    {
      ghost var v := Now();
      StackNeed(lay, v, d, n);
      hide *;
      var client, nbytes := ClientBefore(lay, d, n, sp), BytesBefore(lay, d, n, sp);
      if sp - hp < nbytes {
        return NULL;
      }
      ad := sp - nbytes;
      OpenBlock(ad, nbytes, client);
      ghost var u := Now();
      OpenReadyBefore(lay, v, u, ad, d, n, nbytes, client);
      InitStackBlock(ad, d, n, Descs(v) + {ad});
      FromStack(lay, v, u, Now(), d, n, ad);
    }

    /** MA_allocate_heap: the handle of the new block, or TABLE_HANDLE_NONE. */
    method MaAllocateHeap(d: nat, n: int) returns (handle: int)
      requires Valid()
      modifies this`hfree, this`F, this`hused, this`U, this`hp, ram, table
      ensures Valid()
      ensures handle == TABLE_HANDLE_NONE <==> !initialized || !lay.Has(d) || n < 0 || NoSpace(lay, old(Now()), d, n)
      ensures handle == TABLE_HANDLE_NONE ==> Now() == old(Now()) && table.Live() == old(table.Live())
      ensures handle != TABLE_HANDLE_NONE ==>
        && Granted(old(table.Live()), table.Live(), handle)
        && HeapTaken(lay, old(Now()), Now(), d, n, table.Live()[handle])
    {
      hide Valid, HandleTable.Valid, HandleTable.Live, Good, OneToOne, Granted, Live, NoFit, NoSpace, HeapTaken;
      ValidParts();
      if !initialized || !lay.Has(d) || n < 0 {
        return TABLE_HANDLE_NONE;
      }
      ghost var v, was := Now(), table.Live();
      var ad := TakeFree(d, n);
      if ad == NULL {
        ad := TakeTop(d, n);
      }
      if ad == NULL {
        ValidIs();
        return TABLE_HANDLE_NONE;
      }
      HeapTakenLive(lay, v, Now(), d, n, ad);
      ghost var dist;
      handle, dist := table.Allocate(ad);
      GrantedOneToOne(was, Live(v), handle, ad);
      ValidIs();
    }

    /** MA_push_stack: the handle of the new block, or TABLE_HANDLE_NONE. */
    method MaPushStack(d: nat, n: int) returns (handle: int)
      requires Valid()
      modifies this`sused, this`K, this`sp, ram, table
      ensures Valid()
      ensures handle == TABLE_HANDLE_NONE <==>
        !initialized || !lay.Has(d) || n < 0 || NoStackSpace(lay, old(Now()), d, n)
      ensures handle == TABLE_HANDLE_NONE ==> Now() == old(Now()) && table.Live() == old(table.Live())
      ensures handle != TABLE_HANDLE_NONE ==>
        && Granted(old(table.Live()), table.Live(), handle)
        && StackTaken(lay, old(Now()), Now(), d, n, table.Live()[handle])
    {
      hide Valid, HandleTable.Valid, HandleTable.Live, Good, OneToOne, Granted, Live, NoStackSpace, StackTaken;
      ValidParts();
      if !initialized || !lay.Has(d) || n < 0 {
        return TABLE_HANDLE_NONE;
      }
      ghost var v, was := Now(), table.Live();
      var ad := TakeStack(d, n);
      if ad == NULL {
        ValidIs();
        return TABLE_HANDLE_NONE;
      }
      StackTakenLive(lay, v, Now(), d, n, ad);
      ghost var dist;
      handle, dist := table.Allocate(ad);
      GrantedOneToOne(was, Live(v), handle, ad);
      ValidIs();
    }

    // ---------- mh2ad ----------

    /** mh2ad: every live handle passes every check at its proper location, and nothing else does. */
    method Mh2ad(handle: int, location: BlockLocation) returns (ok: bool, ad: nat)
      requires Valid()
      ensures ok <==> handle in table.Live() && LivesAt(Now(), location, table.Live()[handle])
      ensures ok ==> ad == table.Live()[handle]
    {
      hide Valid, HandleTable.Live, Good, OneToOne, Live, LivesAt, Chain, Sealed;
      ValidParts();
      ok, ad := false, NULL;
      if table.Verify(handle) {
        ad := table.Lookup(handle);
        HandleLive(table.Live(), Now(), handle);
        LiveAddress(lay, Now(), ad);
        var a := ram.mem.ads[ad];
        ok := segment <= ad < eos && Sealed(lay, a, ram.mem.guards);
        if ok {
          ok := Located(ad, location);
        }
      }
    }

    /** The list checks of mh2ad. */
    method Located(ad: nat, location: BlockLocation) returns (ok: bool)
      requires Chain(ram.mem.ads, hused, U) && Chain(ram.mem.ads, sused, K)
      ensures ok <==> LivesAt(Now(), location, ad)
    {
      hide Chain;
      match location
      case Heap =>
        ok := ram.ListMember(ad, hused, U);
      case Stack =>
        ok := ram.ListMember(ad, sused, K);
      case StackTop =>
        ok := ram.ListMember(ad, sused, K);
        ok := ok && ad == sp;
      case HeapOrStack =>
        ok := ram.ListMember(ad, hused, U);
        if !ok {
          ok := ram.ListMember(ad, sused, K);
        }
    }

    /** Deletes the free blocks above max. */
    method TrimFree(max: nat, ghost D: set<nat>)
      requires Chain(ram.mem.ads, hfree, F) && Spread(ram.mem.ads, D) && AddrSet(F) <= D && NoRepeats(F)
      modifies this`hfree, this`F, ram
      ensures Relinked(old(ram.mem), ram.mem, D) && Chain(ram.mem.ads, hfree, F)
      ensures old(forall x :: x in F ==> x in ram.mem.ads)
      ensures PiecesOf(ram.mem.ads, F) == UpTo(old(PiecesOf(ram.mem.ads, F)), max)
      ensures NoRepeats(F) && AddrSet(F) <= old(AddrSet(F))
      ensures forall x :: x in D && x !in old(F) ==> ram.mem.ads[x] == old(ram.mem).ads[x]
    {
      SpreadSeparate(ram.mem.ads, D);
      hfree := ram.ListDeleteAbove(hfree, max, F, D);
      TrimmedPieces(old(ram.mem), ram.mem, D, F, max);
      F := KeepUpTo(F, max);
    }

    /** Puts ad on the free list and coalesces the list. */
    method InsertFree(ad: nat, ghost D: set<nat>)
      requires Chain(ram.mem.ads, hfree, F) && Spread(ram.mem.ads, D) && AddrSet(F) <= D && NoRepeats(F)
      requires ad in D && ad !in F && ad != NULL
      modifies this`hfree, this`F, ram
      ensures Chain(ram.mem.ads, hfree, F) && D <= ram.mem.ads.Keys
      ensures old(forall x :: x in F ==> x in ram.mem.ads)
      ensures PiecesOf(ram.mem.ads, F) ==
        Coalesce(InsertOrdered(old(PieceAt(ram.mem.ads, ad)), old(PiecesOf(ram.mem.ads, F))))
      ensures AddrSet(F) <= old(AddrSet(F)) + {ad}
      ensures Kept(old(ram.mem), ram.mem, D - old(AddrSet(F)) - {ad})
      ensures forall x :: x in D && x !in old(F) && x != ad ==> ram.mem.ads[x] == old(ram.mem).ads[x]
    {
      hide Spread, OnlyDescriptors, Relinked, Kept, PiecesOf, Coalesce, InsertOrdered, NoRepeats, Separate, Chain;
      SpreadSeparate(ram.mem.ads, D);
      ghost var X := D - AddrSet(F) - {ad};
      ghost var k;
      hfree, k := ram.ListInsertOrdered(hfree, ad, F, D);
      ghost var m1 := ram.mem;
      InsertedList(old(ram.mem), m1, D, F, ad, k);
      RelinkedSpread(old(ram.mem), m1, D);
      SpreadSeparate(m1.ads, D);
      RelinkedKeeps(old(ram.mem), m1, D, X);
      F := F[..k] + [ad] + F[k..];
      ghost var F1 := F;
      F := ram.ListCoalesce(hfree, F, D);
      CoalescedKeeps(m1, ram.mem, D, F1, X);
      KeptTransitive(old(ram.mem), m1, ram.mem, X);
    }

    /** The part of block_free_heap for a heap whose rightmost used block is max. */
    method ReclaimBelow(ad: nat, max: nat, ghost D: set<nat>)
      requires Chain(ram.mem.ads, hfree, F) && Spread(ram.mem.ads, D) && AddrSet(F) <= D && NoRepeats(F)
      requires ad in D && ad !in F && ad != NULL
      modifies this`hfree, this`F, ram
      ensures Chain(ram.mem.ads, hfree, F) && D <= ram.mem.ads.Keys
      ensures old(forall x :: x in F ==> x in ram.mem.ads)
      ensures var p, kept := old(PieceAt(ram.mem.ads, ad)), UpTo(old(PiecesOf(ram.mem.ads, F)), max);
        PiecesOf(ram.mem.ads, F) == if ad < max then Coalesce(InsertOrdered(p, kept)) else kept
      ensures AddrSet(F) <= old(AddrSet(F)) + {ad}
      ensures Kept(old(ram.mem), ram.mem, D - old(AddrSet(F)) - {ad})
      ensures forall x :: x in D && x !in old(F) && x != ad ==> ram.mem.ads[x] == old(ram.mem).ads[x]
    {
      hide Spread, OnlyDescriptors, Relinked, Kept, PiecesOf, Coalesce, InsertOrdered, NoRepeats, Separate, UpTo, Chain;
      ghost var X, F0 := D - AddrSet(F) - {ad}, F;
      TrimFree(max, D);
      ghost var m1 := ram.mem;
      SubsetNotIn(F, F0, ad);
      RelinkedSpread(old(ram.mem), m1, D);
      SpreadSeparate(m1.ads, D);
      RelinkedKeeps(old(ram.mem), m1, D, X);
      RelinkedPiece(old(ram.mem), m1, D, ad);
      if ad < max {
        ghost var F1 := F;
        InsertFree(ad, D);
        KeptSubset(m1, ram.mem, D - AddrSet(F1) - {ad}, X);
        KeptTransitive(old(ram.mem), m1, ram.mem, X);
      }
    }

    /** block_free_heap: ad is on neither list. The new heap is described by Reclaimed, below. */
    method BlockFreeHeap(ad: nat, ghost D: set<nat>)
      requires Chain(ram.mem.ads, hfree, F) && Chain(ram.mem.ads, hused, U)
      requires Spread(ram.mem.ads, D) && AddrSet(F) + AddrSet(U) <= D && ad in D
      requires NoRepeats(F) && ad !in F && ad !in U && ad != NULL && forall x :: x in F ==> x !in U
      modifies this`hp, this`hfree, this`F, ram
      ensures Chain(ram.mem.ads, hfree, F) && D <= ram.mem.ads.Keys
      ensures Reclaimed(old(Now()), ad, hp, PiecesOf(ram.mem.ads, F))
      ensures forall x :: x in D && x !in old(F) && x != ad ==> ram.mem.ads[x] == old(ram.mem).ads[x]
      ensures Kept(old(ram.mem), ram.mem, D - old(AddrSet(F)) - {ad})
    {
      var max, at := FindRightmost();
      InSpread(ram.mem.ads, D, F, U);
      ghost var v := Now();
      hide Spread, Kept, PiecesOf, Coalesce, InsertOrdered, NoRepeats, UpTo, Chain, Reclaimed;
      if max != NULL {
        hp := max + ram.mem.ads[max].nbytes;
        ReclaimBelow(ad, max, D);
      } else {
        hp := segment;
        hfree := NULL;
        F := [];
        EmptyChain(ram.mem.ads);
        KeptRefl(ram.mem, D - old(AddrSet(F)) - {ad});
      }
      ReclaimedBy(v, ad, max, at, hp, PiecesOf(ram.mem.ads, F));
    }
  
    // ---------- MA_free_heap ----------

    /** block_free_heap, from a view in which the block at ad is on neither heap list. */
    method RecoverBlock(ad: nat, ghost D: set<nat>)
      requires Loose(Now(), ad, D)
      modifies this`hp, this`hfree, this`F, ram
      ensures Recovered(old(Now()), Now(), ad, D)
    {
      hide Chain, Spread, NoRepeats, Kept, Reclaimed, PiecesOf;
      SpreadKeys(ram.mem.ads, D);
      BlockFreeHeap(ad, D);
      ChainMembers(ram.mem.ads, hfree, F);
    }

    /** Takes the block at ad off the used list. */
    method Unlist(ad: nat) returns (ghost k: nat)
      requires Good(lay, Now()) && ad in U
      modifies this`hused, this`U, ram
      ensures Unlisted(old(Now()), Now(), ad, k)
    {
      hide Good, Chain, Spread, Separate, NoRepeats, Relinked, Descs, InOrder;
      ghost var v := Now();
      GoodFacts(lay, v);
      SpreadSeparate(ram.mem.ads, Descs(v));
      var del;
      hused, del, k := ram.ListDelete(hused, ad, U, Descs(v));
      assert del == ad;
      U := U[..k] + U[k + 1..];
    }

    /** MA_free_heap on the block at ad: off the used list, and back to the heap. */
    method FreeBlock(ad: nat)
      requires Good(lay, Now()) && ad in U
      modifies this`hp, this`hfree, this`F, this`hused, this`U, ram
      ensures HeapFreed(lay, old(Now()), Now(), ad)
    {
      hide *;
      ghost var v := Now();
      ghost var k := Unlist(ad);
      ghost var u := Now();
      UnlistedLoose(lay, v, u, ad, k);
      RecoverBlock(ad, Descs(v));
      FromFree(lay, v, u, Now(), ad, k);
    }

    /** MA_free_heap */
    method MaFreeHeap(handle: int) returns (ok: bool)
      requires Valid()
      modifies this`hp, this`hfree, this`F, this`hused, this`U, ram, table
      ensures Valid()
      ensures ok <==> handle in old(table.Live()) && LivesAt(old(Now()), Heap, old(table.Live())[handle])
      ensures !ok ==> Now() == old(Now()) && table.Live() == old(table.Live())
      ensures ok ==> table.Live() == old(table.Live()) - {handle}
      ensures ok ==> HeapFreed(lay, old(Now()), Now(), old(table.Live())[handle])
    {
      hide Valid, HandleTable.Valid, HandleTable.Live, Good, OneToOne, Live, HeapFreed;
      ValidParts();
      var ad;
      ok, ad := Mh2ad(handle, Heap);
      if ok {
        ghost var v, was := Now(), table.Live();
        FreeBlock(ad);
        table.Deallocate(handle);
        HeapFreedLive(lay, v, Now(), ad);
        RevokedOneToOne(was, Live(v), handle);
        ValidIs();
      }
    }
  
    // ---------- MA_free_heap_piece ----------

    /**
     * Cuts the used block at ad down to need bytes, if the rest is worth a block, and gives the rest back to the heap.
     */
    method SplitOff(ad: nat, need: nat, ghost k: nat)
      requires Good(lay, Now()) && k < |U| && U[k] == ad && Cuttable(Now(), ad, need)
      modifies this`hp, this`hfree, this`F, ram
      ensures Shortened(lay, old(Now()), Now(), ad, k, need)
    {
      hide Good, Cuttable, UsedCut, Shortened, Loose, Recovered, Descs, ListsApart;
      ghost var v := Now();
      var ad2 := SplitUsed(ad, need, k);
      ghost var u := Now();
      if ad2 != NULL {
        GoodApart(lay, v);
        SplitLoose(v, u, ad, need, ad2, Descs(v) + {ad2});
        RecoverBlock(ad2, Descs(v) + {ad2});
        FromSplit(lay, v, u, Now(), ad, k, need, ad2);
      } else {
        FromNoSplit(lay, v, u, ad, k, need);
      }
    }

    /** block_split on the used block at ad; the remainder goes on no list. */
    method SplitUsed(ad: nat, need: nat, ghost k: nat) returns (ad2: nat)
      requires Good(lay, Now()) && k < |U| && U[k] == ad && Cuttable(Now(), ad, need)
      modifies this`hfree, this`F, ram
      ensures ad2 != NULL <==> old(ram.mem.ads[ad].nbytes) - need >= MINBLOCKSIZE
      ensures Aligned(old(ram.mem.ads[ad].nbytes) - need) ==>
        (ad2 != NULL <==> old(ram.mem.ads[ad].nbytes) - need >= AD_BYTES + 2 * GUARD_BYTES + ALIGNMENT)
      ensures ad2 != NULL ==> ad2 == ad + need
      ensures UsedCut(old(Now()), Now(), ad, need)
    {
      hide Good, Spread, NoRepeats, InOrder, Chain, Cut, OthersSame, Descs, RestAddr, Aligned, RoundUp;
      ghost var v := Now();
      GoodFacts(lay, v);
      ghost var j := PlaceAmongFree(v.m.ads, F, Descs(v), ad);
      ad2 := BlockSplit(ad, need, false, j, Descs(v));
    }
  
    /** Sets the element count of the block at ad, and its checksum. */
    method SetCount(ad: nat, kept: nat, ghost D: set<nat>)
      requires Spread(ram.mem.ads, D) && D <= ram.mem.ads.Keys && ad in D && lay.Has(ram.mem.ads[ad].dtype)
      modifies ram
      ensures Spread(ram.mem.ads, D) && D <= ram.mem.ads.Keys && OnlyDescriptors(old(ram.mem), ram.mem, D)
      ensures ram.mem.ads[ad] == old(ram.mem).ads[ad].(nelem := kept, checksum := ram.mem.ads[ad].checksum)
      ensures ram.mem.ads[ad].checksum == Checksum(ram.mem.ads[ad])
      ensures forall x :: x in D && x != ad ==> ram.mem.ads[x] == old(ram.mem).ads[x]
      ensures Kept(old(ram.mem), ram.mem, D - {ad})
    {
      hide Spread, Separate, OnlyDescriptors, Kept, Checksum;
      ghost var m0 := ram.mem;
      SpreadSeparate(ram.mem.ads, D);
      ram.SetRequest(ad, ram.mem.ads[ad].dtype, kept, D);
      ghost var m1 := ram.mem;
      ChecksumAgrees(m1.ads[ad]);
      ram.SetChecksum(ad, Checksum(ram.mem.ads[ad]), D);
      OnlyDescriptorsRefl(m0, D);
      DescriptorDone(m0, m0, m1, ram.mem, D, ad);
      OnlyDescriptorsTransitive(m0, m1, ram.mem, D);
    }

    /** Sets the element count of the block at ad, its checksum and its guards. */
    method Relabel(ad: nat, kept: nat)
      requires Shaped(lay, Now()) && Labelled(lay, Now(), ad, kept)
      modifies ram
      ensures Relabelled(lay, old(Now()), Now(), ad, kept)
    {
      hide Shaped, Spread, NoRepeats, InOrder, OnlyDescriptors, Descs, Intact, Kept, RoomFor, Checksum, SameIn;
      hide Guard2At;
      ghost var v, D := Now(), Descs(Now());
      ShapedFacts(lay, v);
      LabelledClear(lay, v, ad, kept);
      SetCount(ad, kept, D);
      ghost var m2 := ram.mem;
      RoomSame(lay, v.m.ads[ad].(nelem := kept), m2.ads[ad], ad);
      GuardSet(ad, D);
      RelabelDone(lay, v, m2, Now(), ad, kept);
    }

    /** MA_free_heap_piece on the block at ad when some of its elements stay. */
    method FreePart(ad: nat, n: nat)
      requires Good(lay, Now()) && ad in U && ad in ram.mem.ads && n < ram.mem.ads[ad].nelem
      modifies this`hp, this`hfree, this`F, ram
      ensures PieceFreed(lay, old(Now()), Now(), ad, n)
    {
      hide Good, Shortened, Shaped, Labelled, Relabelled, PieceFreed, BytesAfter;
      ghost var v := Now();
      ghost var k: nat :| k < |U| && U[k] == ad;
      var kept := ram.mem.ads[ad].nelem - n;
      PartNeed(lay, v, ad, k, kept);
      var need := BytesAfter(lay, ram.mem.ads[ad].dtype, kept, ad);
      if need < ram.mem.ads[ad].nbytes {
        SplitOff(ad, need, k);
      } else {
        WholeBlock(lay, v, ad, k, need);
      }
      ghost var u := Now();
      ShortenedReady(lay, v, u, ad, k, kept, need);
      Relabel(ad, kept);
      FromPart(lay, v, u, Now(), ad, k, n, kept, need);
    }

    /** MA_free_heap_piece */
    method MaFreeHeapPiece(handle: int, n: int) returns (ok: bool)
      requires Valid()
      modifies this`hp, this`hfree, this`F, this`hused, this`U, ram, table
      ensures Valid()
      ensures ok <==> n >= 0 && handle in old(table.Live()) && LivesAt(old(Now()), Heap, old(table.Live())[handle])
      ensures !ok ==> Now() == old(Now()) && table.Live() == old(table.Live())
      ensures ok ==>
        FreesAll(old(Now()), old(table.Live())[handle], n) || FreesPart(old(Now()), old(table.Live())[handle], n)
      ensures ok && FreesAll(old(Now()), old(table.Live())[handle], n) ==>
        table.Live() == old(table.Live()) - {handle} && HeapFreed(lay, old(Now()), Now(), old(table.Live())[handle])
      ensures ok && FreesPart(old(Now()), old(table.Live())[handle], n) ==>
        table.Live() == old(table.Live()) && PieceFreed(lay, old(Now()), Now(), old(table.Live())[handle], n)
    {
      hide Valid, HandleTable.Valid, HandleTable.Live, Good, OneToOne, Live, HeapFreed, PieceFreed;
      ValidParts();
      var ad;
      ok, ad := Mh2ad(handle, Heap);
      if !ok || n < 0 {
        return false;
      }
      HandleLive(table.Live(), Now(), handle);
      LiveAddress(lay, Now(), ad);
      if n >= ram.mem.ads[ad].nelem {
        ok := MaFreeHeap(handle);
        return;
      }
      ghost var v := Now();
      FreePart(ad, n);
      PieceFreedLive(lay, v, Now(), ad, n);
      ValidIs();
    }
  
    // ---------- MA_pop_stack and MA_chop_stack ----------

    /** The deletion step for cur, at the front of what is left of the stack list of view v. */
    method UnlistTop(prev: nat, cur: nat, ghost v: View, ghost c: nat)
      requires Good(lay, v) && DroppedTo(v, Now(), c) && c < |v.K| && cur == v.K[c] && prev == NULL
      modifies this`sused, this`K, ram
      ensures DroppedTo(v, Now(), c + 1)
    {
      hide Good, Chain, Relinked, Separate, NoRepeats, Descs, OnlyDescriptors;
      DroppedReady(lay, v, Now(), c);
      sused := ram.Unlink(sused, prev, cur, K, 0, Descs(v));
      K := K[..0] + K[1..];
    }

    /** MA_pop_stack on the block at ad, which is on top of the stack. */
    method PopBlock(ad: nat)
      requires Good(lay, Now()) && ad in K && ad == sp && ad in ram.mem.ads
      modifies this`sused, this`K, this`sp, ram
      ensures StackPopped(lay, old(Now()), Now(), ad)
    {
      hide Good, DroppedTo, StackPopped;
      ghost var v := Now();
      TopFirst(lay, v, ad);
      DroppedNone(lay, v);
      UnlistTop(NULL, sused, v, 0);
      ghost var u := Now();
      DroppedSame(lay, v, u, 1, 0);
      sp := sp + ram.mem.ads[ad].nbytes;
      FromPop(lay, v, u, Now(), ad);
    }

    /** MA_pop_stack */
    method MaPopStack(handle: int) returns (ok: bool)
      requires Valid()
      modifies this`sused, this`K, this`sp, ram, table
      ensures Valid()
      ensures ok <==> handle in old(table.Live()) && LivesAt(old(Now()), StackTop, old(table.Live())[handle])
      ensures !ok ==> Now() == old(Now()) && table.Live() == old(table.Live())
      ensures ok ==> table.Live() == old(table.Live()) - {handle}
      ensures ok ==> StackPopped(lay, old(Now()), Now(), old(table.Live())[handle])
    {
      hide Valid, HandleTable.Valid, HandleTable.Live, Good, OneToOne, Live, StackPopped;
      ValidParts();
      var ad;
      ok, ad := Mh2ad(handle, StackTop);
      if ok {
        ghost var v, was := Now(), table.Live();
        HandleLive(was, v, handle);
        LiveAddress(lay, v, ad);
        PopBlock(ad);
        table.Deallocate(handle);
        StackPoppedLive(lay, v, Now(), ad);
        RevokedOneToOne(was, Live(v), handle);
        ValidIs();
      }
    }

    /** mh_free: frees the handle of the block at ad. */
    method MhFree(ad: nat)
      requires table.Valid() && Injective(table.Live())
      modifies table
      ensures table.Valid() && table.Live() == Forget(old(table.Live()), [ad])
    {
      hide HandleTable.Valid, HandleTable.Live;
      var handle := table.LookupAssoc(ad);
      ForgetOne(table.Live(), handle, ad);
      if handle != TABLE_HANDLE_NONE {
        table.Deallocate(handle);
      }
    }

    /**
     * list_delete_many on the stack list with ad_le and mh_free: the block at ad and all below it go, with their
     * handles.
     */
    method ChopList(ad: nat, ghost k: nat)
      requires Good(lay, Now()) && k < |K| && K[k] == ad && table.Valid() && Injective(table.Live())
      modifies this`sused, this`K, ram, table
      ensures DroppedTo(old(Now()), Now(), k + 1)
      ensures table.Valid() && table.Live() == Forget(old(table.Live()), old(K)[..k + 1])
    {
      hide Good, DroppedTo, Forget, Injective, HandleTable.Valid, HandleTable.Live;
      ghost var v, was := Now(), table.Live();
      GoodStackOrder(lay, v);
      DroppedNone(lay, v);
      ForgetNone(was, v.K);
      var prev, cur := NULL, sused;
      ghost var i, c := 0, 0;
      while cur != NULL
        invariant c <= i <= |v.K| && cur == NextIn(v.K, i - 1)
        invariant prev == if i == c then NULL else v.K[i - 1]
        invariant forall j :: 0 <= j < c ==> v.K[j] <= ad
        invariant forall j :: c <= j < i ==> ad < v.K[j]
        invariant DroppedTo(v, Now(), c)
        invariant table.Valid() && table.Live() == Forget(was, v.K[..c])
        decreases |v.K| - i
      {
        DroppedSame(lay, v, Now(), c, i);
        if cur <= ad {
          ForgetInjective(was, v.K[..c]);
          MhFree(cur);
          ForgetNext(was, v.K, c);
          UnlistTop(prev, cur, v, c);
          c := c + 1;
          DroppedSame(lay, v, Now(), c, i);
        } else {
          prev := cur;
        }
        cur := ram.mem.ads[cur].next;
        i := i + 1;
      }
      DroppedSame(lay, v, Now(), c, i);
      CountBelow(v.K, ad, k, c);
    }

    /** MA_chop_stack on the block at ad. */
    method ChopBlock(ad: nat, ghost k: nat)
      requires Good(lay, Now()) && k < |K| && K[k] == ad && ad in ram.mem.ads
      requires table.Valid() && Injective(table.Live())
      modifies this`sused, this`K, this`sp, ram, table
      ensures StackChopped(lay, old(Now()), Now(), ad, k)
      ensures table.Valid() && table.Live() == Forget(old(table.Live()), old(K)[..k + 1])
    {
      hide Good, DroppedTo, StackChopped, Injective, Forget, HandleTable.Valid, HandleTable.Live;
      ghost var v := Now();
      ChopList(ad, k);
      ghost var u := Now();
      DroppedSame(lay, v, u, k + 1, k);
      sp := ad + ram.mem.ads[ad].nbytes;
      FromChop(lay, v, u, Now(), ad, k);
    }

    /** MA_chop_stack */
    method MaChopStack(handle: int) returns (ok: bool, ghost k: nat)
      requires Valid()
      modifies this`sused, this`K, this`sp, ram, table
      ensures Valid()
      ensures ok <==> handle in old(table.Live()) && LivesAt(old(Now()), Stack, old(table.Live())[handle])
      ensures !ok ==> Now() == old(Now()) && table.Live() == old(table.Live())
      ensures ok ==> StackChopped(lay, old(Now()), Now(), old(table.Live())[handle], k)
      ensures ok ==> table.Live() == Forget(old(table.Live()), old(K)[..k + 1])
    {
      hide Valid, HandleTable.Valid, HandleTable.Live, Good, OneToOne, Live, StackChopped, Injective, Forget;
      ValidParts();
      var ad;
      ok, ad := Mh2ad(handle, Stack);
      k := 0;
      if ok {
        ghost var v, was := Now(), table.Live();
        HandleLive(was, v, handle);
        LiveAddress(lay, v, ad);
        OneToOneInjective(was, Live(v));
        k :| k < |K| && K[k] == ad;
        ChopBlock(ad, k);
        StackChoppedLive(lay, v, Now(), ad, k);
        ForgetOneToOne(was, Live(v), v.K[..k + 1], Live(Now()));
        ValidIs();
      }
    }

    /**
     * A client that calls MA_pop_stack on the top block until the given one has been popped: the same effect as
     * MA_chop_stack, down to the handles.
     */
    method PopUntil(handle: int) returns (ok: bool, ghost k: nat)
      requires Valid()
      modifies this`sused, this`K, this`sp, ram, table
      ensures Valid()
      ensures ok <==> handle in old(table.Live()) && LivesAt(old(Now()), Stack, old(table.Live())[handle])
      ensures !ok ==> Now() == old(Now()) && table.Live() == old(table.Live())
      ensures ok ==> StackChopped(lay, old(Now()), Now(), old(table.Live())[handle], k)
      ensures ok ==> table.Live() == Forget(old(table.Live()), old(K)[..k + 1])
    {
      hide Valid, HandleTable.Valid, HandleTable.Live, Good, OneToOne, Live, StackChopped, StackPopped, Injective;
      hide Forget, PoppedTo;
      ValidParts();
      var ad;
      ok, ad := Mh2ad(handle, Stack);
      k := 0;
      if ok {
        ghost var v, was := Now(), table.Live();
        HandleLive(was, v, handle);
        OneToOneInjective(was, Live(v));
        k :| k < |K| && K[k] == ad;
        GoodNoRepeats(lay, v);
        PopLoop(handle, v, k);
        ValidParts();
        PoppedAll(lay, v, Now(), ad, k);
      }
    }

    /** The loop of PopUntil. */
    method PopLoop(handle: int, ghost v: View, ghost k: nat)
      requires Valid() && initialized && v == Now() && k < |v.K| && NoRepeats(v.K)
      requires handle in table.Live() && table.Live()[handle] == v.K[k] && Injective(table.Live())
      modifies this`sused, this`K, this`sp, ram, table
      ensures Valid() && PoppedTo(v, Now(), k + 1)
      ensures table.Live() == Forget(old(table.Live()), v.K[..k + 1])
    {
      hide Valid, HandleTable.Valid, HandleTable.Live, Good, OneToOne, Live, StackPopped, Injective, Forget, PoppedTo;
      ghost var was := table.Live();
      PoppedNone(v);
      ForgetNone(was, v.K);
      var done := false;
      ghost var c := 0;
      while !done
        invariant Valid() && PoppedTo(v, Now(), c) && c <= k + 1 && (done <==> c == k + 1)
        invariant table.Live() == Forget(was, v.K[..c])
        decreases k + 1 - c
      {
        ValidParts();
        PoppedRest(v, Now(), c);
        ghost var u := Now();
        var top := table.LookupAssoc(sp);
        TopHandle(lay, table.Live(), u, top);
        SameHandle(was, v.K[..c], top, handle);
        var popped := MaPopStack(top);
        PoppedStep(lay, v, u, Now(), c);
        ForgetHandle(was, v.K, c, top);
        NoRepeatAt(v.K, c, k);
        done := top == handle;
        c := c + 1;
      }
    }

    // ---------- MA_init ----------

    /** The management of a fresh segment. */
    method SetUp(address: nat, heapBytes: nat, stackBytes: nat)
      requires lay.Valid() && Aligned(address) && Aligned(heapBytes) && Aligned(stackBytes) && 0 < address
      modifies this
      ensures initialized && ram.mem == old(ram.mem) && Good(lay, Now()) && Live(Now()) == {}
      ensures Listed(Now()) && AbsOf(Now()) == Init(address, heapBytes, stackBytes)
      ensures segment == hp == address && partition == address + heapBytes && sp == eos == partition + stackBytes
      ensures F == [] && U == [] && K == []
    {
      hide Good, Aligned, IsPow2, AbsOf, Live, Listed;
      segment, partition, eos := address, address + heapBytes, address + heapBytes + stackBytes;
      hp, sp := segment, eos;
      hfree, hused, sused := NULL, NULL, NULL;
      F, U, K := [], [], [];
      initialized := true;
      EmptyGood(lay, Now(), address, heapBytes, stackBytes);
    }

    /** MA_init, given the address that the system returns for the segment (NULL if it has none to give). */
    method MaInit(d: nat, nominalStack: int, nominalHeap: int, address: nat) returns (ok: bool)
      requires Valid() && Aligned(address)
      modifies this
      ensures Valid() && table.Live() == old(table.Live())
      ensures ok <==> !old(initialized) && lay.Has(d) && address != NULL
      ensures !ok ==> Now() == old(Now()) && initialized == old(initialized)
      ensures ok ==> initialized && Listed(Now())
      ensures ok ==>
        AbsOf(Now()) == Init(address, RegionBytes(lay, d, nominalHeap), RegionBytes(lay, d, nominalStack))
      ensures ok ==>
        && segment == hp == address && partition == address + RegionBytes(lay, d, nominalHeap)
        && sp == eos == partition + RegionBytes(lay, d, nominalStack) && F == [] && U == [] && K == []
    {
      hide Valid, Good, OneToOne, HandleTable.Valid, HandleTable.Live, RegionBytes, Aligned, IsPow2, AbsOf, Live;
      hide Listed;
      ValidParts();
      if initialized || !lay.Has(d) || address == NULL {
        return false;
      }
      EmptyLive(Now());
      RegionAligned(lay, d, nominalHeap);
      RegionAligned(lay, d, nominalStack);
      SetUp(address, RegionBytes(lay, d, nominalHeap), RegionBytes(lay, d, nominalStack));
      ok := true;
      ValidIs();
    }
  
    // ---------- inquiries ----------

    /** ma_max_heap_frag_nelem: searches the free list for the fragment that holds most elements. */
    method MaxHeapFragNelem(d: nat, min: nat) returns (most: nat)
      requires lay.Valid() && lay.Has(d) && Chain(ram.mem.ads, hfree, F) && forall x :: x in F ==> x in ram.mem.ads
      ensures FragAnswer(lay, d, partition, min, PiecesOf(ram.mem.ads, F), most)
    {
      hide IsPow2, MostElements, FragAnswer, BytesAfter, PiecesOf;
      var minBytes := MinBytes(lay, d, min);
      most := 0;
      var cur := hfree;
      ghost var i := 0;
      FragStart(lay, d, partition, min, ram.mem.ads, F);
      while cur != NULL
        invariant 0 <= i <= |F| && cur == NextIn(F, i - 1)
        invariant FragSoFar(lay, d, partition, min, ram.mem.ads, F, i, most)
        decreases |F| - i
      {
        ghost var was, found := most, 0;
        if cur < partition {
          var bytes := if cur + ram.mem.ads[cur].nbytes >= partition then partition - cur else ram.mem.ads[cur].nbytes;
          if bytes >= minBytes {
            var nelem := MaNelem(lay, d, cur, bytes);
            found := nelem;
            most := Max(most, nelem);
          }
        }
        FragNext(lay, d, partition, min, ram.mem.ads, F, i, was, found);
        cur := ram.mem.ads[cur].next;
        i := i + 1;
      }
      FragEnd(lay, d, partition, min, ram.mem.ads, F, i, most);
    }

    /** The number of elements that fit in the space between heap and stack. */
    method GapNelem(d: nat) returns (gap: nat)
      requires lay.Valid() && lay.Has(d) && hp <= sp
      ensures if sp > hp then MostElements(lay, d, hp, sp - hp, gap) else gap == 0
    {
      var length := sp - hp;
      gap := 0;
      if length > 0 {
        gap := MaNelem(lay, d, hp, length);
      }
    }

    /**
     * MA_inquire_heap_no_partition: a request for at most the reported number of elements has space. No other has, if
     * and only if no fragment that reaches beyond the partition holds one element more than reported; while the heap
     * is below the partition there is no such fragment.
     */
    method MaInquireHeapNoPartition(d: nat) returns (most: nat)
      requires Valid()
      ensures !initialized || !lay.Has(d) ==> most == 0
      ensures initialized && lay.Has(d) ==> forall n: nat :: 1 <= n ==> (n <= most <==> InSight(lay, Now(), d, n))
      ensures initialized && lay.Has(d) ==> forall n: nat :: 1 <= n <= most ==> !NoSpace(lay, Now(), d, n)
      ensures initialized && lay.Has(d) ==>
        ((forall n: nat :: 1 <= n ==> (n <= most <==> !NoSpace(lay, Now(), d, n)))
          <==> !FreeBeyond(lay, Now(), d, most))
      ensures initialized && lay.Has(d) && hp <= partition ==> !FreeBeyond(lay, Now(), d, most)
    {
      hide Valid, Good, OneToOne, HandleTable.Valid, HandleTable.Live, Live, NoSpace, MostElements, FragAnswer;
      hide Chain, FreeBeyond, InSight;
      if !initialized || !lay.Has(d) {
        return 0;
      }
      ValidParts();
      GoodLists(lay, Now());
      var gap := GapNelem(d);
      var frag := MaxHeapFragNelem(d, gap);
      most := Max(gap, frag);
      HeapInquiry(lay, Now(), d, gap, frag);
      InquiryInSight(lay, Now(), d, gap, frag);
    }

    /**
     * MA_inquire_stack_no_partition, and MA_inquire_avail: a stack request has space if and only if it asks for no
     * more.
     */
    method MaInquireStackNoPartition(d: nat) returns (most: nat)
      requires Valid()
      ensures !initialized || !lay.Has(d) ==> most == 0
      ensures initialized && lay.Has(d) ==> forall n: nat :: 1 <= n ==> (n <= most <==> !NoStackSpace(lay, Now(), d, n))
    {
      hide Valid, Good, OneToOne, HandleTable.Valid, HandleTable.Live, Live, NoStackSpace, MostElements, Chain;
      if !initialized || !lay.Has(d) {
        return 0;
      }
      ValidParts();
      GoodLists(lay, Now());
      most := GapNelem(d);
      StackInquiry(lay, Now(), d, most);
    }

    // ---------- the client ----------

    /** The client stores a byte in its own space: the allocator does not notice, and no other block changes. */
    method Store(handle: int, offset: nat, value: int)
      requires Valid() && handle in table.Live() && InClient(lay, Now(), table.Live()[handle], offset)
      modifies ram
      ensures Valid() && Now() == old(Now()).(m := ram.mem)
      ensures Stored(lay, old(Now()), Now(), table.Live()[handle], offset, value)
    {
      hide Valid, Good, OneToOne, HandleTable.Valid, HandleTable.Live, Live, Stored;
      ValidParts();
      ghost var v := Now();
      var ad := table.Lookup(handle);
      HandleLive(table.Live(), v, handle);
      ram.PutData(ram.mem.ads[ad].client + offset, value);
      StoreGood(lay, v, Now(), ad, offset, value);
      ValidIs();
    }
  }

  /**
   * From a new allocator, through MA_init(d, stack, heap): a heap request of heap elements and a stack request of stack
   * elements are both granted, in either order.
   */
  method FreshAllocatorServes(lay: Layout, d: nat, stack: nat, heap: nat, address: nat, heapFirst: bool)
    returns (a: Allocator, h: int, k: int)
    requires lay.Valid() && lay.Has(d) && lay.numalign == 0 && Aligned(address) && address != NULL
    ensures fresh(a) && a.Valid() && a.initialized && h != k && a.table.Live().Keys == {h, k}
    ensures h != TABLE_HANDLE_NONE && LivesAt(a.Now(), Heap, a.table.Live()[h])
    ensures k != TABLE_HANDLE_NONE && LivesAt(a.Now(), Stack, a.table.Live()[k])
  {
    hide Allocator.Valid, HandleTable.Valid, HandleTable.Live, Good, Live, Aligned, RegionBytes, AbsOf, Listed;
    hide Layout.Valid, AllocateHeap, PushStack;
    a := new Allocator(lay);
    var ok := a.MaInit(d, stack, heap, address);
    FreshSegmentSuffices(lay, address, d, stack, heap);
    if heapFirst {
      h := a.MaAllocateHeap(d, heap);
      k := a.MaPushStack(d, stack);
    } else {
      k := a.MaPushStack(d, stack);
      h := a.MaAllocateHeap(d, heap);
    }
  }
}
