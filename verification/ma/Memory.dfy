/**
 * The segment's memory, and the linked-list routines that work on it.
 *
 * Memory holds allocation descriptors, guard words and client bytes at addresses. A write destroys
 * whatever else overlapped the bytes written, so "nothing live was damaged" has to be proved.
 */
module Memory {
  import opened Arithmetic
  import opened Placement
  import opened Arena

  /** An allocation descriptor. The block's name is not modelled. */
  datatype AD = AD(dtype: nat, nelem: nat, client: int, nbytes: nat, next: nat, checksum: nat)

  datatype Mem = Mem(ads: map<nat, AD>, guards: map<int, nat>, data: map<int, int>)

  const NULL: nat := 0
  const GUARD1: nat := 0xaaaaaaaa
  const GUARD2: nat := 0x55555555

  /** Do [a, a + m) and [b, b + n) miss each other? */
  predicate Misses(a: int, m: nat, b: int, n: nat) {
    a + m <= b || b + n <= a
  }

  function PutAD(m: Mem, a: nat, ad: AD): Mem {
    Mem(
      (map x | x in m.ads && Misses(x, AD_BYTES, a, AD_BYTES) :: m.ads[x])[a := ad],
      map g | g in m.guards && Misses(g, GUARD_BYTES, a, AD_BYTES) :: m.guards[g],
      map p | p in m.data && Misses(p, 1, a, AD_BYTES) :: m.data[p])
  }

  function PutGuard(m: Mem, a: int, v: nat): Mem {
    Mem(
      map x | x in m.ads && Misses(x, AD_BYTES, a, GUARD_BYTES) :: m.ads[x],
      (map g | g in m.guards && Misses(g, GUARD_BYTES, a, GUARD_BYTES) :: m.guards[g])[a := v],
      map p | p in m.data && Misses(p, 1, a, GUARD_BYTES) :: m.data[p])
  }

  function PutByte(m: Mem, a: int, v: int): Mem {
    Mem(
      map x | x in m.ads && Misses(x, AD_BYTES, a, 1) :: m.ads[x],
      map g | g in m.guards && Misses(g, GUARD_BYTES, a, 1) :: m.guards[g],
      m.data[a := v])
  }

  // ---------- what a change leaves alone ----------

  /** The guards and client bytes inside [lo, hi) are the same in both memories. */
  ghost predicate SameIn(m: Mem, m': Mem, lo: int, hi: int) {
    && (forall g {:trigger g in m'.guards} {:trigger m'.guards[g]} :: lo <= g && g + GUARD_BYTES <= hi ==>
          (g in m.guards <==> g in m'.guards) && (g in m.guards ==> m'.guards[g] == m.guards[g]))
    && (forall p {:trigger p in m'.data} {:trigger m'.data[p]} :: lo <= p < hi ==>
          (p in m.data <==> p in m'.data) && (p in m.data ==> m'.data[p] == m.data[p]))
  }

  /** No descriptor at an address in D reaches into [lo, hi). */
  ghost predicate Clear(D: set<nat>, lo: int, hi: int) {
    forall x :: x in D ==> x + AD_BYTES <= lo || hi <= x
  }

  /** The descriptors at the addresses in D do not overlap. */
  ghost predicate Separate(D: set<nat>) {
    forall x, y :: x in D && y in D && x != y ==> Misses(x, AD_BYTES, y, AD_BYTES)
  }

  /** Guards and client bytes that no descriptor in D reaches are the same in both memories. */
  ghost predicate OnlyDescriptors(m: Mem, m': Mem, D: set<nat>) {
    forall lo: int, hi: int {:trigger SameIn(m, m', lo, hi)} :: Clear(D, lo, hi) ==> SameIn(m, m', lo, hi)
  }

  /** All that changed is how the descriptors in D are linked. */
  ghost predicate Relinked(m: Mem, m': Mem, D: set<nat>) {
    && D <= m.ads.Keys && D <= m'.ads.Keys
    && (forall x :: x in D ==> m'.ads[x] == m.ads[x].(next := m'.ads[x].next))
    && OnlyDescriptors(m, m', D)
  }

  lemma SameInTransitive(m: Mem, m1: Mem, m2: Mem, lo: int, hi: int)
    requires SameIn(m, m1, lo, hi) && SameIn(m1, m2, lo, hi)
    ensures SameIn(m, m2, lo, hi)
  {
  }

  lemma OnlyDescriptorsTransitive(m: Mem, m1: Mem, m2: Mem, D: set<nat>)
    requires OnlyDescriptors(m, m1, D) && OnlyDescriptors(m1, m2, D)
    ensures OnlyDescriptors(m, m2, D)
  {
    forall lo: int, hi: int | Clear(D, lo, hi)
      ensures SameIn(m, m2, lo, hi)
    {
      SameInTransitive(m, m1, m2, lo, hi);
    }
  }

  lemma PutADSame(m: Mem, a: nat, ad: AD, lo: int, hi: int)
    requires a + AD_BYTES <= lo || hi <= a
    ensures SameIn(m, PutAD(m, a, ad), lo, hi)
  {
  }

  /** Writing one of a set of separate descriptors. */
  lemma PutADKeeps(m: Mem, a: nat, ad: AD, D: set<nat>)
    requires Separate(D) && a in D && D - {a} <= m.ads.Keys
    ensures var m' := PutAD(m, a, ad);
      && D <= m'.ads.Keys && m'.ads[a] == ad
      && (forall x :: x in D && x != a ==> m'.ads[x] == m.ads[x])
      && OnlyDescriptors(m, m', D)
  {
    forall lo: int, hi: int | Clear(D, lo, hi)
      ensures SameIn(m, PutAD(m, a, ad), lo, hi)
    {
      PutADSame(m, a, ad, lo, hi);
    }
  }

  lemma PutGuardKeeps(m: Mem, a: int, v: nat, D: set<nat>)
    requires D <= m.ads.Keys && Clear(D, a, a + GUARD_BYTES)
    ensures var m' := PutGuard(m, a, v);
      && D <= m'.ads.Keys && (forall x :: x in D ==> m'.ads[x] == m.ads[x])
      && a in m'.guards && m'.guards[a] == v
  {
  }

  lemma PutGuardSame(m: Mem, a: int, v: nat, lo: int, hi: int)
    requires a + GUARD_BYTES <= lo || hi <= a
    ensures SameIn(m, PutGuard(m, a, v), lo, hi)
  {
  }

  // ---------- linked lists ----------

  function NextIn(s: seq<nat>, i: int): nat
    requires 0 <= i + 1
  {
    if i + 1 < |s| then s[i + 1] else NULL
  }

  /** Following next from head visits the addresses in s, in order. */
  ghost predicate Chain(ads: map<nat, AD>, head: nat, s: seq<nat>) {
    && head == NextIn(s, -1)
    && forall i :: 0 <= i < |s| ==> s[i] != NULL && s[i] in ads && ads[s[i]].next == NextIn(s, i)
  }

  ghost predicate NoRepeats(s: seq<nat>) {
    forall i, j :: 0 <= i < j < |s| ==> s[i] != s[j]
  }

  ghost function AddrSet(s: seq<nat>): set<nat> {
    set x | x in s
  }

  /** A chain is not affected by changes to other descriptors. */
  lemma ChainFrame(ads: map<nat, AD>, ads': map<nat, AD>, head: nat, s: seq<nat>)
    requires Chain(ads, head, s) && forall x :: x in s ==> x in ads' && ads'[x] == ads[x]
    ensures Chain(ads', head, s)
  {
  }

  /** Only next matters to a chain. */
  lemma ChainNext(ads: map<nat, AD>, ads': map<nat, AD>, head: nat, s: seq<nat>)
    requires Chain(ads, head, s) && forall x :: x in s && x in ads ==> x in ads' && ads'[x].next == ads[x].next
    ensures Chain(ads', head, s)
  {
  }

  /**
   * Memory as an object, with the list routines of ma.c; a list is passed as its head, and the new head is returned.
   */
  class Ram {
    var mem: Mem

    constructor ()
      ensures mem == Mem(map[], map[], map[])
    {
      mem := Mem(map[], map[], map[]);
    }

    /** Writes the next field of the descriptor at a. */
    method SetNext(a: nat, next: nat, ghost D: set<nat>)
      requires Separate(D) && D <= mem.ads.Keys && a in D
      modifies this
      ensures Relinked(old(mem), mem, D) && mem.ads[a].next == next
      ensures forall x :: x in D && x != a ==> mem.ads[x] == old(mem).ads[x]
    {
      PutADKeeps(mem, a, mem.ads[a].(next := next), D);
      mem := PutAD(mem, a, mem.ads[a].(next := next));
    }

    /** Writes the nbytes field of the descriptor at a. */
    method SetNbytes(a: nat, nbytes: nat, ghost D: set<nat>)
      requires Separate(D) && D <= mem.ads.Keys && a in D
      modifies this
      ensures D <= mem.ads.Keys && OnlyDescriptors(old(mem), mem, D)
      ensures mem.ads[a] == old(mem).ads[a].(nbytes := nbytes)
      ensures forall x :: x in D && x != a ==> mem.ads[x] == old(mem).ads[x]
    {
      PutADKeeps(mem, a, mem.ads[a].(nbytes := nbytes), D);
      mem := PutAD(mem, a, mem.ads[a].(nbytes := nbytes));
    }

    /** Writes the client_space field of the descriptor at a. */
    method SetClient(a: nat, client: int, ghost D: set<nat>)
      requires Separate(D) && D <= mem.ads.Keys && a in D
      modifies this
      ensures D <= mem.ads.Keys && OnlyDescriptors(old(mem), mem, D)
      ensures mem.ads[a] == old(mem).ads[a].(client := client)
      ensures forall x :: x in D && x != a ==> mem.ads[x] == old(mem).ads[x]
    {
      PutADKeeps(mem, a, mem.ads[a].(client := client), D);
      mem := PutAD(mem, a, mem.ads[a].(client := client));
    }

    /** Writes the datatype and nelem fields of the descriptor at a. */
    method SetRequest(a: nat, dtype: nat, nelem: nat, ghost D: set<nat>)
      requires Separate(D) && D <= mem.ads.Keys && a in D
      modifies this
      ensures D <= mem.ads.Keys && OnlyDescriptors(old(mem), mem, D)
      ensures mem.ads[a] == old(mem).ads[a].(dtype := dtype, nelem := nelem)
      ensures forall x :: x in D && x != a ==> mem.ads[x] == old(mem).ads[x]
    {
      PutADKeeps(mem, a, mem.ads[a].(dtype := dtype, nelem := nelem), D);
      mem := PutAD(mem, a, mem.ads[a].(dtype := dtype, nelem := nelem));
    }

    /** Writes the checksum field of the descriptor at a. */
    method SetChecksum(a: nat, checksum: nat, ghost D: set<nat>)
      requires Separate(D) && D <= mem.ads.Keys && a in D
      modifies this
      ensures D <= mem.ads.Keys && OnlyDescriptors(old(mem), mem, D)
      ensures mem.ads[a] == old(mem).ads[a].(checksum := checksum)
      ensures forall x :: x in D && x != a ==> mem.ads[x] == old(mem).ads[x]
    {
      PutADKeeps(mem, a, mem.ads[a].(checksum := checksum), D);
      mem := PutAD(mem, a, mem.ads[a].(checksum := checksum));
    }

    /** Writes two guard words, in memory that no descriptor in D reaches. */
    method SetGuards(g1: int, g2: int, ghost D: set<nat>)
      requires D <= mem.ads.Keys && Clear(D, g1, g1 + GUARD_BYTES) && Clear(D, g2, g2 + GUARD_BYTES)
      requires g1 + GUARD_BYTES <= g2
      modifies this
      ensures D <= mem.ads.Keys && forall x :: x in D ==> mem.ads[x] == old(mem).ads[x]
      ensures g1 in mem.guards && mem.guards[g1] == GUARD1 && g2 in mem.guards && mem.guards[g2] == GUARD2
      ensures forall lo: int, hi: int {:trigger SameIn(old(mem), mem, lo, hi)} ::
        (hi <= g1 || g2 + GUARD_BYTES <= lo) || (g1 + GUARD_BYTES <= lo && hi <= g2) ==> SameIn(old(mem), mem, lo, hi)
    {
      PutGuardKeeps(mem, g1, GUARD1, D);
      ghost var m0 := mem;
      mem := PutGuard(mem, g1, GUARD1);
      ghost var m1 := mem;
      PutGuardKeeps(mem, g2, GUARD2, D);
      mem := PutGuard(mem, g2, GUARD2);
      forall lo: int, hi: int | (hi <= g1 || g2 + GUARD_BYTES <= lo) || (g1 + GUARD_BYTES <= lo && hi <= g2)
        ensures SameIn(m0, mem, lo, hi)
      {
        PutGuardSame(m0, g1, GUARD1, lo, hi);
        PutGuardSame(m1, g2, GUARD2, lo, hi);
        SameInTransitive(m0, m1, mem, lo, hi);
      }
    }

    /** Writes one client byte. */
    method PutData(a: int, value: int)
      modifies this
      ensures mem == PutByte(old(mem), a, value)
    {
      mem := PutByte(mem, a, value);
    }

    /** Starts a new descriptor at a with the given length; its other fields are not set yet. */
    method NewDescriptor(a: nat, nbytes: nat, ghost D: set<nat>)
      requires Separate(D + {a}) && D <= mem.ads.Keys && a !in D
      modifies this
      ensures D + {a} <= mem.ads.Keys && OnlyDescriptors(old(mem), mem, D + {a})
      ensures mem.ads[a].nbytes == nbytes
      ensures forall x :: x in D ==> mem.ads[x] == old(mem).ads[x]
    {
      PutADKeeps(mem, a, AD(0, 0, 0, nbytes, NULL, 0), D + {a});
      mem := PutAD(mem, a, AD(0, 0, 0, nbytes, NULL, 0));
    }

    /** list_insert: push ad onto the front. */
    method ListInsert(head: nat, ad: nat, ghost s: seq<nat>, ghost D: set<nat>) returns (head': nat)
      requires Separate(D) && D <= mem.ads.Keys && ad in D && AddrSet(s) <= D && ad !in s && ad != NULL
      requires Chain(mem.ads, head, s)
      modifies this
      ensures Relinked(old(mem), mem, D) && Chain(mem.ads, head', [ad] + s)
      ensures forall x :: x in D && x != ad ==> mem.ads[x] == old(mem).ads[x]
    {
      SetNext(ad, head, D);
      head' := ad;
    }

    /** list_member */
    method ListMember(ad: nat, head: nat, ghost s: seq<nat>) returns (member: bool)
      requires Chain(mem.ads, head, s)
      ensures member <==> ad in s
    {
      var cur := head;
      ghost var i := 0;
      while cur != NULL
        invariant 0 <= i <= |s| && cur == NextIn(s, i - 1) && ad !in s[..i]
        decreases |s| - i
      {
        if cur == ad {
          return true;
        }
        assert s[..i + 1] == s[..i] + [s[i]];
        cur := mem.ads[cur].next;
        i := i + 1;
      }
      assert s[..i] == s;
      member := false;
    }

    /** The deletion step of list_delete_one and list_delete_many: bypass cur, whose predecessor is prev (or NULL). */
    method Unlink(head: nat, prev: nat, cur: nat, ghost s: seq<nat>, ghost k: nat, ghost D: set<nat>)
      returns (head': nat)
      requires Separate(D) && D <= mem.ads.Keys && AddrSet(s) <= D && NoRepeats(s)
      requires Chain(mem.ads, head, s) && k < |s| && s[k] == cur
      requires prev == if k == 0 then NULL else s[k - 1]
      modifies this
      ensures Relinked(old(mem), mem, D) && mem.ads[cur] == old(mem).ads[cur]
      ensures k == 0 ==> mem == old(mem)
      ensures Chain(mem.ads, head', s[..k] + s[k + 1..])
      ensures forall x :: x in D && x !in s ==> mem.ads[x] == old(mem).ads[x]
    {
      InAddrSet(s, D);
      NoRepeatsApart(s, k);
      hide OnlyDescriptors, Separate, Chain, NoRepeats;
      head' := head;
      if prev != NULL {
        SetNext(prev, mem.ads[cur].next, D);
      } else {
        head' := mem.ads[cur].next;
        RelinkedRefl(mem, D);
      }
      Bypassed(old(mem).ads, mem.ads, head, head', s, k);
    }

    /** The search of list_delete_one with ad_eq: cur is ad and prev its predecessor, or cur is NULL. */
    method FindMember(head: nat, ad: nat, ghost s: seq<nat>) returns (prev: nat, cur: nat, ghost k: nat)
      requires Chain(mem.ads, head, s)
      ensures if ad in s then cur == ad != NULL && k < |s| && s[k] == ad else cur == NULL
      ensures prev == if k == 0 then NULL else if k <= |s| then s[k - 1] else prev
    {
      prev, cur, k := NULL, head, 0;
      while cur != NULL && cur != ad
        invariant 0 <= k <= |s| && cur == NextIn(s, k - 1) && ad !in s[..k]
        invariant prev == if k == 0 then NULL else s[k - 1]
        decreases |s| - k
      {
        assert s[..k + 1] == s[..k] + [s[k]];
        prev, cur, k := cur, mem.ads[cur].next, k + 1;
      }
      assert k == |s| ==> s[..k] == s;
    }

    /** list_delete: ad is unlinked and returned if it is on the list, at position k; NULL is returned if it is not. */
    method ListDelete(head: nat, ad: nat, ghost s: seq<nat>, ghost D: set<nat>)
      returns (head': nat, del: nat, ghost k: nat)
      requires Separate(D) && D <= mem.ads.Keys && AddrSet(s) <= D && NoRepeats(s) && Chain(mem.ads, head, s)
      modifies this
      ensures if ad in s then del == ad != NULL && k < |s| && s[k] == ad else del == NULL
      ensures del == NULL ==> head' == head && mem == old(mem)
      ensures del != NULL ==>
        && Relinked(old(mem), mem, D) && D <= mem.ads.Keys && mem.ads[ad] == old(mem).ads[ad]
        && Chain(mem.ads, head', s[..k] + s[k + 1..])
        && forall x :: x in D && x !in s ==> mem.ads[x] == old(mem).ads[x]
    {
      hide Separate, NoRepeats, OnlyDescriptors, Chain;
      head' := head;
      var prev;
      prev, del, k := FindMember(head, ad, s);
      if del != NULL {
        head' := Unlink(head, prev, del, s, k, D);
      }
    }

    /** list_insert_ordered with ad_lt: ad goes before the first member with a higher address, at position k. */
    method ListInsertOrdered(head: nat, ad: nat, ghost s: seq<nat>, ghost D: set<nat>)
      returns (head': nat, ghost k: nat)
      requires Separate(D) && D <= mem.ads.Keys && AddrSet(s) <= D && NoRepeats(s)
      requires Chain(mem.ads, head, s) && ad in D && ad !in s && ad != NULL
      modifies this
      ensures Relinked(old(mem), mem, D)
      ensures k <= |s| && (forall j :: 0 <= j < k ==> s[j] <= ad) && (k < |s| ==> ad < s[k])
      ensures Chain(mem.ads, head', s[..k] + [ad] + s[k..])
      ensures forall x :: x in D && x !in s && x != ad ==> mem.ads[x] == old(mem).ads[x]
    {
      hide Separate, NoRepeats, Relinked, OnlyDescriptors;
      var prev, cur := NULL, head;
      k := 0;
      while cur != NULL && !(ad < cur)
        invariant 0 <= k <= |s| && cur == NextIn(s, k - 1)
        invariant prev == if k == 0 then NULL else s[k - 1]
        invariant forall j :: 0 <= j < k ==> s[j] <= ad
        decreases |s| - k
      {
        prev, cur := cur, mem.ads[cur].next;
        k := k + 1;
      }
      head' := LinkBetween(head, prev, ad, cur, s, k, D);
    }

    /** Links ad in between prev (or NULL for the head) and cur (or NULL for the end). */
    method LinkBetween(head: nat, prev: nat, ad: nat, cur: nat, ghost s: seq<nat>, ghost k: nat, ghost D: set<nat>)
      returns (head': nat)
      requires Separate(D) && D <= mem.ads.Keys && AddrSet(s) <= D && NoRepeats(s)
      requires Chain(mem.ads, head, s) && ad in D && ad !in s && ad != NULL
      requires k <= |s| && cur == NextIn(s, k - 1) && prev == if k == 0 then NULL else s[k - 1]
      modifies this
      ensures Relinked(old(mem), mem, D)
      ensures Chain(mem.ads, head', s[..k] + [ad] + s[k..])
      ensures forall x :: x in D && x !in s && x != ad ==> mem.ads[x] == old(mem).ads[x]
    {
      InAddrSet(s, D);
      hide Separate, Chain, NoRepeats, OnlyDescriptors;
      head' := head;
      SetNext(ad, cur, D);
      ghost var m1 := mem;
      if prev != NULL {
        SetNext(prev, ad, D);
      } else {
        head' := ad;
        RelinkedRefl(mem, D);
      }
      OnlyDescriptorsTransitive(old(mem), m1, mem, D);
      Spliced(old(mem).ads, mem.ads, head, head', s, k, ad);
    }

    /** list_delete_many with ad_gt: unlink every member above addr. */
    method ListDeleteAbove(head: nat, addr: nat, ghost s: seq<nat>, ghost D: set<nat>) returns (head': nat)
      requires Separate(D) && D <= mem.ads.Keys && AddrSet(s) <= D && NoRepeats(s) && Chain(mem.ads, head, s)
      modifies this
      ensures Relinked(old(mem), mem, D) && Chain(mem.ads, head', KeepUpTo(s, addr))
      ensures forall x :: x in D && x !in s ==> mem.ads[x] == old(mem).ads[x]
    {
      var prev, cur := NULL, head;
      head' := head;
      ghost var i := 0;
      DeletingStart(mem, head, s, addr, D);
      hide Deleting, Separate, KeepUpTo;
      while cur != NULL
        invariant 0 <= i <= |s| && cur == NextIn(s, i - 1)
        invariant prev == LastOf(KeepUpTo(s[..i], addr))
        invariant Deleting(old(mem), mem, head', s, addr, i, D)
        decreases |s| - i
      {
        ghost var m1 := mem;
        head', prev, cur := DeleteStep(old(mem), head', prev, cur, addr, s, i, D);
        i := i + 1;
      }
      DeletingEnd(old(mem), mem, head', s, addr, i, D);
    }

    /** One round of list_delete_many: cur, at position i of the original list, is unlinked if it lies above addr. */
    method DeleteStep(ghost m0: Mem, head: nat, prev: nat, cur: nat, addr: nat, ghost s: seq<nat>, ghost i: nat,
        ghost D: set<nat>)
      returns (head': nat, prev': nat, cur': nat)
      requires Separate(D) && AddrSet(s) <= D && NoRepeats(s) && i < |s| && cur == s[i]
      requires Deleting(m0, mem, head, s, addr, i, D) && prev == LastOf(KeepUpTo(s[..i], addr))
      modifies this
      ensures Deleting(m0, mem, head', s, addr, i + 1, D)
      ensures cur' == NextIn(s, i) && prev' == LastOf(KeepUpTo(s[..i + 1], addr))
    {
      hide Separate, OnlyDescriptors, KeepUpTo, Keeping, NoRepeats, Chain, Relinked;
      KeepStep(s, addr, i);
      KeepingProps(s, addr, i, D);
      DeletingNext(m0, mem, head, s, addr, i, D);
      head', prev' := head, cur;
      if cur > addr {
        head' := Unlink(head, prev, cur, Keeping(s, addr, i), |KeepUpTo(s[..i], addr)|, D);
        prev' := prev;
        RelinkedTransitive(m0, old(mem), mem, D);
      }
      cur' := mem.ads[cur].next;
    }

    /** The merging step of list_coalesce: cur, at position i, absorbs the member after it. */
    method MergeNext(head: nat, cur: nat, ghost s: seq<nat>, ghost i: nat, ghost D: set<nat>)
      returns (ghost t: seq<nat>)
      requires Separate(D) && D <= mem.ads.Keys && AddrSet(s) <= D && NoRepeats(s) && Chain(mem.ads, head, s)
      requires i + 1 < |s| && s[i] == cur && cur + mem.ads[cur].nbytes == s[i + 1]
      modifies this
      ensures D <= mem.ads.Keys && OnlyDescriptors(old(mem), mem, D)
      ensures t == s[..i + 1] + s[i + 2..] && NoRepeats(t) && Chain(mem.ads, head, t)
      ensures forall x :: x in D && x != cur ==> mem.ads[x] == old(mem).ads[x]
      ensures mem.ads[cur].nbytes == old(mem).ads[cur].nbytes + old(mem).ads[s[i + 1]].nbytes
    {
      var ad1 := cur + mem.ads[cur].nbytes;
      InAddrSet(s, D);
      var merged := mem.ads[cur].(nbytes := mem.ads[cur].nbytes + mem.ads[ad1].nbytes, next := mem.ads[ad1].next);
      PutADKeeps(mem, cur, merged, D);
      t := s[..i + 1] + s[i + 2..];
      MergedChain(mem.ads, PutAD(mem, cur, merged).ads, head, s, i, t, D);
      hide *;
      mem := PutAD(mem, cur, merged);
    }

    /** list_coalesce: merge each member with its successors for as long as they touch. */
    method ListCoalesce(head: nat, ghost s: seq<nat>, ghost D: set<nat>) returns (ghost t: seq<nat>)
      requires Separate(D) && D <= mem.ads.Keys && AddrSet(s) <= D && NoRepeats(s) && Chain(mem.ads, head, s)
      modifies this
      ensures D <= mem.ads.Keys && OnlyDescriptors(old(mem), mem, D)
      ensures AddrSet(t) <= AddrSet(s) && NoRepeats(t) && Chain(mem.ads, head, t)
      ensures PiecesOf(mem.ads, t) == Coalesce(PiecesOf(old(mem).ads, s))
      ensures forall x :: x in D && x !in s ==> mem.ads[x] == old(mem).ads[x]
    {
      var cur := head;
      ghost var i := 0;
      t := s;
      CoalesceStart(mem, head, s, D);
      hide Coalesced, Separate;
      while cur != NULL
        invariant 0 <= i <= |t| && cur == NextIn(t, i - 1)
        invariant Chain(mem.ads, head, t) && D <= mem.ads.Keys && AddrSet(t) <= D && NoRepeats(t)
        invariant Coalesced(old(mem), mem, s, t, i, D)
        decreases |t| - i
      {
        InAddrSet(t, D);
        var ad1 := cur + mem.ads[cur].nbytes;
        if ad1 == mem.ads[cur].next {
          ghost var m1, t1 := mem, t;
          t := MergeNext(head, cur, t, i, D);
          CoalesceMerged(old(mem), m1, mem, s, t1, t, i, D);
        } else {
          CoalescePassed(old(mem), mem, s, t, i, D);
          cur := mem.ads[cur].next;
          i := i + 1;
        }
      }
      CoalesceDone(old(mem), mem, s, t, i, D);
    }
  }

  /** The state of list_coalesce from memory m0 with list s: the first i members of t are final. */
  ghost predicate Coalesced(m0: Mem, m: Mem, s: seq<nat>, t: seq<nat>, i: nat, D: set<nat>) {
    && (forall x :: x in s ==> x in m0.ads) && (forall x :: x in t ==> x in m.ads)
    && D <= m0.ads.Keys && D <= m.ads.Keys && OnlyDescriptors(m0, m, D)
    && i <= |t| && AddrSet(t) <= AddrSet(s)
    && Coalesce(PiecesOf(m0.ads, s)) == PiecesOf(m.ads, t[..i]) + Coalesce(PiecesOf(m.ads, t[i..]))
    && (forall x :: x in D && x !in s ==> m.ads[x] == m0.ads[x])
  }

  lemma CoalesceStart(m: Mem, head: nat, s: seq<nat>, D: set<nat>)
    requires D <= m.ads.Keys && AddrSet(s) <= D && Chain(m.ads, head, s)
    ensures Coalesced(m, m, s, s, 0, D)
  {
    OnlyDescriptorsRefl(m, D);
    assert PiecesOf(m.ads, s[..0]) == [] && s[0..] == s;
  }

  lemma CoalescePassed(m0: Mem, m: Mem, s: seq<nat>, t: seq<nat>, i: nat, D: set<nat>)
    requires Coalesced(m0, m, s, t, i, D) && i < |t|
    requires i + 1 < |t| ==> t[i] + m.ads[t[i]].nbytes != t[i + 1]
    ensures Coalesced(m0, m, s, t, i + 1, D)
  {
    hide Coalesce, OnlyDescriptors;
    CoalesceSkip(m.ads, t, i);
  }

  lemma CoalesceMerged(m0: Mem, m1: Mem, m: Mem, s: seq<nat>, t1: seq<nat>, t: seq<nat>, i: nat, D: set<nat>)
    requires Coalesced(m0, m1, s, t1, i, D) && NoRepeats(t1) && AddrSet(t1) <= D
    requires i + 1 < |t1| && t == t1[..i + 1] + t1[i + 2..] && t1[i] + m1.ads[t1[i]].nbytes == t1[i + 1]
    requires D <= m.ads.Keys && OnlyDescriptors(m1, m, D)
    requires forall x :: x in D && x != t1[i] ==> m.ads[x] == m1.ads[x]
    requires t1[i] in m.ads && m.ads[t1[i]].nbytes == m1.ads[t1[i]].nbytes + m1.ads[t1[i + 1]].nbytes
    ensures Coalesced(m0, m, s, t, i, D)
  {
    hide Coalesce, OnlyDescriptors, PiecesOf;
    OnlyDescriptorsTransitive(m0, m1, m, D);
    InAddrSet(t1, D);
    InAddrSet(t1, AddrSet(s));
    CoalesceMerge(m1.ads, m.ads, t1, i, t);
    assert forall x :: x in t ==> x in AddrSet(t1);
  }

  lemma CoalesceDone(m0: Mem, m: Mem, s: seq<nat>, t: seq<nat>, i: nat, D: set<nat>)
    requires Coalesced(m0, m, s, t, i, D) && i == |t|
    ensures OnlyDescriptors(m0, m, D) && AddrSet(t) <= AddrSet(s)
    ensures (forall x :: x in s ==> x in m0.ads) && (forall x :: x in t ==> x in m.ads)
    ensures PiecesOf(m.ads, t) == Coalesce(PiecesOf(m0.ads, s))
    ensures D <= m0.ads.Keys && D <= m.ads.Keys && forall x :: x in D && x !in s ==> m.ads[x] == m0.ads[x]
  {
    assert t[..i] == t;
  }

  lemma MergedChain(ads: map<nat, AD>, ads': map<nat, AD>, head: nat, s: seq<nat>, i: nat, t: seq<nat>, D: set<nat>)
    requires Chain(ads, head, s) && NoRepeats(s) && i + 1 < |s| && t == s[..i + 1] + s[i + 2..]
    requires D <= ads.Keys && D <= ads'.Keys && forall j :: 0 <= j < |s| ==> s[j] in D
    requires forall x :: x in D && x != s[i] ==> ads'[x] == ads[x]
    requires ads'[s[i]].next == ads[s[i + 1]].next
    ensures NoRepeats(t) && Chain(ads', head, t)
  {
    NoRepeatsApart(s, i + 1);
    WithoutNoRepeats(s, i + 1, t);
    hide NoRepeats;
    UnlinkedChain(ads, ads', head, head, s, i + 1, t);
  }

  lemma Bypassed(ads: map<nat, AD>, ads': map<nat, AD>, head: nat, head': nat, s: seq<nat>, k: nat)
    requires Chain(ads, head, s) && k < |s|
    requires forall i :: 0 <= i < |s| ==> s[i] in ads'
    requires forall i :: 0 <= i < |s| && i != k - 1 ==> ads'[s[i]] == ads[s[i]]
    requires k == 0 ==> head' == ads[s[0]].next
    requires k > 0 ==> head' == head && ads'[s[k - 1]].next == ads[s[k]].next
    ensures Chain(ads', head', s[..k] + s[k + 1..])
  {
    hide Chain;
    UnlinkedChain(ads, ads', head, head', s, k, s[..k] + s[k + 1..]);
  }

  lemma WithoutNoRepeats(s: seq<nat>, k: nat, t: seq<nat>)
    requires NoRepeats(s) && Without(s, k, t)
    ensures NoRepeats(t)
  {
    forall i, j | 0 <= i < j < |t|
      ensures t[i] != t[j]
    {
      var i', j' := if i < k then i else i + 1, if j < k then j else j + 1;
      assert s[i'] != s[j'];
    }
  }

  lemma PiecesFrame(ads: map<nat, AD>, ads': map<nat, AD>, s: seq<nat>)
    requires forall x :: x in s ==> x in ads && x in ads' && ads'[x].nbytes == ads[x].nbytes
    ensures PiecesOf(ads', s) == PiecesOf(ads, s)
  {
  }

  lemma PiecesAppend(ads: map<nat, AD>, s: seq<nat>, t: seq<nat>)
    requires forall x :: x in s + t ==> x in ads
    ensures (forall x :: x in s ==> x in ads) && (forall x :: x in t ==> x in ads)
    ensures PiecesOf(ads, s + t) == PiecesOf(ads, s) + PiecesOf(ads, t)
  {
    assert forall x :: x in s ==> x in s + t;
    assert forall x :: x in t ==> x in s + t;
  }

  /** Passing a member that does not touch the next. */
  lemma CoalesceSkip(ads: map<nat, AD>, t: seq<nat>, i: nat)
    requires i < |t| && (forall x :: x in t ==> x in ads)
    requires i + 1 < |t| ==> t[i] + ads[t[i]].nbytes != t[i + 1]
    ensures PiecesOf(ads, t[..i]) + Coalesce(PiecesOf(ads, t[i..]))
         == PiecesOf(ads, t[..i + 1]) + Coalesce(PiecesOf(ads, t[i + 1..]))
  {
    hide PiecesOf, Coalesce;
    var p := Piece(t[i], ads[t[i]].nbytes);
    assert PiecesOf(ads, t[..i + 1]) == PiecesOf(ads, t[..i]) + [p];
    var l := PiecesOf(ads, t[i..]);
    assert l[1..] == PiecesOf(ads, t[i + 1..]);
    CoalesceHead(l);
  }

  lemma CoalesceHead(l: seq<Piece>)
    requires l != [] && (|l| >= 2 ==> l[0].End() != l[1].addr)
    ensures Coalesce(l) == [l[0]] + Coalesce(l[1..])
  {
  }

  /** Merging a member with the next does not change what coalescing arrives at. */
  lemma CoalesceMerge(ads: map<nat, AD>, ads': map<nat, AD>, s: seq<nat>, i: nat, t: seq<nat>)
    requires NoRepeats(s) && i + 1 < |s| && t == s[..i + 1] + s[i + 2..]
    requires forall x :: x in s ==> x in ads && x in ads'
    requires forall x :: x in s && x != s[i] ==> ads'[x] == ads[x]
    requires s[i] + ads[s[i]].nbytes == s[i + 1] && ads'[s[i]].nbytes == ads[s[i]].nbytes + ads[s[i + 1]].nbytes
    ensures (forall x :: x in t ==> x in s)
    ensures PiecesOf(ads', t[..i]) == PiecesOf(ads, s[..i])
    ensures Coalesce(PiecesOf(ads', t[i..])) == Coalesce(PiecesOf(ads, s[i..]))
  {
    var L, a, b, r := s[..i], s[i], s[i + 1], s[i + 2..];
    AroundPair(s, i, t);
    hide *;
    PiecesFrame(ads, ads', L);
    CoalescePair(ads, ads', a, b, r);
  }

  lemma AroundPair(s: seq<nat>, i: nat, t: seq<nat>)
    requires NoRepeats(s) && i + 1 < |s| && t == s[..i + 1] + s[i + 2..]
    ensures t[..i] == s[..i] && t[i..] == [s[i]] + s[i + 2..] && s[i..] == [s[i], s[i + 1]] + s[i + 2..]
    ensures forall x :: x in s[..i] || x in s[i + 2..] || x in t ==> x in s
    ensures forall x :: x in s[..i] || x in s[i + 2..] ==> x != s[i]
    ensures s[i] in s && s[i + 1] in s && s[i] != s[i + 1]
  {
    forall x | x in s[i + 2..]
      ensures x in s && x != s[i]
    {
      var j :| 0 <= j < |s| - i - 2 && s[i + 2..][j] == x;
      assert x == s[i + 2 + j];
    }
  }

  lemma CoalescePair(ads: map<nat, AD>, ads': map<nat, AD>, a: nat, b: nat, r: seq<nat>)
    requires a in ads && b in ads && a in ads' && forall x :: x in r ==> x in ads && x in ads' && ads'[x] == ads[x]
    requires a + ads[a].nbytes == b && ads'[a].nbytes == ads[a].nbytes + ads[b].nbytes
    ensures Coalesce(PiecesOf(ads', [a] + r)) == Coalesce(PiecesOf(ads, [a, b] + r))
  {
    PiecesFrame(ads, ads', r);
    PiecesAppend(ads, [a, b], r);
    PiecesAppend(ads', [a], r);
    var p, q := Piece(a, ads[a].nbytes), Piece(b, ads[b].nbytes);
    assert PiecesOf(ads, [a, b]) == [p, q];
    assert PiecesOf(ads', [a]) == [Piece(a, ads'[a].nbytes)];
    hide Coalesce, PiecesOf;
    CoalesceTwo(p, q, PiecesOf(ads, r));
  }

  lemma CoalesceTwo(p: Piece, q: Piece, r: seq<Piece>)
    requires p.End() == q.addr
    ensures Coalesce([p, q] + r) == Coalesce([Piece(p.addr, p.nbytes + q.nbytes)] + r)
  {
    assert ([p, q] + r)[2..] == r;
  }

  lemma RelinkedTransitive(m: Mem, m1: Mem, m2: Mem, D: set<nat>)
    requires Relinked(m, m1, D) && Relinked(m1, m2, D)
    ensures Relinked(m, m2, D)
  {
    OnlyDescriptorsTransitive(m, m1, m2, D);
  }

  function LastOf(s: seq<nat>): nat {
    if s == [] then NULL else s[|s| - 1]
  }

  lemma NoRepeatsConcat(a: seq<nat>, b: seq<nat>)
    requires NoRepeats(a) && NoRepeats(b) && forall x :: x in a ==> x !in b
    ensures NoRepeats(a + b)
  {
    forall i, j | 0 <= i < j < |a + b|
      ensures (a + b)[i] != (a + b)[j]
    {
      if i < |a| <= j { assert a[i] in a && b[j - |a|] in b; }
    }
  }

  lemma NoRepeatsParts(a: seq<nat>, b: seq<nat>)
    requires NoRepeats(a + b)
    ensures NoRepeats(a) && NoRepeats(b) && forall x :: x in a ==> x !in b
  {
    var w := a + b;
    assert forall i :: 0 <= i < |a| ==> w[i] == a[i];
    assert forall i :: 0 <= i < |b| ==> w[|a| + i] == b[i];
  }

  /** The members of s that are not above addr. */
  function KeepUpTo(s: seq<nat>, addr: nat): seq<nat> {
    if s == [] then []
    else
      var last := s[|s| - 1];
      KeepUpTo(s[..|s| - 1], addr) + (if last > addr then [] else [last])
  }

  /** The list as ListDeleteAbove has it after i members. */
  function Keeping(s: seq<nat>, addr: nat, i: nat): seq<nat>
    requires i <= |s|
  {
    KeepUpTo(s[..i], addr) + s[i..]
  }

  lemma KeepStart(s: seq<nat>, addr: nat)
    ensures Keeping(s, addr, 0) == s && KeepUpTo(s[..0], addr) == []
  {
  }

  /** The state of list_delete_many from memory m0 with list s, after i members. */
  ghost predicate Deleting(m0: Mem, m: Mem, head: nat, s: seq<nat>, addr: nat, i: nat, D: set<nat>) {
    && i <= |s| && Relinked(m0, m, D) && Chain(m.ads, head, Keeping(s, addr, i))
    && forall x :: x in D && x !in s ==> m.ads[x] == m0.ads[x]
  }

  lemma DeletingNext(m0: Mem, m: Mem, head: nat, s: seq<nat>, addr: nat, i: nat, D: set<nat>)
    requires Deleting(m0, m, head, s, addr, i, D) && i < |s| && |KeepUpTo(s[..i], addr)| < |Keeping(s, addr, i)|
    requires Keeping(s, addr, i)[|KeepUpTo(s[..i], addr)|] == s[i]
    ensures D <= m.ads.Keys && s[i] in m.ads
    ensures m.ads[s[i]].next == NextIn(Keeping(s, addr, i), |KeepUpTo(s[..i], addr)|)
  {
  }

  lemma DeletingStart(m: Mem, head: nat, s: seq<nat>, addr: nat, D: set<nat>)
    requires D <= m.ads.Keys && Chain(m.ads, head, s)
    ensures Deleting(m, m, head, s, addr, 0, D) && LastOf(KeepUpTo(s[..0], addr)) == NULL
  {
    KeepStart(s, addr);
    RelinkedRefl(m, D);
  }

  lemma DeletingEnd(m0: Mem, m: Mem, head: nat, s: seq<nat>, addr: nat, i: nat, D: set<nat>)
    requires Deleting(m0, m, head, s, addr, i, D) && i == |s|
    ensures Relinked(m0, m, D) && Chain(m.ads, head, KeepUpTo(s, addr))
    ensures forall x :: x in D && x !in s ==> m.ads[x] == m0.ads[x]
  {
    KeepEnd(s, addr, i);
  }

  lemma KeepEnd(s: seq<nat>, addr: nat, i: nat)
    requires i == |s|
    ensures Keeping(s, addr, i) == KeepUpTo(s, addr)
  {
    assert s[..i] == s;
  }

  lemma KeepStep(s: seq<nat>, addr: nat, i: nat)
    requires i < |s|
    ensures var k, l := KeepUpTo(s[..i], addr), KeepUpTo(s[..i + 1], addr);
      && l == (if s[i] > addr then k else k + [s[i]])
      && |k| < |Keeping(s, addr, i)| && Keeping(s, addr, i)[|k|] == s[i]
      && NextIn(Keeping(s, addr, i), |k|) == NextIn(s, i)
      && LastOf(k + [s[i]]) == s[i] && LastOf(k) == (if k == [] then NULL else Keeping(s, addr, i)[|k| - 1])
      && Keeping(s, addr, i + 1) ==
         (if s[i] > addr then Keeping(s, addr, i)[..|k|] + Keeping(s, addr, i)[|k| + 1..] else Keeping(s, addr, i))
  {
    assert s[..i + 1][..i] == s[..i];
  }

  lemma {:induction false} KeepMembers(s: seq<nat>, addr: nat)
    requires NoRepeats(s)
    ensures forall x :: x in KeepUpTo(s, addr) <==> x in s && x <= addr
    ensures NoRepeats(KeepUpTo(s, addr))
  {
    if s != [] {
      var r, last := s[..|s| - 1], s[|s| - 1];
      assert s == r + [last];
      NoRepeatsParts(r, [last]);
      KeepMembers(r, addr);
      NoRepeatsConcat(KeepUpTo(r, addr), if last > addr then [] else [last]);
    }
  }

  lemma KeepingProps(s: seq<nat>, addr: nat, i: nat, D: set<nat>)
    requires i <= |s| && NoRepeats(s) && AddrSet(s) <= D
    ensures NoRepeats(Keeping(s, addr, i)) && AddrSet(Keeping(s, addr, i)) <= D
    ensures forall x :: x in Keeping(s, addr, i) ==> x in s
  {
    assert s == s[..i] + s[i..];
    NoRepeatsParts(s[..i], s[i..]);
    KeepMembers(s[..i], addr);
    NoRepeatsConcat(KeepUpTo(s[..i], addr), s[i..]);
    InAddrSet(s, D);
  }

  lemma OnlyDescriptorsRefl(m: Mem, D: set<nat>)
    ensures OnlyDescriptors(m, m, D)
  {
  }

  /** t is s with ad at position k. */
  ghost predicate With(s: seq<nat>, k: nat, ad: nat, t: seq<nat>) {
    && k <= |s| && |t| == |s| + 1 && t[k] == ad
    && (forall i :: 0 <= i < k ==> t[i] == s[i])
    && (forall i :: k < i < |t| ==> t[i] == s[i - 1])
  }

  lemma ChainMembers(ads: map<nat, AD>, head: nat, s: seq<nat>)
    requires Chain(ads, head, s)
    ensures forall x :: x in s ==> x != NULL && x in ads
  {
  }

  lemma Spliced(ads: map<nat, AD>, ads': map<nat, AD>, head: nat, head': nat, s: seq<nat>, k: nat, ad: nat)
    requires Chain(ads, head, s) && NoRepeats(s) && k <= |s| && ad !in s && ad != NULL && ad in ads'
    requires forall i :: 0 <= i < |s| ==> s[i] in ads'
    requires forall x :: x in s && (k > 0 ==> x != s[k - 1]) ==> ads'[x] == ads[x]
    requires ads'[ad].next == NextIn(s, k - 1)
    requires k == 0 ==> head' == ad
    requires k > 0 ==> head' == head && ads'[s[k - 1]].next == ad
    ensures Chain(ads', head', s[..k] + [ad] + s[k..])
  {
    hide Chain, NoRepeats, NextIn;
    ChainMembers(ads, head, s);
    NoRepeatsApart(s, k);
    forall i | 0 <= i < |s| && i != k - 1
      ensures ads'[s[i]] == ads[s[i]]
    {
      assert s[i] in s;
    }
    WithIs(s, k, ad);
    LinkedChain(ads, ads', head, head', s, k, ad, s[..k] + [ad] + s[k..]);
  }

  lemma WithIs(s: seq<nat>, k: nat, ad: nat)
    requires k <= |s|
    ensures With(s, k, ad, s[..k] + [ad] + s[k..])
  {
  }

  lemma LinkedChain(ads: map<nat, AD>, ads': map<nat, AD>, head: nat, head': nat, s: seq<nat>, k: nat, ad: nat,
      t: seq<nat>)
    requires Chain(ads, head, s) && With(s, k, ad, t) && ad != NULL && ad in ads'
    requires forall i :: 0 <= i < |s| ==> s[i] in ads'
    requires forall i :: 0 <= i < |s| && i != k - 1 ==> ads'[s[i]] == ads[s[i]]
    requires ads'[ad].next == NextIn(s, k - 1)
    requires k == 0 ==> head' == ad
    requires k > 0 ==> head' == head && ads'[s[k - 1]].next == ad
    ensures Chain(ads', head', t)
  {
    forall i | 0 <= i < |t|
      ensures t[i] != NULL && t[i] in ads' && ads'[t[i]].next == NextIn(t, i)
    {
      if i == k {
        assert NextIn(s, k - 1) == NextIn(t, i);
      } else if i != k - 1 {
        var j := if i < k then i else i - 1;
        assert NextIn(s, j) == NextIn(t, i);
      }
    }
  }

  lemma InAddrSet(s: seq<nat>, D: set<nat>)
    requires AddrSet(s) <= D
    ensures forall j :: 0 <= j < |s| ==> s[j] in D
  {
    assert forall j :: 0 <= j < |s| ==> s[j] in AddrSet(s);
  }

  /** The free pieces described by the descriptors at the addresses in s. */
  function PiecesOf(ads: map<nat, AD>, s: seq<nat>): (l: seq<Piece>)
    requires forall x :: x in s ==> x in ads
    ensures |l| == |s| && forall i :: 0 <= i < |s| ==> l[i] == Piece(s[i], ads[s[i]].nbytes)
  {
    if s == [] then [] else [Piece(s[0], ads[s[0]].nbytes)] + PiecesOf(ads, s[1..])
  }

  lemma NoRepeatsApart(s: seq<nat>, k: nat)
    requires NoRepeats(s) && k <= |s|
    ensures forall j :: 0 <= j < |s| && j != k - 1 && 0 < k ==> s[j] != s[k - 1]
  {
  }

  lemma RelinkedRefl(m: Mem, D: set<nat>)
    requires D <= m.ads.Keys
    ensures Relinked(m, m, D)
  {
  }

  /** t is s without position k. */
  ghost predicate Without(s: seq<nat>, k: nat, t: seq<nat>) {
    && k < |s| && |t| == |s| - 1
    && (forall i :: 0 <= i < k ==> t[i] == s[i])
    && (forall i :: k <= i < |t| ==> t[i] == s[i + 1])
  }

  /** Bypassing position k of a chain. */
  lemma UnlinkedChain(ads: map<nat, AD>, ads': map<nat, AD>, head: nat, head': nat, s: seq<nat>, k: nat, t: seq<nat>)
    requires Chain(ads, head, s) && Without(s, k, t)
    requires forall i :: 0 <= i < |s| ==> s[i] in ads'
    requires forall i :: 0 <= i < |s| && i != k - 1 ==> ads'[s[i]] == ads[s[i]]
    requires k == 0 ==> head' == ads[s[0]].next
    requires k > 0 ==> head' == head && ads'[s[k - 1]].next == ads[s[k]].next
    ensures Chain(ads', head', t)
  {
    forall i | 0 <= i < |t|
      ensures t[i] != NULL && t[i] in ads' && ads'[t[i]].next == NextIn(t, i)
    {
      if i == k - 1 {
        assert ads[s[k]].next == NextIn(s, k) == NextIn(t, i);
      } else {
        var j := if i < k then i else i + 1;
        assert NextIn(s, j) == NextIn(t, i);
      }
    }
  }
}
