/** The growable table of memory handles (ma/table.c). */
module HandleTables {
  import opened Arithmetic

  datatype SlotState = Unused | Allocated | Deallocated

  datatype Slot = Slot(data: nat, state: SlotState)

  const DEFAULT_TABLE_ENTRIES: nat := 32
  const TABLE_HANDLE_NONE: int := -1

  /** The handles in use, with their data. */
  function LiveOf(slots: seq<Slot>): map<int, nat> {
    map h | 0 <= h < |slots| && slots[h].state.Allocated? :: slots[h].data
  }

  function CountAllocated(slots: seq<Slot>): (n: nat)
    ensures n <= |slots|
  {
    if slots == [] then 0 else (if slots[0].state.Allocated? then 1 else 0) + CountAllocated(slots[1..])
  }

  lemma {:induction false} CountFull(slots: seq<Slot>)
    requires forall i :: 0 <= i < |slots| ==> slots[i].state.Allocated?
    ensures CountAllocated(slots) == |slots|
  {
    if slots != [] {
      CountFull(slots[1..]);
    }
  }

  lemma {:induction false} CountAppendUnused(slots: seq<Slot>, more: seq<Slot>)
    requires forall i :: 0 <= i < |more| ==> more[i].state.Unused?
    ensures CountAllocated(slots + more) == CountAllocated(slots)
  {
    if slots != [] {
      assert (slots + more)[1..] == slots[1..] + more;
      CountAppendUnused(slots[1..], more);
    } else if more != [] {
      assert slots + more == more && (slots + more[1..]) == more[1..];
      CountAppendUnused(slots, more[1..]);
    }
  }

  /** The number of entries is the number of handles in use. */
  lemma {:induction false} CountIsLive(slots: seq<Slot>)
    ensures |LiveOf(slots)| == CountAllocated(slots)
    decreases |slots|
  {
    if slots != [] {
      var n := |slots| - 1;
      var rest, s := slots[..n], slots[n];
      CountIsLive(rest);
      CountAppend(rest, s);
      assert slots == rest + [s];
      if s.state.Allocated? {
        assert LiveOf(slots) == LiveOf(rest)[n := s.data];
        assert n !in LiveOf(rest);
      } else {
        assert LiveOf(slots) == LiveOf(rest);
      }
    } else {
      assert LiveOf(slots) == map[];
    }
  }

  lemma {:induction false} CountAppend(slots: seq<Slot>, s: Slot)
    ensures CountAllocated(slots + [s]) == CountAllocated(slots) + Bit(s)
  {
    if slots != [] {
      assert (slots + [s])[1..] == slots[1..] + [s];
      CountAppend(slots[1..], s);
    }
  }

  /** If as many slots are allocated as there are, all of them are. */
  lemma {:induction false} FullCount(slots: seq<Slot>)
    requires CountAllocated(slots) == |slots|
    ensures forall i :: 0 <= i < |slots| ==> slots[i].state.Allocated?
  {
    if slots != [] {
      FullCount(slots[1..]);
      assert forall i :: 0 < i < |slots| ==> slots[i] == slots[1..][i - 1];
    }
  }

  function Bit(s: Slot): int {
    if s.state.Allocated? then 1 else 0
  }

  lemma {:induction false} CountUpdate(slots: seq<Slot>, i: nat, s: Slot)
    requires i < |slots|
    ensures CountAllocated(slots[i := s]) == CountAllocated(slots) - Bit(slots[i]) + Bit(s)
  {
    if i == 0 {
      assert slots[0 := s][1..] == slots[1..];
    } else {
      assert slots[i := s][1..] == slots[1..][i - 1 := s];
      CountUpdate(slots[1..], i - 1, s);
    }
  }

  /** The slot k steps around a circle of n slots from start. */
  function Around(start: nat, k: nat, n: nat): (i: nat)
    requires 0 < n
    ensures i < n
  {
    (start + k) % n
  }

  /** Walking a circle of n slots from start for n steps meets every slot. */
  lemma CircleComplete(start: nat, j: nat, n: nat) returns (k: nat)
    requires start < n && j < n
    ensures k < n && Around(start, k, n) == j
  {
    if start <= j {
      k := j - start;
      ModUnique(start + k, n, 0, j);
    } else {
      k := j - start + n;
      ModUnique(start + k, n, 1, j);
    }
  }

  /** Is the slot k steps around the circle from start allocated? */
  predicate TakenAt(slots: seq<Slot>, start: nat, k: nat)
    requires |slots| > 0
  {
    slots[Around(start, k, |slots|)].state.Allocated?
  }

  /** When every slot on the circle is allocated, the table is full. */
  lemma CircleFull(slots: seq<Slot>, start: nat)
    requires start < |slots|
    requires forall k :: 0 <= k < |slots| ==> TakenAt(slots, start, k)
    ensures CountAllocated(slots) == |slots|
  {
    forall j | 0 <= j < |slots|
      ensures slots[j].state.Allocated?
    {
      var k := CircleComplete(start, j, |slots|);
      assert TakenAt(slots, start, k);
    }
    CountFull(slots);
  }

  lemma StepCircle(start: nat, k: nat, n: nat)
    requires n > 0
    ensures (Around(start, k, n) + 1) % n == Around(start, k + 1, n)
  {
    var r := Around(start, k, n);
    ModAdd(start + k, 1, n);
    ModUnique(r, n, 0, r);
    ModAdd(r, 1, n);
  }

  lemma CircleStart(start: nat, n: nat)
    requires start < n
    ensures Around(start, 0, n) == start
  {
    ModUnique(start, n, 0, start);
  }

  /** h is dist steps around the circle from start, and the slots before it are all in use. */
  ghost predicate FirstFree(live: map<int, nat>, start: nat, n: nat, dist: nat, h: int) {
    && start < n && dist < n && h == (start + dist) % n && h !in live
    && forall k: nat :: k < dist ==> Around(start, k, n) in live
  }

  lemma FreeIs(live: map<int, nat>, start: nat, n: nat, dist: nat, h: int)
    requires FirstFree(live, start, n, dist, h)
    ensures h !in live
  {
  }

  /** What the search has found. */
  lemma FoundFree(slots: seq<Slot>, start: nat, dist: nat, i: nat)
    requires start < |slots| && dist < |slots| && i == Around(start, dist, |slots|) && !slots[i].state.Allocated?
    requires forall k :: 0 <= k < dist ==> TakenAt(slots, start, k)
    ensures FirstFree(LiveOf(slots), start, |slots|, dist, i)
  {
    forall k: nat | k < dist
      ensures Around(start, k, |slots|) in LiveOf(slots)
    {
      assert TakenAt(slots, start, k);
    }
  }

  lemma LiveUpdate(slots: seq<Slot>, i: nat, data: nat)
    requires i < |slots|
    ensures LiveOf(slots[i := Slot(data, Allocated)]) == LiveOf(slots)[i := data]
  {
  }

  class HandleTable {
    var slots: seq<Slot>
    var entries: nat
    var nextSlot: nat

    ghost predicate Valid()
      reads this
    {
      && entries == CountAllocated(slots)
      && if slots == [] then nextSlot == 0 else nextSlot < |slots|
    }

    function Live(): map<int, nat>
      reads this
    {
      LiveOf(slots)
    }

    constructor ()
      ensures Valid() && Live() == map[] && slots == []
    {
      slots, entries, nextSlot := [], 0, 0;
    }

    /** Doubles the capacity (or sets the first one); handles in use keep their meaning. */
    method Grow()
      requires Valid() && entries == |slots|
      modifies this
      ensures Valid() && Live() == old(Live()) && entries == old(entries)
      ensures |slots| == if |old(slots)| == 0 then 32 else 2 * |old(slots)|
      ensures nextSlot == |old(slots)| && slots[..|old(slots)|] == old(slots)
    {
      var capacity := if |slots| == 0 then DEFAULT_TABLE_ENTRIES else 2 * |slots|;
      var added := seq(capacity - |slots|, _ => Slot(0, Unused));
      CountAppendUnused(slots, added);
      nextSlot := |slots|;
      slots := slots + added;
    }

    /** The linear circular search: the first slot from nextSlot on that is not allocated. It never comes up empty. */
    method NextAvailable() returns (i: nat, ghost dist: nat)
      requires Valid() && entries < |slots|
      ensures i < |slots| && !slots[i].state.Allocated?
      ensures dist < |slots| && i == Around(nextSlot, dist, |slots|)
      ensures forall k :: 0 <= k < dist ==> TakenAt(slots, nextSlot, k)
    {
      hide Around, CountAllocated;
      var examined := 0;
      i := nextSlot;
      CircleStart(nextSlot, |slots|);
      while examined < |slots|
        invariant 0 <= examined <= |slots| && i == Around(nextSlot, examined, |slots|)
        invariant forall k :: 0 <= k < examined ==> TakenAt(slots, nextSlot, k)
      {
        if !slots[i].state.Allocated? {
          return i, examined;
        }
        assert TakenAt(slots, nextSlot, examined);
        StepCircle(nextSlot, examined, |slots|);
        examined, i := examined + 1, (i + 1) % |slots|;
      }
      CircleFull(slots, nextSlot);
      assert false;
    }

    /**
     * Stores data in the next available slot, growing the table first if it is full, and returns its handle. The slot
     * is the first one on the circle that is not in use, from where the last search ended (or from the first new slot),
     * and the next search starts behind it.
     */
    method Allocate(data: nat) returns (handle: int, ghost dist: nat)
      requires Valid()
      modifies this
      ensures Valid() && handle != TABLE_HANDLE_NONE
      ensures handle !in old(Live()) && Live() == old(Live())[handle := data]
      ensures |slots| ==
        if |old(Live())| < |old(slots)| then |old(slots)| else if old(slots) == [] then 32 else 2 * |old(slots)|
      ensures FirstFree(old(Live()), if |old(Live())| < |old(slots)| then old(nextSlot) else |old(slots)|, |slots|,
        dist, handle)
      ensures nextSlot == (handle + 1) % |slots|
    {
      hide LiveOf, CountAllocated, FirstFree;
      CountIsLive(slots);
      if entries >= |slots| {
        Grow();
      }
      var i;
      i, dist := NextAvailable();
      FoundFree(slots, nextSlot, dist, i);
      FreeIs(Live(), nextSlot, |slots|, dist, i);
      CountUpdate(slots, i, Slot(data, Allocated));
      LiveUpdate(slots, i, data);
      slots := slots[i := Slot(data, Allocated)];
      entries := entries + 1;
      nextSlot := (i + 1) % |slots|;
      handle := i;
    }

    /** The number of handles in use is below the capacity if some slot is not in use. */
    lemma HasRoom(j: nat)
      requires Valid() && j < |slots| && j !in Live()
      ensures |Live()| < |slots|
    {
      CountIsLive(slots);
      CountAtMost(slots, j);
    }

    /** Is the handle that of an allocated slot? */
    predicate Verify(handle: int)
      reads this
      ensures Verify(handle) <==> handle in Live()
    {
      !(handle < 0 || handle >= |slots| || slots[handle].state.Unused?) && !slots[handle].state.Deallocated?
    }

    method Deallocate(handle: int)
      requires Valid()
      modifies this
      ensures Valid() && Live() == old(Live()) - {handle}
      ensures nextSlot == old(nextSlot) && |slots| == |old(slots)|
    {
      if Verify(handle) {
        var s := slots[handle].(state := Deallocated);
        CountUpdate(slots, handle, s);
        slots := slots[handle := s];
        entries := entries - 1;
      }
    }

    /** The data stored under a handle, or 0 (the null pointer) for an invalid one. */
    function Lookup(handle: int): (data: nat)
      reads this
      ensures data == if handle in Live() then Live()[handle] else 0
    {
      if Verify(handle) then slots[handle].data else 0
    }

    /** The first handle whose data is the given one, or TABLE_HANDLE_NONE. */
    method LookupAssoc(data: nat) returns (handle: int)
      ensures handle == TABLE_HANDLE_NONE ==> data !in Live().Values
      ensures handle != TABLE_HANDLE_NONE ==>
        handle in Live() && Live()[handle] == data
        && forall h :: h in Live() && Live()[h] == data ==> handle <= h
    {
      handle := 0;
      while handle < |slots|
        invariant 0 <= handle <= |slots|
        invariant forall h :: h in Live() && Live()[h] == data ==> handle <= h
      {
        if slots[handle].state.Allocated? && slots[handle].data == data {
          return;
        }
        handle := handle + 1;
      }
      handle := TABLE_HANDLE_NONE;
    }
  }

  // ---------- when a handle is issued again ----------

  /** A slot that is not allocated leaves the table with room. */
  lemma CountAtMost(slots: seq<Slot>, j: nat)
    requires j < |slots| && !slots[j].state.Allocated?
    ensures CountAllocated(slots) < |slots|
  {
    if CountAllocated(slots) == |slots| {
      FullCount(slots);
    }
  }

  lemma AroundIs(start: nat, k: nat, n: nat)
    requires start < n && k < n
    ensures Around(start, k, n) == if start + k < n then start + k else start + k - n
  {
    ModUnique(start + k, n, if start + k < n then 0 else 1, Around(start, k, n));
    if start + k < n { ModUnique(start + k, n, 0, start + k); } else { ModUnique(start + k, n, 1, start + k - n); }
  }

  /** The first free slot without h is h exactly if everything before h is in use. */
  lemma FreedFirst(live: map<int, nat>, start: nat, n: nat, steps: nat, h: nat, dist: nat, h2: int)
    requires start < n && steps < n && Around(start, steps, n) == h && h in live
    requires FirstFree(live - {h}, start, n, dist, h2)
    ensures h2 == h <==> forall k: nat :: k < steps ==> Around(start, k, n) in live
  {
    AroundIs(start, steps, n);
    AroundIs(start, dist, n);
    assert h2 == Around(start, dist, n);
    hide Around;
  }

  /**
   * A handle is freed, and another one is asked for. It is the same one if and only if all slots from where the search
   * starts up to the freed one are in use.
   */
  method FreeThenAllocate(t: HandleTable, h: int, data: nat) returns (h2: int, ghost steps: nat)
    requires t.Valid() && h in t.Live()
    modifies t
    ensures t.Valid() && t.slots != [] && |t.slots| == |old(t.slots)|
    ensures t.Live() == (old(t.Live()) - {h})[h2 := data] && h2 !in old(t.Live()) - {h}
    ensures old(t.nextSlot) < |t.slots| && steps < |t.slots| && Around(old(t.nextSlot), steps, |t.slots|) == h
    ensures h2 == h <==> forall k: nat :: k < steps ==> Around(old(t.nextSlot), k, |t.slots|) in old(t.Live())
  {
    ghost var start, n, live := t.nextSlot, |t.slots|, t.Live();
    InRange(t, h);
    hide FirstFree, HandleTable.Live, HandleTable.Valid, Around;
    steps := CircleComplete(start, h, n);
    t.Deallocate(h);
    t.HasRoom(h);
    ghost var dist;
    h2, dist := t.Allocate(data);
    FreedFirst(live, start, n, steps, h, dist, h2);
    FreeIs(live - {h}, start, n, dist, h2);
  }

  lemma InRange(t: HandleTable, h: int)
    requires t.Valid() && h in t.Live()
    ensures 0 <= h < |t.slots| && t.nextSlot < |t.slots|
  {
  }

  /** A handle that is freed right after it was issued is issued next if and only if no other slot is available. */
  method AllocateFreeAllocate(t: HandleTable, a: nat, b: nat) returns (h: int, h2: int)
    requires t.Valid()
    modifies t
    ensures t.Valid() && (h2 == h <==> |old(t.Live())| + 1 == |t.slots|)
  {
    hide FirstFree, HandleTable.Live, HandleTable.Valid, Around;
    ghost var dist, steps;
    h, dist := t.Allocate(a);
    ghost var start, live, n := t.nextSlot, t.Live(), |t.slots|;
    InRange(t, h);
    AllButOne(t, h);
    h2, steps := FreeThenAllocate(t, h, b);
    OneDistance(start, h, n, steps, n - 1);
  }

  /** All slots before h on the circle that starts behind it are in use exactly if the table is full. */
  lemma AllButOne(t: HandleTable, h: nat)
    requires t.Valid() && h in t.Live() && h < |t.slots| && t.nextSlot == (h + 1) % |t.slots|
    ensures Around(t.nextSlot, |t.slots| - 1, |t.slots|) == h
    ensures (forall k: nat :: k < |t.slots| - 1 ==> Around(t.nextSlot, k, |t.slots|) in t.Live()) <==>
      |t.Live()| == |t.slots|
  {
    var start, slots, n := t.nextSlot, t.slots, |t.slots|;
    LastOnCircle(h, n);
    CountIsLive(slots);
    if forall k: nat :: k < n - 1 ==> Around(start, k, n) in t.Live() {
      forall k | 0 <= k < n
        ensures TakenAt(slots, start, k)
      {
        assert k < n - 1 ==> Around(start, k, n) in t.Live();
      }
      CircleFull(slots, start);
    } else if |t.Live()| == n {
      FullCount(slots);
    }
  }

  lemma OneDistance(start: nat, h: nat, n: nat, j: nat, k: nat)
    requires start < n && j < n && k < n && Around(start, j, n) == h && Around(start, k, n) == h
    ensures j == k
  {
    AroundIs(start, j, n);
    AroundIs(start, k, n);
  }

  lemma LastOnCircle(h: nat, n: nat)
    requires h < n
    ensures Around((h + 1) % n, n - 1, n) == h
  {
    if h + 1 < n {
      ModUnique(h + 1, n, 0, h + 1);
      ModUnique(h + 1 + (n - 1), n, 1, h);
    } else {
      ModUnique(h + 1, n, 1, 0);
      ModUnique(n - 1, n, 0, n - 1);
    }
  }

  /** The table after i calls of Allocate: the handles below i are in use, and the search goes on at i. */
  ghost predicate Filled(t: HandleTable, i: nat)
    reads t
  {
    && t.Valid() && (forall j :: j in t.Live() <==> 0 <= j < i)
    && if i == 0 then t.slots == [] else |t.slots| == 32 && t.nextSlot == if i < 32 then i else 0
  }

  method OneMore(t: HandleTable, i: nat)
    requires Filled(t, i) && i < 32
    modifies t
    ensures Filled(t, i + 1)
  {
    hide FirstFree, HandleTable.Live, HandleTable.Valid, Around;
    ghost var live := t.Live();
    if i > 0 { t.HasRoom(i); }
    ghost var d;
    var x;
    x, d := t.Allocate(1);
    NextOne(live, i, d, x);
  }

  /**
   * In general a freed handle can be issued again at once although another slot is available: 32 handles are issued,
   * 5 and then 0 are freed, and the next handle is 0.
   */
  method ReissuedAtOnce() returns (t: HandleTable, h: int)
    ensures fresh(t) && t.Valid() && h == 0 && 5 !in t.Live() && |t.slots| == 32
  {
    hide HandleTable.Live, HandleTable.Valid, Around;
    t := new HandleTable();
    NewIs(t);
    var i := 0;
    while i < 32
      invariant 0 <= i <= 32 && fresh(t) && Filled(t, i)
    {
      OneMore(t, i);
      i := i + 1;
    }
    t.Deallocate(5);
    ghost var steps;
    h, steps := FreeThenAllocate(t, 0, 1);
    CircleStart(0, 32);
    OneDistance(0, 0, 32, steps, 0);
  }

  lemma NewIs(t: HandleTable)
    requires t.Valid() && t.slots == []
    ensures t.Live() == map[]
  {
  }

  /** With the handles below i in use, the search from i finds i. */
  lemma NextOne(live: map<int, nat>, i: nat, dist: nat, h: int)
    requires i < 32 && (forall j :: j in live <==> 0 <= j < i) && FirstFree(live, i, 32, dist, h)
    ensures h == i
  {
    CircleStart(i, 32);
  }
}
