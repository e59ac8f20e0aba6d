/**
 * The registry of memory regions (cmx/src-armci/reg_entry.c): for every rank, a list of regions in the order in
 * which they were registered. A failed CMX_ASSERT is the outcome Aborted.
 */
module Registry {

  /** A registered region of len bytes from address buf. */
  datatype Entry = Entry(rank: int, buf: int, len: nat, hdl: int)

  datatype SegOp = TestForIntersection | TestForContainment

  /**
   * seg_cmp: a segment of length zero counts as one byte if it is the other one, and as none if it is the registered
   * one.
   */
  predicate SegCmp(regAddr: int, regLen: nat, othAddr: int, othLen: nat, op: SegOp) {
    if regLen == 0 && othLen == 0 then regAddr == othAddr
    else
      var regBeg, regEnd, othBeg := regAddr, regAddr + regLen, othAddr;
      var othEnd := if othLen == 0 then othBeg + 1 else othBeg + othLen;
      match op
      case TestForIntersection => (regBeg >= othBeg && regBeg < othEnd) || (regEnd > othBeg && regEnd <= othEnd)
      case TestForContainment => regBeg <= othBeg && regEnd >= othEnd
  }

  predicate Contains(e: Entry, buf: int, len: nat) {
    SegCmp(e.buf, e.len, buf, len, TestForContainment)
  }

  predicate Intersects(e: Entry, buf: int, len: nat) {
    SegCmp(e.buf, e.len, buf, len, TestForIntersection)
  }

  // ---------- what the two tests mean together ----------

  /** The number of bytes a region counts for: one, if it is empty. */
  function Width(len: nat): nat {
    if len == 0 then 1 else len
  }

  /** Two regions have a byte in common. */
  predicate Overlap(buf1: int, len1: nat, buf2: int, len2: nat) {
    buf1 < buf2 + Width(len2) && buf2 < buf1 + Width(len1)
  }

  /** Byte x is one of the len bytes from buf. */
  predicate HasByte(buf: int, len: nat, x: int) {
    buf <= x < buf + len
  }

  /** The same, where an empty segment stands for the byte at its address. */
  predicate Covers(buf: int, len: nat, x: int) {
    HasByte(buf, len, x) || (len == 0 && x == buf)
  }

  lemma OverlapIsCommonByte(buf1: int, len1: nat, buf2: int, len2: nat)
    ensures Overlap(buf1, len1, buf2, len2) <==> exists x :: Covers(buf1, len1, x) && Covers(buf2, len2, x)
  {
    if Overlap(buf1, len1, buf2, len2) {
      var x := if buf1 < buf2 then buf2 else buf1;
      assert Covers(buf1, len1, x) && Covers(buf2, len2, x);
    }
  }

  /**
   * The region holds every byte of the segment. An empty region holds only the empty segment at its own address.
   */
  ghost predicate Holds(e: Entry, buf: int, len: nat) {
    if e.len == 0 && len == 0 then e.buf == buf
    else forall x :: Covers(buf, len, x) ==> HasByte(e.buf, e.len, x)
  }

  /** What containment means. */
  lemma ContainsIsHolds(e: Entry, buf: int, len: nat)
    ensures Contains(e, buf, len) <==> Holds(e, buf, len)
  {
    if Holds(e, buf, len) && !(e.len == 0 && len == 0) {
      assert Covers(buf, len, buf) && Covers(buf, len, if len == 0 then buf else buf + len - 1);
    }
  }

  /**
   * What intersection means: the first or the last byte of the region belongs to the segment. An empty region counts
   * as touching the segment if its address is in it or at its end.
   */
  predicate Touches(e: Entry, buf: int, len: nat) {
    if e.len > 0 then
      Covers(buf, len, e.buf) || Covers(buf, len, e.buf + e.len - 1)
    else
      buf <= e.buf <= buf + len
  }

  lemma IntersectsIsTouches(e: Entry, buf: int, len: nat)
    ensures Intersects(e, buf, len) <==> Touches(e, buf, len)
  {
  }

  /** A segment that can be registered after e: no common byte, and it does not end at an empty region. */
  predicate Clear(e: Entry, buf: int, len: nat) {
    !Overlap(e.buf, e.len, buf, len) && !(e.len == 0 && len > 0 && e.buf == buf + len)
  }

  /** Containment alone misses regions that overlap in part. */
  lemma ContainmentMissesOverlaps() returns (e: Entry, buf: int, len: nat)
    ensures Overlap(e.buf, e.len, buf, len) && !Contains(e, buf, len) && Intersects(e, buf, len)
  {
    e, buf, len := Entry(0, 0, 8, 0), 4, 8;
  }

  /** Intersection alone misses regions strictly inside the registered one. */
  lemma IntersectionMissesOverlaps() returns (e: Entry, buf: int, len: nat)
    ensures Overlap(e.buf, e.len, buf, len) && !Intersects(e, buf, len) && Contains(e, buf, len)
  {
    e, buf, len := Entry(0, 0, 8, 0), 2, 2;
  }

  /**
   * Together the two tests find every overlap. The only other thing they object to is a nonempty region that ends
   * where an empty one is registered.
   */
  lemma TestsTogether(e: Entry, buf: int, len: nat)
    ensures Contains(e, buf, len) || Intersects(e, buf, len) <==>
      Overlap(e.buf, e.len, buf, len) || (e.len == 0 && len > 0 && e.buf == buf + len)
  {
  }

  /** Two regions without a common byte that can only be registered in one order. */
  lemma OrderMatters() returns (a: Entry, b: Entry)
    ensures !Overlap(a.buf, a.len, b.buf, b.len) && Compatible(b, a) && !Compatible(a, b)
  {
    a, b := Entry(0, 8, 0, 0), Entry(0, 4, 4, 0);
  }

  // ---------- the lists ----------

  /** The tests on every entry of a list, in terms of bytes. */
  lemma ListTests(list: seq<Entry>, buf: int, len: nat)
    ensures forall j :: 0 <= j < |list| ==> (Contains(list[j], buf, len) <==> Holds(list[j], buf, len))
    ensures forall j :: 0 <= j < |list| ==> (Intersects(list[j], buf, len) <==> Touches(list[j], buf, len))
    ensures forall j :: 0 <= j < |list| ==>
      (Contains(list[j], buf, len) || Intersects(list[j], buf, len) <==> !Clear(list[j], buf, len))
  {
    forall j | 0 <= j < |list|
      ensures Contains(list[j], buf, len) <==> Holds(list[j], buf, len)
      ensures Intersects(list[j], buf, len) <==> Touches(list[j], buf, len)
      ensures Contains(list[j], buf, len) || Intersects(list[j], buf, len) <==> !Clear(list[j], buf, len)
    {
      ContainsIsHolds(list[j], buf, len);
      IntersectsIsTouches(list[j], buf, len);
      TestsTogether(list[j], buf, len);
    }
  }

  /** Region b could be registered after region a. */
  predicate Compatible(a: Entry, b: Entry) {
    !Contains(a, b.buf, b.len) && !Intersects(a, b.buf, b.len)
  }

  /** Every region could be registered after those in front of it. */
  predicate Consistent(list: seq<Entry>) {
    forall i, j :: 0 <= i < j < |list| ==> Compatible(list[i], list[j])
  }

  /** The regions of a consistent list do not overlap. */
  lemma ConsistentIsDisjoint(list: seq<Entry>, i: nat, j: nat)
    requires Consistent(list) && i < |list| && j < |list| && i != j
    ensures !Overlap(list[i].buf, list[i].len, list[j].buf, list[j].len)
  {
    if i < j {
      assert Compatible(list[i], list[j]);
      TestsTogether(list[i], list[j].buf, list[j].len);
    } else {
      assert Compatible(list[j], list[i]);
      TestsTogether(list[j], list[i].buf, list[i].len);
    }
  }

  /** At most one region contains a given segment: the duplicate assertion of reg_entry_find never fails. */
  lemma OneContains(list: seq<Entry>, i: nat, j: nat, buf: int, len: nat)
    requires Consistent(list) && i < |list| && j < |list| && Contains(list[i], buf, len) && Contains(list[j], buf, len)
    ensures i == j
  {
    if i != j {
      ConsistentIsDisjoint(list, i, j);
    }
  }

  /** Behind a region that intersects a segment, none contains it: nor does that of reg_entry_find_intersection. */
  lemma NoneContainsBehind(list: seq<Entry>, i: nat, j: nat, buf: int, len: nat)
    requires Consistent(list) && i < j < |list| && Intersects(list[i], buf, len)
    ensures !Contains(list[j], buf, len)
  {
    assert Compatible(list[i], list[j]);
    TestsTogether(list[i], list[j].buf, list[j].len);
  }

  /** At most one region starts at an address, and it contains a segment of length zero there. */
  lemma OneStarts(list: seq<Entry>, i: nat, j: nat)
    requires Consistent(list) && i < |list| && j < |list| && list[i].buf == list[j].buf
    ensures i == j && Contains(list[i], list[i].buf, 0)
  {
    if i != j {
      ConsistentIsDisjoint(list, i, j);
    }
  }

  lemma AppendKeeps(list: seq<Entry>, e: Entry)
    requires Consistent(list) && forall i :: 0 <= i < |list| ==> Compatible(list[i], e)
    ensures Consistent(list + [e])
  {
  }

  lemma RemoveKeeps(list: seq<Entry>, k: nat)
    requires Consistent(list) && k < |list|
    ensures Consistent(list[..k] + list[k + 1..])
  {
    var r := list[..k] + list[k + 1..];
    forall i, j | 0 <= i < j < |r|
      ensures Compatible(r[i], r[j])
    {
      assert Compatible(list[if i < k then i else i + 1], list[if j < k then j else j + 1]);
    }
  }

  // ---------- the registry ----------

  /** What a search yields: the position of an entry in its rank's list, none, or a failed assertion. */
  datatype Lookup = Aborted | Missing | At(i: nat)

  datatype Outcome = Done | Abort

  class Regions {
    var regEntries: seq<seq<Entry>>
    var regNprocs: nat

    ghost predicate Valid()
      reads this
    {
      |regEntries| == regNprocs && forall r :: 0 <= r < regNprocs ==> Consistent(regEntries[r])
    }

    constructor ()
      ensures Valid() && regNprocs == 0
    {
      regEntries, regNprocs := [], 0;
    }

    /** reg_entry_init */
    method Init(nprocs: nat) returns (r: Outcome)
      requires Valid()
      modifies this
      ensures Valid() && (r == Done <==> old(regNprocs) == 0)
      ensures r == Done ==> regEntries == seq(nprocs, _ => [])
      ensures r == Abort ==> regEntries == old(regEntries)
    {
      if regNprocs != 0 {
        return Abort;
      }
      regNprocs := nprocs;
      regEntries := seq(nprocs, _ => []);
      r := Done;
    }

    /** reg_entries_destroy */
    method Destroy() returns (r: Outcome)
      requires Valid()
      modifies this
      ensures Valid() && (r == Done <==> old(regNprocs) != 0) && regNprocs == 0
    {
      if regNprocs == 0 {
        return Abort;
      }
      regEntries, regNprocs := [], 0;
      r := Done;
    }

    predicate HasRank(rank: int)
      reads this
    {
      0 <= rank < regNprocs
    }

    /** reg_entry_find: the one entry that contains the segment. The check for duplicates never fails. */
    method Find(rank: int, buf: int, len: int) returns (r: Lookup)
      requires Valid()
      ensures r == Aborted <==> !HasRank(rank) || (len < 0 && regEntries[rank] != [])
      ensures r == Missing && len >= 0 ==>
        forall j :: 0 <= j < |regEntries[rank]| ==> !Holds(regEntries[rank][j], buf, len)
      ensures r.At? ==> len >= 0 && r.i < |regEntries[rank]| && forall j :: 0 <= j < |regEntries[rank]| ==>
        (Holds(regEntries[rank][j], buf, len) <==> j == r.i)
    {
      hide Holds;
      if !HasRank(rank) {
        return Aborted;
      }
      var list := regEntries[rank];
      if len < 0 {
        return if list != [] then Aborted else Missing;
      }
      r := Missing;
      var runner := 0;
      while runner < |list| && r == Missing
        invariant 0 <= runner <= |list| && r != Aborted
        invariant r == Missing ==> forall j :: 0 <= j < runner ==> !Contains(list[j], buf, len)
        invariant r.At? ==> r.i < runner && Contains(list[r.i], buf, len)
        decreases |list| - runner
      {
        if Contains(list[runner], buf, len) {
          r := At(runner);
        }
        runner := runner + 1;
      }
      while runner < |list|
        invariant 0 <= runner <= |list|
      {
        if r.At? && Contains(list[runner], buf, len) {
          OneContains(list, r.i, runner, buf, len);
        }
        assert r.At? ==> runner == r.i || !Contains(list[runner], buf, len);
        runner := runner + 1;
      }
      forall j | 0 <= j < |list|
        ensures Holds(list[j], buf, len) <==> r.At? && j == r.i
      {
        ContainsIsHolds(list[j], buf, len);
        if r.At? && Contains(list[j], buf, len) {
          OneContains(list, r.i, j, buf, len);
        }
      }
    }

    /** reg_entry_find_intersection: the first entry that intersects the segment. Its check never fails either. */
    method FindIntersection(rank: int, buf: int, len: int) returns (r: Lookup)
      requires Valid()
      ensures r == Aborted <==> !HasRank(rank) || (len < 0 && regEntries[rank] != [])
      ensures r == Missing && len >= 0 ==>
        forall j :: 0 <= j < |regEntries[rank]| ==> !Touches(regEntries[rank][j], buf, len)
      ensures r.At? ==> len >= 0 && r.i < |regEntries[rank]| && Touches(regEntries[rank][r.i], buf, len)
      ensures r.At? ==> forall j :: 0 <= j < r.i ==> !Touches(regEntries[rank][j], buf, len)
    {
      hide Touches;
      if !HasRank(rank) {
        return Aborted;
      }
      var list := regEntries[rank];
      if len < 0 {
        return if list != [] then Aborted else Missing;
      }
      ListTests(list, buf, len);
      r := Missing;
      var runner := 0;
      while runner < |list| && r == Missing
        invariant 0 <= runner <= |list| && r != Aborted
        invariant r == Missing ==> forall j :: 0 <= j < runner ==> !Intersects(list[j], buf, len)
        invariant r.At? ==> r.i < runner && Intersects(list[r.i], buf, len)
        invariant r.At? ==> forall j :: 0 <= j < r.i ==> !Intersects(list[j], buf, len)
        decreases |list| - runner
      {
        if Intersects(list[runner], buf, len) {
          r := At(runner);
        }
        runner := runner + 1;
      }
      while runner < |list|
        invariant 0 <= runner <= |list| && (r.At? ==> r.i < runner)
      {
        if r.At? {
          NoneContainsBehind(list, r.i, runner, buf, len);
          assert !Contains(list[runner], buf, len);
        }
        runner := runner + 1;
      }
    }

    /** reg_entry_insert: the region goes to the end of its rank's list, if neither test finds anything there. */
    method Insert(rank: int, buf: int, len: int, hdl: int) returns (r: Outcome)
      requires Valid()
      modifies this`regEntries
      ensures Valid()
      ensures r == Done <==>
        HasRank(rank) && len >= 0
        && forall j :: 0 <= j < |old(regEntries)[rank]| ==> Clear(old(regEntries)[rank][j], buf, len)
      ensures r == Done ==> regEntries == old(regEntries)[rank := old(regEntries)[rank] + [Entry(rank, buf, len, hdl)]]
      ensures r == Abort ==> regEntries == old(regEntries)
      ensures HasRank(rank) && len >= 0 ==>
        regEntries == old(regEntries)[rank := Step(rank, old(regEntries)[rank], Register(buf, len, hdl))]
    {
      if !HasRank(rank) || len < 0 {
        return Abort;
      }
      ListTests(regEntries[rank], buf, len);
      hide Holds, Touches, Clear, Contains, Intersects;
      var found := Find(rank, buf, len);
      if found != Missing {
        if found.At? {
          assert !Compatible(regEntries[rank][found.i], Entry(rank, buf, len, 0));
        }
        return Abort;
      }
      var crossing := FindIntersection(rank, buf, len);
      if crossing != Missing {
        if crossing.At? {
          assert !Compatible(regEntries[rank][crossing.i], Entry(rank, buf, len, 0));
        }
        return Abort;
      }
      var node := Entry(rank, buf, len, hdl);
      AppendKeeps(regEntries[rank], node);
      regEntries := regEntries[rank := regEntries[rank] + [node]];
      r := Done;
    }

    /** reg_entry_delete: removes exactly the region that starts at buf; aborts if there is none. */
    method Delete(rank: int, buf: int) returns (r: Outcome, ghost k: nat)
      requires Valid()
      modifies this`regEntries
      ensures Valid()
      ensures r == Done <==>
        HasRank(rank) && exists j :: 0 <= j < |old(regEntries)[rank]| && old(regEntries)[rank][j].buf == buf
      ensures r == Abort ==> regEntries == old(regEntries)
      ensures r == Done ==>
        && k < |old(regEntries)[rank]| && old(regEntries)[rank][k].buf == buf
        && (forall j :: 0 <= j < |old(regEntries)[rank]| && j != k ==> old(regEntries)[rank][j].buf != buf)
        && regEntries == old(regEntries)[rank := old(regEntries)[rank][..k] + old(regEntries)[rank][k + 1..]]
      ensures HasRank(rank) ==>
        regEntries == old(regEntries)[rank := Step(rank, old(regEntries)[rank], Unregister(buf))]
    {
      k := 0;
      if HasRank(rank) {
        ListTests(regEntries[rank], buf, 0);
      }
      var found := Find(rank, buf, 0);
      if found == Aborted {
        return Abort, 0;
      }
      var list := regEntries[rank];
      if found == Missing {
        forall j | 0 <= j < |list|
          ensures list[j].buf != buf
        {
          if list[j].buf == buf {
            OneStarts(list, j, j);
          }
        }
        WithoutNone(list, buf);
        return Abort, 0;
      }
      var runner := 0;
      while runner < |list| && list[runner].buf != buf
        invariant 0 <= runner <= |list| && forall j :: 0 <= j < runner ==> list[j].buf != buf
      {
        runner := runner + 1;
      }
      if runner == |list| {
        WithoutNone(list, buf);
        return Abort, 0;
      }
      k := runner;
      forall j | 0 <= j < |list| && j != k
        ensures list[j].buf != buf
      {
        if list[j].buf == buf {
          OneStarts(list, j, k);
        }
      }
      RemoveKeeps(list, runner);
      WithoutAt(list, buf, runner);
      regEntries := regEntries[rank := list[..runner] + list[runner + 1..]];
      r := Done;
    }
  }

  lemma RegisterFirst(e: Entry)
    requires e.rank == 0
    ensures Step(0, [], Register(e.buf, e.len, e.hdl)) == [e]
  {
  }

  lemma RegisterSecond(a: Entry, b: Entry)
    requires b.rank == 0
    ensures Step(0, [a], Register(b.buf, b.len, b.hdl)) == if Compatible(a, b) then [a, b] else [a]
  {
    assert [a][0] == a;
  }

  /** Registers two regions at rank 0 of a new registry: the second one is refused if it is not compatible. */
  method RegisterTwo(a: Entry, b: Entry) returns (g: Regions, first: Outcome, second: Outcome)
    requires a.rank == b.rank == 0
    ensures fresh(g) && g.Valid() && first == Done
    ensures g.regEntries == if Compatible(a, b) then [[a, b]] else [[a]]
    ensures second == Done <==> Compatible(a, b)
  {
    RegisterFirst(a);
    RegisterSecond(a, b);
    TestsTogether(a, b.buf, b.len);
    hide Step, Consistent, Contains, Intersects, Clear;
    g := new Regions();
    var _ := g.Init(1);
    assert g.regEntries == [[]];
    first := g.Insert(0, a.buf, a.len, a.hdl);
    assert g.regEntries == [[a]];
    second := g.Insert(0, b.buf, b.len, b.hdl);
  }

  /**
   * The empty region at 8 and the one of four bytes from 4 have no byte in common. Registered in this order the second
   * one is refused; in the other order both are accepted.
   */
  method RefusedNeighbour(emptyFirst: bool) returns (g: Regions, first: Outcome, second: Outcome)
    ensures !Overlap(8, 0, 4, 4) && fresh(g) && g.Valid() && first == Done
    ensures second == if emptyFirst then Abort else Done
    ensures |g.regEntries| == 1 && |g.regEntries[0]| == if emptyFirst then 1 else 2
  {
    var a, b := Entry(0, 8, 0, 0), Entry(0, 4, 4, 0);
    assert !Compatible(a, b) && Compatible(b, a);
    if emptyFirst {
      g, first, second := RegisterTwo(a, b);
    } else {
      g, first, second := RegisterTwo(b, a);
    }
  }

  // ---------- every run ----------

  /** One call on the list of one rank; Insert and Delete are Step on it. */
  datatype Call = Register(buf: int, len: nat, hdl: int) | Unregister(buf: int)

  function Step(rank: int, list: seq<Entry>, c: Call): seq<Entry> {
    match c
    case Register(buf, len, hdl) =>
      if forall j :: 0 <= j < |list| ==> Compatible(list[j], Entry(rank, buf, len, 0)) then
        list + [Entry(rank, buf, len, hdl)]
      else list
    case Unregister(buf) => Without(list, buf)
  }

  /** The list without its first entry at buf. */
  function Without(list: seq<Entry>, buf: int): seq<Entry> {
    if list == [] then [] else if list[0].buf == buf then list[1..] else [list[0]] + Without(list[1..], buf)
  }

  lemma {:induction false} WithoutNone(list: seq<Entry>, buf: int)
    requires forall j :: 0 <= j < |list| ==> list[j].buf != buf
    ensures Without(list, buf) == list
  {
    if list != [] {
      WithoutNone(list[1..], buf);
    }
  }

  lemma {:induction false} WithoutAt(list: seq<Entry>, buf: int, k: nat)
    requires k < |list| && list[k].buf == buf && forall j :: 0 <= j < k ==> list[j].buf != buf
    ensures Without(list, buf) == list[..k] + list[k + 1..]
  {
    if k > 0 {
      WithoutAt(list[1..], buf, k - 1);
      assert list[..k] == [list[0]] + list[1..][..k - 1] && list[k + 1..] == list[1..][k..];
    }
  }

  function After(rank: int, list: seq<Entry>, calls: seq<Call>): seq<Entry>
    decreases |calls|
  {
    if calls == [] then list else After(rank, Step(rank, list, calls[0]), calls[1..])
  }

  lemma {:induction false} WithoutKeeps(list: seq<Entry>, buf: int)
    requires Consistent(list)
    ensures Consistent(Without(list, buf)) && forall e :: e in Without(list, buf) ==> e in list
  {
    if list != [] {
      assert Consistent(list[1..]);
      WithoutKeeps(list[1..], buf);
      var r := Without(list, buf);
      if list[0].buf != buf {
        forall i, j | 0 <= i < j < |r|
          ensures Compatible(r[i], r[j])
        {
          if i == 0 {
            assert r[j] in list[1..];
          }
        }
      }
    }
  }

  lemma {:induction false} RunsAreConsistent(rank: int, list: seq<Entry>, calls: seq<Call>)
    requires Consistent(list)
    ensures Consistent(After(rank, list, calls))
    decreases |calls|
  {
    if calls != [] {
      if calls[0].Unregister? {
        WithoutKeeps(list, calls[0].buf);
      }
      RunsAreConsistent(rank, Step(rank, list, calls[0]), calls[1..]);
    }
  }

  /** After any run of inserts and deletes no two regions of a rank overlap, and a segment is found in at most one. */
  lemma EveryRunIsDisjoint(rank: int, calls: seq<Call>, i: nat, j: nat, buf: int, len: nat)
    requires i < |After(rank, [], calls)| && j < |After(rank, [], calls)| && i != j
    ensures var l := After(rank, [], calls);
      && !Overlap(l[i].buf, l[i].len, l[j].buf, l[j].len)
      && !(Contains(l[i], buf, len) && Contains(l[j], buf, len))
  {
    RunsAreConsistent(rank, [], calls);
    var l := After(rank, [], calls);
    ConsistentIsDisjoint(l, i, j);
    if Contains(l[i], buf, len) && Contains(l[j], buf, len) {
      OneContains(l, i, j, buf, len);
    }
  }
}
