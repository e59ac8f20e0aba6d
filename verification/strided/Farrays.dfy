/**
 * Transfers between sections of Fortran arrays: the array layout of arraywrap.c, and the strides and counts that
 * ARMCI_Put_farrays (armcif90.c) derives from two sections before it calls the strided put.
 */
module Farrays {
  import opened Options
  import opened Arithmetic
  import opened Strides
  import opened Packing
  import opened StrideIterators
  import opened Contiguous

  const MAXDIM: nat := 7

  datatype ArrayDesc = ArrayDesc(lo: seq<int>, hi: seq<int>, extent: seq<nat>, stride: seq<int>, elemsize: nat)

  /** lo:hi:stride in each dimension */
  datatype Slice = Slice(lo: seq<int>, hi: seq<int>, stride: seq<int>)

  /** Column-major: each dimension's byte stride is the size of everything in the dimensions before it. */
  predicate LaidOut(a: ArrayDesc) {
    && 1 <= |a.lo| <= MAXDIM && |a.hi| == |a.lo| && |a.extent| == |a.lo| && |a.stride| == |a.lo| && 0 < a.elemsize
    && forall i :: 0 <= i < |a.stride| ==> a.stride[i] == a.elemsize * Product(a.extent[..i])
  }

  /**
   * _array_create: the descriptor of an array with the given bounds, or of the given shape if there are no lower
   * bounds.
   */
  method ArrayCreate(elemsize: nat, rank: int, lb: Option<seq<int>>, ub: seq<int>) returns (r: Option<ArrayDesc>)
    requires 0 < elemsize && |ub| == rank
    requires match lb case None => forall i :: 0 <= i < rank ==> 0 <= ub[i]
                       case Some(l) => |l| == rank && forall i :: 0 <= i < rank ==> l[i] <= ub[i] + 1
    ensures r.None? <==> rank < 1 || rank > MAXDIM
    ensures r.Some? ==> LaidOut(r.value) && r.value.elemsize == elemsize && |r.value.lo| == rank
    ensures r.Some? ==> forall i :: 0 <= i < rank ==>
      && r.value.lo[i] == (match lb case None => 0 case Some(l) => l[i])
      && r.value.hi[i] == (match lb case None => ub[i] - 1 case Some(_) => ub[i])
      && r.value.extent[i] == r.value.hi[i] - r.value.lo[i] + 1
  {
    if rank < 1 || rank > MAXDIM {
      return None;
    }
    var lo := seq(rank, i requires 0 <= i < rank => match lb case None => 0 case Some(l) => l[i]);
    var hi := seq(rank, i requires 0 <= i < rank => match lb case None => ub[i] - 1 case Some(_) => ub[i]);
    var extent: seq<nat> := seq(rank, i requires 0 <= i < rank => hi[i] - lo[i] + 1);
    var stride: seq<int> := [elemsize];
    var i := 1;
    while i < rank
      invariant 1 <= i <= rank && |stride| == i
      invariant forall j :: 0 <= j < i ==> stride[j] == elemsize * Product(extent[..j])
    {
      NextProduct(extent, i - 1);
      MulThree(elemsize, Product(extent[..i - 1]), extent[i - 1]);
      stride := stride + [stride[i - 1] * extent[i - 1]];
      i := i + 1;
    }
    r := Some(ArrayDesc(lo, hi, extent, stride, elemsize));
  }

  // ---------- the plain nested loop ----------

  /** Column-major position of an element among all elements of the array. */
  function ElementIndex(sub: seq<int>, lo: seq<int>, extent: seq<nat>): int
    requires |sub| == |lo| == |extent|
  {
    if sub == [] then 0 else (sub[0] - lo[0]) + extent[0] * ElementIndex(sub[1..], lo[1..], extent[1..])
  }

  /** Index accumulates the position with a running factor. */
  method Index(sub: seq<int>, lo: seq<int>, extent: seq<nat>) returns (idx: int)
    requires |sub| == |lo| == |extent|
    ensures idx == ElementIndex(sub, lo, extent)
  {
    idx := 0;
    var factor := 1;
    var i := 0;
    while i < |sub|
      invariant 0 <= i <= |sub|
      invariant idx + factor * ElementIndex(sub[i..], lo[i..], extent[i..]) == ElementIndex(sub, lo, extent)
    {
      ghost var rest := ElementIndex(sub[i + 1..], lo[i + 1..], extent[i + 1..]);
      assert sub[i..][1..] == sub[i + 1..] && lo[i..][1..] == lo[i + 1..] && extent[i..][1..] == extent[i + 1..];
      IndexStep(factor, sub[i] - lo[i], extent[i], rest);
      idx := idx + (sub[i] - lo[i]) * factor;
      factor := factor * extent[i];
      i := i + 1;
    }
  }

  lemma IndexStep(factor: int, d: int, e: int, rest: int)
    ensures factor * (d + e * rest) == d * factor + (factor * e) * rest
  {
  }

  /**
   * The subscripts a Fortran loop nest over the section visits, the first dimension fastest: n[i] steps of st[i] from
   * lo[i].
   */
  function Subscripts(lo: seq<int>, st: seq<int>, n: seq<nat>): seq<seq<int>>
    requires |lo| == |st| == |n|
  {
    if lo == [] then [[]] else Inner(lo[0], st[0], n[0], Subscripts(lo[1..], st[1..], n[1..]))
  }

  function Inner(lo: int, st: int, n: nat, outer: seq<seq<int>>): seq<seq<int>> {
    if outer == [] then []
    else seq(n, j => [lo + j * st] + outer[0]) + Inner(lo, st, n, outer[1..])
  }

  lemma {:induction false} InnerAt(lo: int, st: int, n: nat, outer: seq<seq<int>>, p: nat, q: nat, r: nat)
    requires q < |outer| && r < n && p == Start(q, n) + r
    ensures p < |Inner(lo, st, n, outer)| && Inner(lo, st, n, outer)[p] == [lo + r * st] + outer[q]
    decreases q
  {
    hide Start;
    if q > 0 {
      StartNext(q - 1, n);
      InnerAt(lo, st, n, outer[1..], p - n, q - 1, r);
    } else {
      StartNone(n);
    }
  }

  lemma {:induction false} InnerLength(lo: int, st: int, n: nat, outer: seq<seq<int>>)
    ensures |Inner(lo, st, n, outer)| == Start(|outer|, n)
  {
    hide Start;
    StartNone(n);
    if outer != [] {
      InnerLength(lo, st, n, outer[1..]);
      StartNext(|outer| - 1, n);
    }
  }

  lemma {:induction false} SubscriptsShape(lo: seq<int>, st: seq<int>, n: seq<nat>)
    requires |lo| == |st| == |n| && AllPositive(n)
    ensures |Subscripts(lo, st, n)| == Product(n)
    ensures forall k :: 0 <= k < |Subscripts(lo, st, n)| ==> |Subscripts(lo, st, n)[k]| == |lo|
  {
    hide Inner, Start;
    if lo != [] {
      ProductStart(n);
      var outer := Subscripts(lo[1..], st[1..], n[1..]);
      SubscriptsShape(lo[1..], st[1..], n[1..]);
      InnerLength(lo[0], st[0], n[0], outer);
      forall k | 0 <= k < |Subscripts(lo, st, n)|
        ensures |Subscripts(lo, st, n)[k]| == |lo|
      {
        var q, r := Split(k, n[0], |outer|);
        InnerAt(lo[0], st[0], n[0], outer, k, q, r);
      }
    }
  }

  lemma DivDiv(k: nat, a: nat, b: nat)
    requires 0 < a && 0 < b
    ensures 0 < a * b && k / (a * b) == (k / a) / b
  {
    MulPositive(a, b);
    var q, r := k / a, k % a;
    Quotients(k, a, b, q, r, q / b, q % b);
  }

  lemma Quotients(k: nat, a: nat, b: nat, q: nat, r: nat, p: nat, s: nat)
    requires 0 < a * b && k == q * a + r && r < a && q == p * b + s && s < b
    ensures k / (a * b) == p
  {
    MulMonotone(s + 1, b, a);
    Digit(p, b, s, a, r);
    ModUnique(k, a * b, p, s * a + r);
  }

  lemma Digit(p: nat, b: nat, s: nat, a: nat, r: nat)
    ensures (p * b + s) * a + r == p * (a * b) + (s * a + r)
    ensures (s + 1) * a == s * a + a && b * a == a * b
  {
  }

  /**
   * Element k of a section has made (k / (product of the counts before dimension i)) % n[i] steps in dimension i: the
   * elements that correspond in source and destination are those with the same number of steps in each dimension.
   */
  lemma {:induction false} SubscriptIs(lo: seq<int>, st: seq<int>, n: seq<nat>, k: nat, i: nat)
    requires |lo| == |st| == |n| && AllPositive(n) && k < Product(n) && i < |n|
    ensures k < |Subscripts(lo, st, n)| && |Subscripts(lo, st, n)[k]| == |n| && 0 < Product(n[..i])
    ensures Subscripts(lo, st, n)[k][i] == lo[i] + ((k / Product(n[..i])) % n[i]) * st[i]
  {
    SubscriptsShape(lo, st, n);
    ProductStart(n);
    var q, r := Split(k, n[0], Product(n[1..]));
    LoopLengths(lo[1..], st[1..], n[1..], n[1..], 1, q);
    LoopSubscript(lo, st, n, k, q, r);
    hide Subscripts, Start;
    if i > 0 {
      SubscriptIs(lo[1..], st[1..], n[1..], q, i - 1);
      assert n[..i][1..] == n[1..][..i - 1] && n[..i][0] == n[0];
      DivDiv(k, n[0], Product(n[1..][..i - 1]));
    } else {
      assert Product(n[..0]) == 1;
    }
  }

  /** Each further dimension contributes its distance from the lower bound, times the size of those before it. */
  lemma {:induction false} IndexSnoc(sub: seq<int>, lo: seq<int>, extent: seq<nat>, x: int, y: int, e: nat)
    requires |sub| == |lo| == |extent|
    ensures ElementIndex([], [], []) == 0
    ensures ElementIndex(sub + [x], lo + [y], extent + [e]) == ElementIndex(sub, lo, extent) + (x - y) * Product(extent)
  {
    if sub == [] {
      assert sub + [x] == [x] && lo + [y] == [y] && extent + [e] == [e] && [x][1..] == [] && [y][1..] == [];
      assert [e][1..] == [];
    } else {
      IndexSnoc(sub[1..], lo[1..], extent[1..], x, y, e);
      assert (sub + [x])[1..] == sub[1..] + [x] && (lo + [y])[1..] == lo[1..] + [y];
      assert (extent + [e])[1..] == extent[1..] + [e];
      IndexTerms(extent[0], ElementIndex(sub[1..], lo[1..], extent[1..]), x - y, Product(extent[1..]));
    }
  }

  lemma IndexTerms(e: int, rest: int, d: int, p: int)
    ensures e * (rest + d * p) == e * rest + d * (e * p)
  {
  }

  /** The byte strides of a section: m is the size of one step in the first dimension. */
  function Steps(st: seq<int>, extent: seq<nat>, m: nat): seq<int>
    requires |st| == |extent|
  {
    if st == [] then [] else [m * st[0]] + Steps(st[1..], extent[1..], m * extent[0])
  }

  lemma {:induction false} StepsAt(st: seq<int>, extent: seq<nat>, m: nat, i: nat)
    requires |st| == |extent| && i < |st|
    ensures |Steps(st, extent, m)| == |st| && Steps(st, extent, m)[i] == m * Product(extent[..i]) * st[i]
  {
    StepsLength(st, extent, m);
    if i > 0 {
      StepsAt(st[1..], extent[1..], m * extent[0], i - 1);
      assert extent[..i][1..] == extent[1..][..i - 1];
      MulThree(m, extent[0], Product(extent[1..][..i - 1]));
    }
  }

  lemma {:induction false} StepsLength(st: seq<int>, extent: seq<nat>, m: nat)
    requires |st| == |extent|
    ensures |Steps(st, extent, m)| == |st|
  {
    if st != [] {
      StepsLength(st[1..], extent[1..], m * extent[0]);
    }
  }

  lemma LoopLengths(lo: seq<int>, st: seq<int>, n: seq<nat>, extent: seq<nat>, m: nat, k: nat)
    requires |lo| == |st| == |n| == |extent| && AllPositive(n) && k < Product(n)
    ensures |Steps(st, extent, m)| == |n| && |Section(Steps(st, extent, m), n)| == Product(n) == |Subscripts(lo, st, n)|
    ensures |Subscripts(lo, st, n)[k]| == |lo|
  {
    StepsLength(st, extent, m);
    SectionAt(Steps(st, extent, m), n);
    SubscriptsShape(lo, st, n);
  }

  /**
   * The k-th element that the loop nest visits is where the k-th segment of the strided descriptor starts, relative
   * to the section's first element.
   */
  lemma {:induction false} LoopIsSection(lo: seq<int>, st: seq<int>, n: seq<nat>, alo: seq<int>, extent: seq<nat>,
      m: nat, k: nat)
    requires |lo| == |st| == |n| == |alo| == |extent| && AllPositive(n) && k < Product(n)
    ensures |Steps(st, extent, m)| == |n| && |Section(Steps(st, extent, m), n)| == Product(n) == |Subscripts(lo, st, n)|
    ensures |Subscripts(lo, st, n)[k]| == |lo|
    ensures m * (ElementIndex(Subscripts(lo, st, n)[k], alo, extent) - ElementIndex(lo, alo, extent))
         == Section(Steps(st, extent, m), n)[k]
  {
    LoopLengths(lo, st, n, extent, m, k);
    if lo != [] {
      ProductStart(n);
      var q, r := Split(k, n[0], Product(n[1..]));
      LoopIsSection(lo[1..], st[1..], n[1..], alo[1..], extent[1..], m * extent[0], q);
      LoopSubscript(lo, st, n, k, q, r);
      LoopOffset(st, n, extent, m, k, q, r);
      var t := Subscripts(lo[1..], st[1..], n[1..])[q];
      IndexCons(lo[0] + r * st[0], t, alo, extent);
      IndexCons(lo[0], lo[1..], alo, extent);
      assert lo == [lo[0]] + lo[1..];
      assert Steps(st, extent, m)[0] == m * st[0];
      hide Subscripts, Section, ElementIndex, Steps, Product, Start;
      LoopStep(m, r, st[0], extent[0],
        ElementIndex(t, alo[1..], extent[1..]), ElementIndex(lo[1..], alo[1..], extent[1..]));
    }
  }

  lemma LoopSubscript(lo: seq<int>, st: seq<int>, n: seq<nat>, k: nat, q: nat, r: nat)
    requires |lo| == |st| == |n| > 0 && k == Start(q, n[0]) + r && r < n[0]
    requires q < |Subscripts(lo[1..], st[1..], n[1..])|
    ensures k < |Subscripts(lo, st, n)|
    ensures Subscripts(lo, st, n)[k] == [lo[0] + r * st[0]] + Subscripts(lo[1..], st[1..], n[1..])[q]
  {
    hide Inner, Start;
    InnerAt(lo[0], st[0], n[0], Subscripts(lo[1..], st[1..], n[1..]), k, q, r);
  }

  lemma LoopOffset(st: seq<int>, n: seq<nat>, extent: seq<nat>, m: nat, k: nat, q: nat, r: nat)
    requires |st| == |n| == |extent| > 0 && k == Start(q, n[0]) + r && r < n[0]
    requires |Steps(st, extent, m)| == |n| && |Steps(st[1..], extent[1..], m * extent[0])| == |n| - 1
    requires q < |Section(Steps(st[1..], extent[1..], m * extent[0]), n[1..])|
    ensures k < |Section(Steps(st, extent, m), n)|
    ensures Section(Steps(st, extent, m), n)[k]
         == Section(Steps(st[1..], extent[1..], m * extent[0]), n[1..])[q] + r * Steps(st, extent, m)[0]
  {
    hide Section, Start, Steps;
    var s := Steps(st, extent, m);
    StepsTail(st, extent, m);
    SectionPlace(s, n, k, q, r);
  }

  lemma StepsTail(st: seq<int>, extent: seq<nat>, m: nat)
    requires |st| == |extent| > 0
    ensures |Steps(st, extent, m)| > 0 && Steps(st, extent, m)[1..] == Steps(st[1..], extent[1..], m * extent[0])
  {
  }

  lemma IndexCons(i: int, t: seq<int>, alo: seq<int>, extent: seq<nat>)
    requires |t| + 1 == |alo| == |extent|
    ensures ElementIndex([i] + t, alo, extent) == (i - alo[0]) + extent[0] * ElementIndex(t, alo[1..], extent[1..])
  {
    assert ([i] + t)[1..] == t;
  }

  lemma LoopStep(m: int, r: int, s: int, e: int, a: int, b: int)
    ensures m * ((r * s + e * a) - e * b) == (m * e) * (a - b) + r * (m * s)
  {
  }

  // ---------- ARMCI_Put_farrays ----------

  /** The number of elements in lo:hi:st, as the code computes it. */
  function Trips(lo: int, hi: int, st: int): (n: nat)
    requires lo <= hi && 1 <= st
    ensures 1 <= n && lo + (n - 1) * st <= hi < lo + n * st
  {
    if st > 1 then
      TripsBound(hi - lo, st);
      (hi - lo + st) / st
    else hi - lo + 1
  }

  lemma TripsBound(d: nat, st: nat)
    requires 1 < st
    ensures var n := (d + st) / st; 1 <= n && (n - 1) * st <= d < n * st
  {
    var n, r := (d + st) / st, (d + st) % st;
    assert d + st == n * st + r;
    NextMultiple(n - 1, st);
    MulBound(n, st);
  }

  /** The slice is a section of the array: steps are positive, bounds in order and inside the array. */
  predicate SectionOf(s: Slice, a: ArrayDesc) {
    && |s.lo| == |s.hi| == |s.stride| == |a.lo| == |a.extent|
    && forall i :: 0 <= i < |s.lo| ==> 1 <= s.stride[i] && a.lo[i] <= s.lo[i] <= s.hi[i] < a.lo[i] + a.extent[i]
  }

  predicate Ordered(s: Slice) {
    |s.lo| == |s.hi| == |s.stride| && forall i :: 0 <= i < |s.lo| ==> 1 <= s.stride[i] && s.lo[i] <= s.hi[i]
  }

  function Counts(s: Slice): (n: seq<nat>)
    requires Ordered(s)
    ensures |n| == |s.lo| && AllPositive(n)
  {
    seq(|s.lo|, i requires 0 <= i < |s.lo| => Trips(s.lo[i], s.hi[i], s.stride[i]))
  }

  /** What is handed to the strided put: where source and destination start, their strides, and the common counts. */
  datatype PutDesc = PutDesc(srcOff: int, dstOff: int, srcStride: seq<int>, dstStride: seq<int>, count: seq<nat>)

  /** The offsets of all bytes that a strided descriptor moves, in order. */
  function ByteOffsets(stride: seq<int>, count: seq<nat>): seq<int>
    requires |count| == |stride| + 1
  {
    Expand(Section(stride, count[1..]), 1, count[0])
  }

  /** The byte strides of the section, as Steps, with one level for every dimension. */
  function SectionSteps(s: Slice, a: ArrayDesc): seq<int>
    requires |s.stride| == |a.extent|
  {
    Steps(s.stride, a.extent, a.elemsize)
  }

  /** The offsets of all bytes of the section's elements, in the order of the plain nested loop. */
  function ElementBytes(s: Slice, a: ArrayDesc): seq<int>
    requires Ordered(s) && |s.stride| == |a.extent|
  {
    StepsLength(s.stride, a.extent, a.elemsize);
    Expand(Section(SectionSteps(s, a), Counts(s)), 1, a.elemsize)
  }

  /** The loop that counts a slice's elements, and looks whether all strides, and the first one, are 1. */
  method SliceCounts(s: Slice, count: array<nat>) returns (unitStride: bool, firstStrideEq1: bool)
    requires Ordered(s) && |s.lo| <= count.Length
    modifies count
    ensures count[..|s.lo|] == Counts(s)
    ensures unitStride <==> forall i :: 0 <= i < |s.lo| ==> s.stride[i] == 1
    ensures firstStrideEq1 <==> (|s.lo| > 0 ==> s.stride[0] == 1)
  {
    firstStrideEq1, unitStride := true, true;
    var i := 0;
    while i < |s.lo|
      invariant 0 <= i <= |s.lo| && count[..i] == Counts(s)[..i]
      invariant unitStride <==> forall j :: 0 <= j < i ==> s.stride[j] == 1
      invariant firstStrideEq1 <==> (i > 0 ==> s.stride[0] == 1)
    {
      if s.stride[i] > 1 {
        if i == 0 {
          firstStrideEq1 := false;
        }
        unitStride := false;
      }
      count[i] := Trips(s.lo[i], s.hi[i], s.stride[i]);
      i := i + 1;
    }
    assert Counts(s)[..i] == Counts(s);
  }

  /** Shifts the counts of n dimensions up by one, and makes an element the innermost level. */
  method ShiftCounts(count: array<nat>, n: nat, elemsize: nat)
    requires n < count.Length
    modifies count
    ensures count[..n + 1] == [elemsize] + old(count[..n])
  {
    var i := n;
    while i > 0
      invariant 0 <= i <= n
      invariant forall j :: 0 <= j <= i ==> count[j] == old(count[j])
      invariant forall j :: i < j <= n ==> count[j] == old(count[j - 1])
    {
      count[i] := count[i - 1];
      i := i - 1;
    }
    count[0] := elemsize;
  }

  /** The array's strides from the second dimension on. */
  method PlainStrides(out: array<int>, strides: seq<int>, n: nat)
    requires n <= out.Length && n + 1 <= |strides|
    modifies out
    ensures forall j :: 0 <= j < n ==> out[j] == strides[j + 1]
  {
    var i := 0;
    while i < n
      invariant 0 <= i <= n && forall j :: 0 <= j < i ==> out[j] == strides[j + 1]
    {
      out[i] := strides[i + 1];
      i := i + 1;
    }
  }

  /** The array's strides times the section's, from dimension skip on. */
  method ScaledStrides(out: array<int>, strides: seq<int>, steps: seq<int>, skip: nat, n: nat)
    requires n <= out.Length && n + skip <= |strides| == |steps|
    modifies out
    ensures forall j :: 0 <= j < n ==> out[j] == strides[j + skip] * steps[j + skip]
  {
    var i := 0;
    while i < n
      invariant 0 <= i <= n && forall j :: 0 <= j < i ==> out[j] == strides[j + skip] * steps[j + skip]
    {
      out[i] := strides[i + skip] * steps[i + skip];
      i := i + 1;
    }
  }

  lemma LaidOutSteps(s: Slice, a: ArrayDesc, i: nat)
    requires LaidOut(a) && SectionOf(s, a) && i < |a.stride|
    ensures |SectionSteps(s, a)| == |a.stride| && SectionSteps(s, a)[i] == a.stride[i] * s.stride[i]
  {
    StepsAt(s.stride, a.extent, a.elemsize, i);
  }

  /** A descriptor with one level for every dimension moves the section's bytes. */
  lemma FullLevels(s: Slice, a: ArrayDesc, stride: seq<int>, count: seq<nat>)
    requires LaidOut(a) && SectionOf(s, a) && Ordered(s) && |stride| == |a.stride|
    requires forall i :: 0 <= i < |stride| ==> stride[i] == a.stride[i] * s.stride[i]
    requires count == [a.elemsize] + Counts(s)
    ensures |count| == |stride| + 1 && stride == SectionSteps(s, a) && ByteOffsets(stride, count) == ElementBytes(s, a)
  {
    hide LaidOut, SectionOf, Section, Expand, Counts;
    Lengths(s, a);
    forall i | 0 <= i < |stride|
      ensures |SectionSteps(s, a)| == |a.stride| && stride[i] == SectionSteps(s, a)[i]
    {
      LaidOutSteps(s, a, i);
    }
    LaidOutSteps(s, a, 0);
    assert stride == SectionSteps(s, a);
    assert count[1..] == Counts(s);
  }

  lemma Lengths(s: Slice, a: ArrayDesc)
    requires LaidOut(a) && SectionOf(s, a)
    ensures |a.stride| == |a.extent| == |a.lo| == |s.lo| == |s.stride| && Ordered(s)
    ensures 1 <= |a.lo| <= MAXDIM && 0 < a.elemsize
  {
  }

  /** If the first stride is 1, the first dimension can be merged with the bytes of an element. */
  lemma MergedLevel(s: Slice, a: ArrayDesc, stride: seq<int>, count: seq<nat>)
    requires LaidOut(a) && SectionOf(s, a) && Ordered(s) && s.stride[0] == 1 && |stride| == |a.stride| - 1
    requires forall i :: 0 <= i < |stride| ==> stride[i] == a.stride[i + 1] * s.stride[i + 1]
    requires count == Counts(s)[0 := Counts(s)[0] * a.elemsize]
    ensures |count| == |stride| + 1 && stride == SectionSteps(s, a)[1..]
    ensures ByteOffsets(stride, count) == ElementBytes(s, a)
  {
    hide Section, Expand, Counts, LaidOut, SectionOf;
    Lengths(s, a);
    var full := SectionSteps(s, a);
    forall i | 0 <= i < |stride|
      ensures |full| == |a.stride| && stride[i] == full[i + 1]
    {
      LaidOutSteps(s, a, i + 1);
    }
    LaidOutSteps(s, a, 0);
    assert stride == full[1..];
    FirstStep(s, a);
    var n := Counts(s);
    assert full == [1 * a.elemsize] + stride && n == [n[0]] + n[1..] && count[1..] == n[1..];
    SectionCons(a.elemsize, n[0], stride, n[1..]);
    AllAt(n, 0);
    ExpandTwice(Section(stride, n[1..]), 1, a.elemsize, n[0]);
  }

  lemma AllAt(n: seq<nat>, i: nat)
    requires AllPositive(n) && i < |n|
    ensures 0 < n[i]
  {
  }

  lemma FirstStep(s: Slice, a: ArrayDesc)
    requires LaidOut(a) && SectionOf(s, a) && s.stride[0] == 1
    ensures |SectionSteps(s, a)| > 0 && SectionSteps(s, a)[0] == a.elemsize
  {
  }

  /** The descriptor moves the bytes of the source section to the bytes of the destination section, in loop order. */
  predicate Describes(d: PutDesc, src: Slice, aSrc: ArrayDesc, dst: Slice, aDst: ArrayDesc)
    requires LaidOut(aSrc) && SectionOf(src, aSrc) && LaidOut(aDst) && SectionOf(dst, aDst)
  {
    && d.srcOff == aSrc.elemsize * ElementIndex(src.lo, aSrc.lo, aSrc.extent)
    && d.dstOff == aDst.elemsize * ElementIndex(dst.lo, aDst.lo, aDst.extent)
    && |d.count| == |d.srcStride| + 1 == |d.dstStride| + 1 && |d.srcStride| <= MAXDIM
    && ByteOffsets(d.srcStride, d.count) == ElementBytes(src, aSrc)
    && ByteOffsets(d.dstStride, d.count) == ElementBytes(dst, aDst)
  }

  /**
   * Which levels a descriptor has: one per dimension, or one less with the first dimension merged into the segments.
   */
  predicate Level(d: PutDesc, src: Slice, aSrc: ArrayDesc, dst: Slice, aDst: ArrayDesc, merged: bool)
    requires LaidOut(aSrc) && SectionOf(src, aSrc) && LaidOut(aDst) && SectionOf(dst, aDst)
  {
    if merged then
      && src.stride[0] == 1 && dst.stride[0] == 1
      && d.srcStride == SectionSteps(src, aSrc)[1..] && d.dstStride == SectionSteps(dst, aDst)[1..]
      && d.count == Counts(src)[0 := Counts(src)[0] * aSrc.elemsize]
    else
      && d.srcStride == SectionSteps(src, aSrc) && d.dstStride == SectionSteps(dst, aDst)
      && d.count == [aSrc.elemsize] + Counts(src)
  }

  /** The comparison of the counts of the two sections. */
  method SameCounts(a: array<nat>, b: array<nat>, rank: nat) returns (same: bool)
    requires rank <= a.Length && rank <= b.Length
    ensures same <==> a[..rank] == b[..rank]
  {
    var i := 0;
    while i < rank
      invariant 0 <= i <= rank && a[..i] == b[..i]
    {
      if b[i] != a[i] {
        assert a[..rank][i] != b[..rank][i];
        return false;
      }
      i := i + 1;
    }
    same := true;
  }

  /** The strides when the first dimension is merged: plain if the section's strides are all 1, scaled otherwise. */
  method MergedStrides(s: Slice, a: ArrayDesc, unit: bool, out: array<int>)
    requires LaidOut(a) && SectionOf(s, a) && out.Length == MAXDIM
    requires unit ==> forall i :: 0 <= i < |s.stride| ==> s.stride[i] == 1
    modifies out
    ensures forall i :: 0 <= i < |a.stride| - 1 ==> out[i] == a.stride[i + 1] * s.stride[i + 1]
  {
    if unit {
      PlainStrides(out, a.stride, |a.stride| - 1);
      forall i | 0 <= i < |a.stride| - 1
        ensures out[i] == a.stride[i + 1] * s.stride[i + 1]
      {
        assert s.stride[i + 1] == 1;
      }
    } else {
      ScaledStrides(out, a.stride, s.stride, 1, |a.stride| - 1);
    }
  }

  /** The first two branches of ARMCI_Put_farrays: the first strides are 1. */
  method MergedDesc(src: Slice, aSrc: ArrayDesc, dst: Slice, aDst: ArrayDesc, srcOff: int, dstOff: int, unit: bool,
      count: array<nat>)
    returns (d: PutDesc)
    requires LaidOut(aSrc) && SectionOf(src, aSrc) && LaidOut(aDst) && SectionOf(dst, aDst)
    requires |aSrc.lo| == |aDst.lo| && aSrc.elemsize == aDst.elemsize && Counts(src) == Counts(dst)
    requires srcOff == aSrc.elemsize * ElementIndex(src.lo, aSrc.lo, aSrc.extent)
    requires dstOff == aDst.elemsize * ElementIndex(dst.lo, aDst.lo, aDst.extent)
    requires unit ==> forall i :: 0 <= i < |src.stride| ==> src.stride[i] == 1 && dst.stride[i] == 1
    requires src.stride[0] == 1 && dst.stride[0] == 1 && count.Length == MAXDIM + 1 && count[..|aSrc.lo|] == Counts(src)
    modifies count
    ensures Describes(d, src, aSrc, dst, aDst) && Level(d, src, aSrc, dst, aDst, true)
  {
    hide LaidOut, SectionOf, Counts, ElementBytes, ByteOffsets, SectionSteps, ElementIndex;
    Lengths(src, aSrc);
    Lengths(dst, aDst);
    var rank := |aDst.lo|;
    var srcStride, dstStride := new int[MAXDIM], new int[MAXDIM];
    MergedStrides(src, aSrc, unit, srcStride);
    MergedStrides(dst, aDst, unit, dstStride);
    ghost var n := count[..rank];
    count[0] := count[0] * aSrc.elemsize;
    assert count[..rank] == n[0 := n[0] * aSrc.elemsize];
    MergedLevel(src, aSrc, srcStride[..rank - 1], count[..rank]);
    MergedLevel(dst, aDst, dstStride[..rank - 1], count[..rank]);
    d := PutDesc(srcOff, dstOff, srcStride[..rank - 1], dstStride[..rank - 1], count[..rank]);
  }

  /** The third branch of ARMCI_Put_farrays: a level for every dimension. */
  method FullDesc(src: Slice, aSrc: ArrayDesc, dst: Slice, aDst: ArrayDesc, srcOff: int, dstOff: int, count: array<nat>)
    returns (d: PutDesc)
    requires LaidOut(aSrc) && SectionOf(src, aSrc) && LaidOut(aDst) && SectionOf(dst, aDst)
    requires |aSrc.lo| == |aDst.lo| && aSrc.elemsize == aDst.elemsize && Counts(src) == Counts(dst)
    requires srcOff == aSrc.elemsize * ElementIndex(src.lo, aSrc.lo, aSrc.extent)
    requires dstOff == aDst.elemsize * ElementIndex(dst.lo, aDst.lo, aDst.extent)
    requires count.Length == MAXDIM + 1 && count[..|aSrc.lo|] == Counts(src)
    modifies count
    ensures Describes(d, src, aSrc, dst, aDst) && Level(d, src, aSrc, dst, aDst, false)
  {
    hide LaidOut, SectionOf, Counts, ElementBytes, ByteOffsets, SectionSteps, ElementIndex;
    Lengths(src, aSrc);
    Lengths(dst, aDst);
    var rank := |aDst.lo|;
    var srcStride, dstStride := new int[MAXDIM], new int[MAXDIM];
    ShiftCounts(count, rank, aSrc.elemsize);
    ScaledStrides(srcStride, aSrc.stride, src.stride, 0, rank);
    ScaledStrides(dstStride, aDst.stride, dst.stride, 0, rank);
    FullLevels(src, aSrc, srcStride[..rank], count[..rank + 1]);
    FullLevels(dst, aDst, dstStride[..rank], count[..rank + 1]);
    d := PutDesc(srcOff, dstOff, srcStride[..rank], dstStride[..rank], count[..rank + 1]);
  }

  /**
   * ARMCI_Put_farrays up to its call of the strided put: whichever branch is taken, the descriptor denotes the
   * bytes of the two sections in the order of the plain nested loop. It fails exactly if the counts differ.
   */
  method PutFarrays(aSrc: ArrayDesc, src: Slice, aDst: ArrayDesc, dst: Slice) returns (r: Option<PutDesc>)
    requires LaidOut(aSrc) && SectionOf(src, aSrc) && LaidOut(aDst) && SectionOf(dst, aDst)
    requires |aSrc.lo| == |aDst.lo| && aSrc.elemsize == aDst.elemsize
    ensures r.None? <==> Counts(src) != Counts(dst)
    ensures r.Some? ==> Describes(r.value, src, aSrc, dst, aDst)
    ensures r.Some? ==> Level(r.value, src, aSrc, dst, aDst, src.stride[0] == 1 && dst.stride[0] == 1)
  {
    hide LaidOut, SectionOf, Counts, ElementIndex, Describes, Level;
    Lengths(src, aSrc);
    Lengths(dst, aDst);
    var rank := |aDst.lo|;
    var srcIndex := Index(src.lo, aSrc.lo, aSrc.extent);
    var dstIndex := Index(dst.lo, aDst.lo, aDst.extent);
    var srcOff, dstOff := aSrc.elemsize * srcIndex, aDst.elemsize * dstIndex;
    var srcCount, dstCount := new nat[MAXDIM + 1], new nat[MAXDIM + 1];
    var srcUnit, srcFirst := SliceCounts(src, srcCount);
    var dstUnit, dstFirst := SliceCounts(dst, dstCount);
    var same := SameCounts(srcCount, dstCount, rank);
    if !same {
      return None;
    }
    var d;
    if srcUnit && dstUnit {
      d := MergedDesc(src, aSrc, dst, aDst, srcOff, dstOff, true, srcCount);
    } else if srcFirst && dstFirst {
      d := MergedDesc(src, aSrc, dst, aDst, srcOff, dstOff, false, srcCount);
    } else {
      d := FullDesc(src, aSrc, dst, aDst, srcOff, dstOff, srcCount);
    }
    r := Some(d);
  }

  // ---------- the iterator's assertions ----------

  /** All steps of the section in dimension i together are not longer than one step in dimension i + 1. */
  predicate DimFits(s: Slice, a: ArrayDesc, i: nat)
    requires LaidOut(a) && SectionOf(s, a) && i + 1 < |s.lo|
  {
    s.stride[i] * Trips(s.lo[i], s.hi[i], s.stride[i]) <= a.extent[i] * s.stride[i + 1]
  }

  /** What a caller can check beforehand, in every dimension but the last. */
  predicate StepsFit(s: Slice, a: ArrayDesc)
    requires LaidOut(a) && SectionOf(s, a)
  {
    forall i :: 0 <= i < |s.lo| - 1 ==> DimFits(s, a, i)
  }

  lemma CancelCommon(p: nat, a: int, b: int)
    requires 0 < p
    ensures p * a <= p * b <==> a <= b
  {
    if a <= b {
      assert p * b == p * a + p * (b - a);
    } else {
      assert p * a == p * b + p * (a - b);
      MulPositive(p, a - b);
    }
  }

  lemma ExtentsPositive(s: Slice, a: ArrayDesc, i: nat)
    requires LaidOut(a) && SectionOf(s, a) && i <= |a.extent|
    ensures 0 < a.elemsize * Product(a.extent[..i])
  {
    assert AllPositive(a.extent[..i]);
    ProductPositive(a.extent[..i]);
    MulPositive(a.elemsize, Product(a.extent[..i]));
  }

  /** The assertion about levels i and i + 1, for the section's own levels. */
  lemma StepPair(s: Slice, a: ArrayDesc, i: nat)
    requires LaidOut(a) && SectionOf(s, a) && i + 1 < |a.stride|
    ensures |SectionSteps(s, a)| == |a.stride| && Ordered(s)
    ensures SectionSteps(s, a)[i + 1] >= SectionSteps(s, a)[i] * Counts(s)[i]
      <==> DimFits(s, a, i)
  {
    Lengths(s, a);
    LaidOutSteps(s, a, i);
    LaidOutSteps(s, a, i + 1);
    NextProduct(a.extent, i);
    ExtentsPositive(s, a, i);
    var p, e, n := a.elemsize * Product(a.extent[..i]), a.extent[i], Counts(s)[i];
    assert a.stride[i] == p && a.stride[i + 1] == p * e by {
      MulThree(a.elemsize, Product(a.extent[..i]), e);
    }
    hide LaidOut, SectionOf, Product, SectionSteps, Counts, Trips;
    PairArithmetic(p, e, s.stride[i], s.stride[i + 1], n);
  }

  lemma PairArithmetic(p: nat, e: nat, s0: int, s1: int, n: nat)
    requires 0 < p
    ensures (p * e) * s1 >= (p * s0) * n <==> s0 * n <= e * s1
  {
    CancelCommon(p, s0 * n, e * s1);
    assert (p * e) * s1 == p * (e * s1) && (p * s0) * n == p * (s0 * n);
  }

  lemma FullStepped(s: Slice, a: ArrayDesc, stride: seq<int>, count: seq<nat>)
    requires LaidOut(a) && SectionOf(s, a) && Ordered(s)
    requires stride == SectionSteps(s, a) && count == [a.elemsize] + Counts(s)
    ensures Acceptable(stride, count) <==> StepsFit(s, a)
  {
    hide LaidOut, SectionOf, SectionSteps, Counts, Product;
    Lengths(s, a);
    FirstLevel(s, a);
    assert count[1..] == Counts(s);
    ProductPositive(Counts(s));
    forall i | 0 <= i < |stride| - 1
      ensures FitsAbove(stride, Counts(s), i) <==> DimFits(s, a, i)
    {
      StepPair(s, a, i);
    }
    FullPairs(stride, Counts(s), count, a.elemsize);
  }

  /** Level i, all its steps together, is no longer than one step of the level above it. */
  predicate FitsAbove(full: seq<int>, n: seq<nat>, i: nat)
    requires i + 1 < |full| && i < |n|
  {
    full[i + 1] >= full[i] * n[i]
  }

  lemma FullPairs(full: seq<int>, n: seq<nat>, count: seq<nat>, es: nat)
    requires |full| == |n| > 0 && full[0] >= es && count == [es] + n
    ensures Stepped(full, count) <==> forall i :: 0 <= i < |full| - 1 ==> FitsAbove(full, n, i)
  {
    if Stepped(full, count) {
      forall i | 0 <= i < |full| - 1
        ensures FitsAbove(full, n, i)
      {
        assert full[i + 1] >= full[i] * count[i + 1];
      }
    }
    if forall i :: 0 <= i < |full| - 1 ==> FitsAbove(full, n, i) {
      forall i | 1 <= i < |full|
        ensures full[i] >= full[i - 1] * count[i]
      {
        assert FitsAbove(full, n, i - 1);
      }
    }
  }

  lemma FirstLevel(s: Slice, a: ArrayDesc)
    requires LaidOut(a) && SectionOf(s, a)
    ensures |SectionSteps(s, a)| == |a.stride| && SectionSteps(s, a)[0] == a.elemsize * s.stride[0] >= a.elemsize
  {
    LaidOutSteps(s, a, 0);
    assert Product(a.extent[..0]) == 1;
    MulMonotone(1, s.stride[0], a.elemsize);
  }

  lemma MergedStepped(s: Slice, a: ArrayDesc, stride: seq<int>, count: seq<nat>)
    requires LaidOut(a) && SectionOf(s, a) && Ordered(s) && s.stride[0] == 1
    requires |SectionSteps(s, a)| > 0 && |Counts(s)| > 0
    requires stride == SectionSteps(s, a)[1..] && count == Counts(s)[0 := Counts(s)[0] * a.elemsize]
    ensures Acceptable(stride, count) <==> StepsFit(s, a)
  {
    hide LaidOut, SectionOf, SectionSteps, Counts, Product;
    Lengths(s, a);
    FirstLevel(s, a);
    var full, n := SectionSteps(s, a), Counts(s);
    assert count[1..] == n[1..];
    assert AllPositive(n[1..]);
    ProductPositive(n[1..]);
    forall i | 0 <= i < |full| - 1
      ensures FitsAbove(full, n, i) <==> DimFits(s, a, i)
    {
      StepPair(s, a, i);
    }
    MergedPairs(full, n, stride, count, a.elemsize);
  }

  /** The assertions about the merged levels are those about the dimensions. */
  lemma MergedPairs(full: seq<int>, n: seq<nat>, stride: seq<int>, count: seq<nat>, es: nat)
    requires |full| == |n| > 0 && full[0] == es && stride == full[1..] && count == n[0 := n[0] * es]
    ensures Stepped(stride, count) <==> forall i :: 0 <= i < |full| - 1 ==> FitsAbove(full, n, i)
  {
    if Stepped(stride, count) {
      forall i | 0 <= i < |full| - 1
        ensures FitsAbove(full, n, i)
      {
        if i > 0 {
          assert stride[i] >= stride[i - 1] * count[i];
        }
      }
    }
    if forall i :: 0 <= i < |full| - 1 ==> FitsAbove(full, n, i) {
      forall i | 1 <= i < |stride|
        ensures stride[i] >= stride[i - 1] * count[i]
      {
        assert FitsAbove(full, n, i);
      }
      assert stride != [] ==> FitsAbove(full, n, 0);
    }
  }

  /** The iterator's assertions accept the descriptor exactly when the steps of both sections fit. */
  lemma AcceptedWhenStepsFit(d: PutDesc, src: Slice, aSrc: ArrayDesc, dst: Slice, aDst: ArrayDesc)
    requires LaidOut(aSrc) && SectionOf(src, aSrc) && LaidOut(aDst) && SectionOf(dst, aDst)
    requires |aSrc.lo| == |aDst.lo| && aSrc.elemsize == aDst.elemsize && Counts(src) == Counts(dst)
    requires Level(d, src, aSrc, dst, aDst, src.stride[0] == 1 && dst.stride[0] == 1)
    ensures Acceptable(d.srcStride, d.count) <==> StepsFit(src, aSrc)
    ensures Acceptable(d.dstStride, d.count) <==> StepsFit(dst, aDst)
  {
    hide LaidOut, SectionOf, Acceptable, StepsFit, SectionSteps, Counts;
    Lengths(src, aSrc);
    Lengths(dst, aDst);
    FirstLevel(src, aSrc);
    FirstLevel(dst, aDst);
    if src.stride[0] == 1 && dst.stride[0] == 1 {
      MergedStepped(src, aSrc, d.srcStride, d.count);
      MergedStepped(dst, aDst, d.dstStride, d.count);
    } else {
      FullStepped(src, aSrc, d.srcStride, d.count);
      FullStepped(dst, aDst, d.dstStride, d.count);
    }
  }

  /** Elements 0:4:3 of rows of five: the iterator does not accept the section's descriptor. */
  lemma SomeSectionsAreNotAccepted() returns (s: Slice, a: ArrayDesc, d: PutDesc)
    ensures LaidOut(a) && SectionOf(s, a) && Ordered(s)
    ensures Level(d, s, a, s, a, s.stride[0] == 1) && !Acceptable(d.srcStride, d.count)
  {
    a := ArrayDesc([0, 0], [4, 1], [5, 2], [8, 40], 8);
    s := Slice([0, 0], [4, 1], [3, 1]);
    assert a.extent[..0] == [] && a.extent[..1] == [5] && [5][1..] == [];
    assert Product(a.extent[..1]) == 5;
    assert Trips(0, 4, 3) == 2;
    assert !DimFits(s, a, 0);
    hide LaidOut, SectionOf;
    d := PutDesc(0, 0, SectionSteps(s, a), SectionSteps(s, a), [a.elemsize] + Counts(s));
    AcceptedWhenStepsFit(d, s, a, s, a);
  }

  // ---------- elements land where they should ----------

  /** A section stays inside its array, so no level steps back into what the levels inside it reach. */
  lemma {:induction false} StepsRoomy(st: seq<int>, n: seq<nat>, extent: seq<nat>, m: nat, seg: nat)
    requires |st| == |n| == |extent| && AllPositive(n) && seg <= m
    requires forall i :: 0 <= i < |st| ==> 1 <= st[i] && (n[i] - 1) * st[i] < extent[i]
    ensures |Steps(st, extent, m)| == |n| && Roomy(Steps(st, extent, m), n, seg)
  {
    StepsLength(st, extent, m);
    if st != [] {
      RoomyStep(m, st[0], n[0], extent[0], seg);
      StepsRoomy(st[1..], n[1..], extent[1..], m * extent[0], seg + (n[0] - 1) * (m * st[0]));
    }
  }

  lemma RoomyStep(m: nat, s: int, n: nat, e: nat, seg: nat)
    requires 1 <= s && 1 <= n && (n - 1) * s < e && seg <= m
    ensures seg <= m * s && 0 <= (n - 1) * (m * s) && seg + (n - 1) * (m * s) <= m * e
  {
    MulMonotone(1, s, m);
    var k := (n - 1) * s;
    MulMonotone(0, n - 1, s);
    MulMonotone(k + 1, e, m);
    assert (n - 1) * (m * s) == k * m && (k + 1) * m == k * m + m;
  }

  lemma CountsFit(s: Slice, a: ArrayDesc)
    requires LaidOut(a) && SectionOf(s, a) && Ordered(s)
    ensures forall i :: 0 <= i < |s.stride| ==> 1 <= s.stride[i] && (Counts(s)[i] - 1) * s.stride[i] < a.extent[i]
  {
  }

  /** The segments of the descriptor do not overlap, whichever branch made it. */
  lemma DescSpaced(s: Slice, a: ArrayDesc, stride: seq<int>, count: seq<nat>, merged: bool)
    requires LaidOut(a) && SectionOf(s, a) && Ordered(s) && |SectionSteps(s, a)| > 0
    requires if merged then s.stride[0] ==
      1 && stride == SectionSteps(s, a)[1..] && count == Counts(s)[0 := Counts(s)[0] * a.elemsize]
      else stride == SectionSteps(s, a) && count == [a.elemsize] + Counts(s)
    ensures |count| == |stride| + 1 && Spaced(Section(stride, count[1..]), count[0])
    ensures |Section(stride, count[1..])| == Product(count[1..])
  {
    hide LaidOut, SectionOf, Counts, Product, Section, Spaced, Roomy, Trips;
    Lengths(s, a);
    CountsFit(s, a);
    var st, n, e := s.stride, Counts(s), a.extent;
    if merged {
      assert n[0] <= e[0];
      MulMonotone(n[0], e[0], a.elemsize);
      assert AllPositive(n[1..]) && count[1..] == n[1..];
      StepsTail(st, e, a.elemsize);
      StepsRoomy(st[1..], n[1..], e[1..], a.elemsize * e[0], count[0]);
    } else {
      assert count[1..] == n;
      StepsRoomy(st, n, e, a.elemsize, a.elemsize);
    }
    SectionSpaced(stride, count[1..], count[0]);
    SectionAt(stride, count[1..]);
  }

  /**
   * A strided transfer byte by byte: the i-th byte of the source descriptor arrives at the i-th of the destination's.
   */
  lemma TransferByte(src: seq<Byte>, from: int, sl: seq<int>, dst: seq<Byte>, to: int, dl: seq<int>, seg: nat, i: nat)
    requires |sl| == |dl| && Inside(src, from, sl, seg) && Inside(dst, to, dl, seg) && Spaced(dl, seg)
    requires 0 < seg && i < |Expand(sl, 1, seg)|
    ensures |Expand(sl, 1, seg)| == |Expand(dl, 1, seg)|
    ensures 0 <= from + Expand(sl, 1, seg)[i] < |src| && 0 <= to + Expand(dl, 1, seg)[i] < |dst|
    ensures Transfer(src, from, sl, dst, to, dl, seg)[to + Expand(dl, 1, seg)[i]] == src[from + Expand(sl, 1, seg)[i]]
  {
    hide Expand, Start, Spaced, Pack, Unpack, Chunk;
    ExpandLength(sl, 1, seg);
    ExpandLength(dl, 1, seg);
    var p, j := Split(i, seg, |sl|);
    ExpandAt(sl, 1, seg, i, p, j);
    ExpandAt(dl, 1, seg, i, p, j);
    PackChunk(src, from, sl, seg, p);
    UnpackSegment(dst, to, dl, seg, Pack(src, from, sl, seg), p);
    var r := Transfer(src, from, sl, dst, to, dl, seg);
    assert Segment(r, to, dl[p], seg)[j] == Segment(src, from, sl[p], seg)[j];
  }

  /** A byte that the destination's descriptor does not name stays as it was. */
  lemma TransferElsewhere(src: seq<Byte>, from: int, sl: seq<int>, dst: seq<Byte>, to: int, dl: seq<int>, seg: nat,
      x: nat)
    requires |sl| == |dl| && Inside(src, from, sl, seg) && Inside(dst, to, dl, seg) && x < |dst|
    requires forall i :: 0 <= i < |Expand(dl, 1, seg)| ==> to + Expand(dl, 1, seg)[i] != x
    ensures Transfer(src, from, sl, dst, to, dl, seg)[x] == dst[x]
  {
    hide Expand, Start, Pack, Unpack;
    PackLength(src, from, sl, seg);
    forall p | 0 <= p < |dl|
      ensures !Hit(to, dl[p], seg, x)
    {
      if Hit(to, dl[p], seg, x) {
        var j := x - (to + dl[p]);
        ExpandAt(dl, 1, seg, Start(p, seg) + j, p, j);
      }
    }
    UnpackElsewhere(dst, to, dl, seg, Pack(src, from, sl, seg), x);
  }

  /** The subscripts are inside the array. */
  predicate InBounds(sub: seq<int>, lo: seq<int>, extent: seq<nat>) {
    && |sub| == |lo| == |extent|
    && forall i :: 0 <= i < |sub| ==> lo[i] <= sub[i] < lo[i] + extent[i]
  }

  lemma {:induction false} IndexBounded(sub: seq<int>, lo: seq<int>, extent: seq<nat>)
    requires InBounds(sub, lo, extent)
    ensures 0 <= ElementIndex(sub, lo, extent) < Product(extent)
  {
    if sub != [] {
      assert InBounds(sub[1..], lo[1..], extent[1..]);
      IndexBounded(sub[1..], lo[1..], extent[1..]);
      var e, x, p := extent[0], ElementIndex(sub[1..], lo[1..], extent[1..]), Product(extent[1..]);
      MulMonotone(x + 1, p, e);
      NextMultiple(x, e);
      assert e * x == x * e && e * p == p * e;
    }
  }

  /** In one dimension, n steps of st from lo stay between alo and alo + extent. */
  predicate StaysInside(lo: int, st: int, n: nat, alo: int, extent: nat) {
    1 <= st && alo <= lo && lo + (n - 1) * st < alo + extent
  }

  lemma {:induction false} SubscriptsInside(lo: seq<int>, st: seq<int>, n: seq<nat>, alo: seq<int>, extent: seq<nat>,
      k: nat)
    requires |lo| == |st| == |n| == |alo| == |extent| && AllPositive(n) && k < |Subscripts(lo, st, n)|
    requires forall i :: 0 <= i < |lo| ==> StaysInside(lo[i], st[i], n[i], alo[i], extent[i])
    ensures InBounds(Subscripts(lo, st, n)[k], alo, extent)
  {
    if lo != [] {
      hide Inner, Start, InBounds, StaysInside;
      var outer := Subscripts(lo[1..], st[1..], n[1..]);
      InnerLength(lo[0], st[0], n[0], outer);
      var q, r := Split(k, n[0], |outer|);
      SubscriptsInside(lo[1..], st[1..], n[1..], alo[1..], extent[1..], q);
      LoopSubscript(lo, st, n, k, q, r);
      StepInside(lo[0], r, n[0], st[0], alo[0], extent[0]);
      InBoundsCons(lo[0] + r * st[0], outer[q], alo, extent);
    }
  }

  lemma StepInside(lo: int, r: nat, n: nat, s: int, alo: int, extent: nat)
    requires r < n && StaysInside(lo, s, n, alo, extent)
    ensures alo <= lo + r * s < alo + extent
  {
    MulMonotone(0, r, s);
    MulMonotone(r, n - 1, s);
  }

  lemma InBoundsCons(x: int, t: seq<int>, lo: seq<int>, extent: seq<nat>)
    requires |lo| == |extent| > 0 && lo[0] <= x < lo[0] + extent[0] && InBounds(t, lo[1..], extent[1..])
    ensures InBounds([x] + t, lo, extent)
  {
  }

  /** The subscripts of the section's elements, in loop order. */
  function SectionSubscripts(s: Slice): seq<seq<int>>
    requires Ordered(s)
  {
    Subscripts(s.lo, s.stride, Counts(s))
  }

  /** Where element k of the section lies, in bytes from the start of the array. */
  function ElementOffset(s: Slice, a: ArrayDesc, k: nat): int
    requires LaidOut(a) && SectionOf(s, a) && Ordered(s) && k < Product(Counts(s))
  {
    SubscriptsShape(s.lo, s.stride, Counts(s));
    a.elemsize * ElementIndex(SectionSubscripts(s)[k], a.lo, a.extent)
  }

  function FirstOffset(s: Slice, a: ArrayDesc): int
    requires LaidOut(a) && SectionOf(s, a)
  {
    a.elemsize * ElementIndex(s.lo, a.lo, a.extent)
  }

  lemma StaysAll(s: Slice, a: ArrayDesc)
    requires LaidOut(a) && SectionOf(s, a) && Ordered(s)
    ensures |s.lo| == |s.stride| == |Counts(s)| == |a.lo| == |a.extent|
    ensures forall i :: 0 <= i < |s.lo| ==> StaysInside(s.lo[i], s.stride[i], Counts(s)[i], a.lo[i], a.extent[i])
  {
  }

  lemma ElementInside(s: Slice, a: ArrayDesc, k: nat)
    requires LaidOut(a) && SectionOf(s, a) && Ordered(s) && k < Product(Counts(s))
    ensures 0 <= ElementOffset(s, a, k) && ElementOffset(s, a, k) + a.elemsize <= a.elemsize * Product(a.extent)
  {
    hide Subscripts, ElementIndex, Product, Counts, StaysInside;
    StaysAll(s, a);
    SubscriptsShape(s.lo, s.stride, Counts(s));
    SubscriptsInside(s.lo, s.stride, Counts(s), a.lo, a.extent, k);
    IndexBounded(SectionSubscripts(s)[k], a.lo, a.extent);
    RoomFor(a.elemsize, ElementIndex(SectionSubscripts(s)[k], a.lo, a.extent), Product(a.extent));
  }

  lemma RoomFor(m: nat, x: nat, p: nat)
    requires x < p
    ensures 0 <= m * x && m * x + m <= m * p
  {
    MulMonotone(x + 1, p, m);
    assert (x + 1) * m == m * x + m && p * m == m * p;
  }

  /** Byte b of element k, as an entry of ElementBytes. */
  lemma ElementByte(s: Slice, a: ArrayDesc, k: nat, b: nat)
    requires LaidOut(a) && SectionOf(s, a) && Ordered(s) && k < Product(Counts(s)) && b < a.elemsize
    ensures Start(k, a.elemsize) + b < |ElementBytes(s, a)|
    ensures FirstOffset(s, a) + ElementBytes(s, a)[Start(k, a.elemsize) + b] == ElementOffset(s, a, k) + b
  {
    hide Subscripts, ElementIndex, Product, Section, Expand, Start, Counts, Steps;
    var n := Counts(s);
    LoopIsSection(s.lo, s.stride, n, a.lo, a.extent, a.elemsize, k);
    var l := Section(SectionSteps(s, a), n);
    ExpandAt(l, 1, a.elemsize, Start(k, a.elemsize) + b, k, b);
    Distribute(a.elemsize, ElementIndex(SectionSubscripts(s)[k], a.lo, a.extent), ElementIndex(s.lo, a.lo, a.extent));
  }

  lemma Distribute(m: int, x: int, y: int)
    ensures m * (x - y) == m * x - m * y
  {
  }

  /** Every entry of ElementBytes is a byte of some element. */
  lemma ElementOfByte(s: Slice, a: ArrayDesc, i: nat) returns (k: nat, b: nat)
    requires LaidOut(a) && SectionOf(s, a) && Ordered(s) && i < |ElementBytes(s, a)|
    ensures k < Product(Counts(s)) && b < a.elemsize && i == Start(k, a.elemsize) + b
  {
    hide Section, Expand, Start, Counts, Steps, Product;
    StepsLength(s.stride, a.extent, a.elemsize);
    SectionAt(SectionSteps(s, a), Counts(s));
    ExpandLength(Section(SectionSteps(s, a), Counts(s)), 1, a.elemsize);
    k, b := Split(i, a.elemsize, Product(Counts(s)));
  }

  lemma ByteInside(s: Slice, a: ArrayDesc, i: nat)
    requires LaidOut(a) && SectionOf(s, a) && Ordered(s) && i < |ElementBytes(s, a)|
    ensures 0 <= FirstOffset(s, a) + ElementBytes(s, a)[i] < a.elemsize * Product(a.extent)
  {
    hide *;
    var k, b := ElementOfByte(s, a, i);
    ElementByte(s, a, k, b);
    ElementInside(s, a, k);
  }

  /** The descriptor's segments lie in the memory that holds the array. */
  lemma DescInside(s: Slice, a: ArrayDesc, stride: seq<int>, count: seq<nat>, m: seq<Byte>, base: nat)
    requires LaidOut(a) && SectionOf(s, a) && Ordered(s) && base + a.elemsize * Product(a.extent) <= |m|
    requires |count| == |stride| + 1 && 0 < count[0] && ByteOffsets(stride, count) == ElementBytes(s, a)
    ensures Inside(m, base + FirstOffset(s, a), Section(stride, count[1..]), count[0])
  {
    hide LaidOut, SectionOf, ElementBytes, FirstOffset, Section, Expand, Start, Product, Ordered;
    var l, seg := Section(stride, count[1..]), count[0];
    forall p | 0 <= p < |l|
      ensures 0 <= base + FirstOffset(s, a) + l[p] && base + FirstOffset(s, a) + l[p] + seg <= |m|
    {
      ExpandAt(l, 1, seg, Start(p, seg), p, 0);
      ExpandAt(l, 1, seg, Start(p, seg) + (seg - 1), p, seg - 1);
      ByteInside(s, a, Start(p, seg));
      ByteInside(s, a, Start(p, seg) + (seg - 1));
    }
  }

  /** The bytes of element k of the section, in an array that starts at base in memory m. */
  function ElementAt(m: seq<Byte>, base: nat, s: Slice, a: ArrayDesc, k: nat): seq<Byte>
    requires LaidOut(a) && SectionOf(s, a) && Ordered(s) && k < Product(Counts(s))
  {
    Segment(m, base, ElementOffset(s, a, k), a.elemsize)
  }

  /** Byte x of memory belongs to element k of the section. */
  predicate InElement(base: nat, s: Slice, a: ArrayDesc, k: nat, x: int)
    requires LaidOut(a) && SectionOf(s, a) && Ordered(s) && k < Product(Counts(s))
  {
    Hit(base, ElementOffset(s, a, k), a.elemsize, x)
  }

  /** The facts about a descriptor of PutFarrays that the transfer needs. */
  lemma DescReady(d: PutDesc, aSrc: ArrayDesc, src: Slice, aDst: ArrayDesc, dst: Slice, sm: seq<Byte>, sb: nat,
      dm: seq<Byte>, db: nat)
    requires LaidOut(aSrc) && SectionOf(src, aSrc) && LaidOut(aDst) && SectionOf(dst, aDst)
    requires |aSrc.lo| == |aDst.lo| && aSrc.elemsize == aDst.elemsize && Counts(src) == Counts(dst)
    requires Describes(d, src, aSrc, dst, aDst)
    requires Level(d, src, aSrc, dst, aDst, src.stride[0] == 1 && dst.stride[0] == 1)
    requires sb + aSrc.elemsize * Product(aSrc.extent) <= |sm| && db + aDst.elemsize * Product(aDst.extent) <= |dm|
    ensures |d.count| == |d.srcStride| + 1 == |d.dstStride| + 1 && 0 < d.count[0]
    ensures d.srcOff == FirstOffset(src, aSrc) && d.dstOff == FirstOffset(dst, aDst)
    ensures Inside(sm, sb + d.srcOff, Section(d.srcStride, d.count[1..]), d.count[0])
    ensures Inside(dm, db + d.dstOff, Section(d.dstStride, d.count[1..]), d.count[0])
    ensures |Section(d.srcStride, d.count[1..])| == |Section(d.dstStride, d.count[1..])|
    ensures Spaced(Section(d.dstStride, d.count[1..]), d.count[0])
  {
    hide LaidOut, SectionOf, SectionSteps, Counts, Product, Section, Inside, Spaced, ElementBytes, ByteOffsets;
    hide ElementIndex;
    Lengths(src, aSrc);
    Lengths(dst, aDst);
    FirstLevel(src, aSrc);
    FirstLevel(dst, aDst);
    AllAt(Counts(src), 0);
    MulPositive(Counts(src)[0], aSrc.elemsize);
    DescInside(src, aSrc, d.srcStride, d.count, sm, sb);
    DescInside(dst, aDst, d.dstStride, d.count, dm, db);
    DescSpaced(src, aSrc, d.srcStride, d.count, src.stride[0] == 1 && dst.stride[0] == 1);
    DescSpaced(dst, aDst, d.dstStride, d.count, src.stride[0] == 1 && dst.stride[0] == 1);
  }

  /**
   * The strided put with the descriptor of ARMCI_Put_farrays: element k of the source section lands on element k of
   * the destination section.
   */
  lemma ElementLands(d: PutDesc, aSrc: ArrayDesc, src: Slice, aDst: ArrayDesc, dst: Slice,
      sm: seq<Byte>, sb: nat, dm: seq<Byte>, db: nat, r: seq<Byte>, k: nat)
    requires LaidOut(aSrc) && SectionOf(src, aSrc) && LaidOut(aDst) && SectionOf(dst, aDst) && Ordered(src)
    requires Ordered(dst)
    requires |aSrc.lo| == |aDst.lo| && aSrc.elemsize == aDst.elemsize && Counts(src) == Counts(dst)
    requires Describes(d, src, aSrc, dst, aDst)
    requires Level(d, src, aSrc, dst, aDst, src.stride[0] == 1 && dst.stride[0] == 1)
    requires sb + aSrc.elemsize * Product(aSrc.extent) <= |sm| && db + aDst.elemsize * Product(aDst.extent) <= |dm|
    requires Put(d, sm, sb, dm, db, r) && k < Product(Counts(src))
    ensures ElementAt(r, db, dst, aDst, k) == ElementAt(sm, sb, src, aSrc, k)
    ensures |ElementAt(r, db, dst, aDst, k)| == aDst.elemsize
  {
    hide LaidOut, SectionOf, Counts, Product, Describes, Level, Section, Inside, Spaced, ElementOffset;
    hide FirstOffset, Transfer, Start, Expand;
    DescReady(d, aSrc, src, aDst, dst, sm, sb, dm, db);
    DescribesBytes(d, aSrc, src, aDst, dst);
    ElementInside(src, aSrc, k);
    ElementInside(dst, aDst, k);
    var so, do := ElementOffset(src, aSrc, k), ElementOffset(dst, aDst, k);
    var sl, dl := Section(d.srcStride, d.count[1..]), Section(d.dstStride, d.count[1..]);
    var now, was := r[db + do..db + do + aSrc.elemsize], sm[sb + so..sb + so + aSrc.elemsize];
    forall b | 0 <= b < aSrc.elemsize
      ensures now[b] == was[b]
    {
      ElementByte(src, aSrc, k, b);
      ElementByte(dst, aDst, k, b);
      TransferByte(sm, sb + d.srcOff, sl, dm, db + d.dstOff, dl, d.count[0], Start(k, aSrc.elemsize) + b);
    }
    assert now == was;
  }

  /** r is the memory dm after the strided put. */
  predicate Put(d: PutDesc, sm: seq<Byte>, sb: nat, dm: seq<Byte>, db: nat, r: seq<Byte>) {
    && |d.count| == |d.srcStride| + 1 == |d.dstStride| + 1
    && var sl, dl := Section(d.srcStride, d.count[1..]), Section(d.dstStride, d.count[1..]);
    && |sl| == |dl| && Inside(sm, sb + d.srcOff, sl, d.count[0]) && Inside(dm, db + d.dstOff, dl, d.count[0])
    && r == Transfer(sm, sb + d.srcOff, sl, dm, db + d.dstOff, dl, d.count[0])
  }

  lemma DescribesBytes(d: PutDesc, aSrc: ArrayDesc, src: Slice, aDst: ArrayDesc, dst: Slice)
    requires LaidOut(aSrc) && SectionOf(src, aSrc) && LaidOut(aDst) && SectionOf(dst, aDst)
    requires Describes(d, src, aSrc, dst, aDst)
    ensures |d.count| == |d.srcStride| + 1 == |d.dstStride| + 1
    ensures Expand(Section(d.srcStride, d.count[1..]), 1, d.count[0]) == ElementBytes(src, aSrc)
    ensures Expand(Section(d.dstStride, d.count[1..]), 1, d.count[0]) == ElementBytes(dst, aDst)
  {
    hide LaidOut, SectionOf, ElementBytes, Section, Expand, ElementIndex;
  }

  /** No byte outside the elements of the destination section changes. */
  lemma NothingElseChanges(d: PutDesc, aSrc: ArrayDesc, src: Slice, aDst: ArrayDesc, dst: Slice,
      sm: seq<Byte>, sb: nat, dm: seq<Byte>, db: nat, r: seq<Byte>, x: nat)
    requires LaidOut(aSrc) && SectionOf(src, aSrc) && LaidOut(aDst) && SectionOf(dst, aDst) && Ordered(src)
    requires Ordered(dst)
    requires |aSrc.lo| == |aDst.lo| && aSrc.elemsize == aDst.elemsize && Counts(src) == Counts(dst)
    requires Describes(d, src, aSrc, dst, aDst)
    requires Level(d, src, aSrc, dst, aDst, src.stride[0] == 1 && dst.stride[0] == 1)
    requires sb + aSrc.elemsize * Product(aSrc.extent) <= |sm| && db + aDst.elemsize * Product(aDst.extent) <= |dm|
    requires Put(d, sm, sb, dm, db, r) && x < |dm|
    requires forall k: nat :: k < Product(Counts(dst)) ==> !InElement(db, dst, aDst, k, x)
    ensures |r| == |dm| && r[x] == dm[x]
  {
    hide LaidOut, SectionOf, Counts, Product, Describes, Level, Section, Inside, Spaced, ElementOffset;
    hide FirstOffset, Start, Expand, ElementBytes, Pack, Unpack;
    DescReady(d, aSrc, src, aDst, dst, sm, sb, dm, db);
    DescribesBytes(d, aSrc, src, aDst, dst);
    var sl, dl := Section(d.srcStride, d.count[1..]), Section(d.dstStride, d.count[1..]);
    forall i | 0 <= i < |Expand(dl, 1, d.count[0])|
      ensures db + d.dstOff + Expand(dl, 1, d.count[0])[i] != x
    {
      var k, b := ElementOfByte(dst, aDst, i);
      ElementByte(dst, aDst, k, b);
      assert !InElement(db, dst, aDst, k, x);
    }
    TransferElsewhere(sm, sb + d.srcOff, sl, dm, db + d.dstOff, dl, d.count[0], x);
  }

  lemma FirstOffsetPositive(s: Slice, a: ArrayDesc)
    requires LaidOut(a) && SectionOf(s, a)
    ensures 0 <= FirstOffset(s, a)
  {
    assert InBounds(s.lo, a.lo, a.extent);
    IndexBounded(s.lo, a.lo, a.extent);
    MulMonotone(0, ElementIndex(s.lo, a.lo, a.extent), a.elemsize);
  }

  /** Counts never exceed extents, so a section's strides are at least the products of the counts below them. */
  lemma {:induction false} ProductsFit(n: seq<nat>, extent: seq<nat>)
    requires |n| == |extent| && forall i :: 0 <= i < |n| ==> n[i] <= extent[i]
    ensures Product(n) <= Product(extent)
  {
    if n != [] {
      ProductsFit(n[1..], extent[1..]);
      ProductPair(n[0], extent[0], Product(n[1..]), Product(extent[1..]));
    }
  }

  lemma ProductPair(a: nat, b: nat, x: nat, y: nat)
    requires a <= b && x <= y
    ensures a * x <= b * y
  {
    MulMonotone(a, b, x);
    MulMonotone(x, y, b);
    assert x * b == b * x && y * b == b * y;
  }

  lemma CountWithin(s: Slice, a: ArrayDesc, i: nat)
    requires LaidOut(a) && SectionOf(s, a) && Ordered(s) && i < |a.extent| == |Counts(s)|
    ensures Counts(s)[i] <= a.extent[i]
  {
    hide Product;
    assert s.lo[i] + (Counts(s)[i] - 1) * s.stride[i] <= s.hi[i];
    MulMonotone(1, s.stride[i], Counts(s)[i] - 1);
  }

  lemma CountsWithin(s: Slice, a: ArrayDesc)
    requires LaidOut(a) && SectionOf(s, a) && Ordered(s)
    ensures |Counts(s)| == |a.extent| && forall i :: 0 <= i < |Counts(s)| ==> Counts(s)[i] <= a.extent[i]
  {
    Lengths(s, a);
    hide LaidOut, Product, Counts;
    forall i | 0 <= i < |Counts(s)|
      ensures Counts(s)[i] <= a.extent[i]
    {
      CountWithin(s, a, i);
    }
  }

  /** Level i of a section steps past all the elements of the levels inside it. */
  lemma StepCovers(s: Slice, a: ArrayDesc, i: nat)
    requires LaidOut(a) && SectionOf(s, a) && Ordered(s) && i < |a.stride|
    ensures |SectionSteps(s, a)| == |a.stride| == |Counts(s)|
    ensures a.elemsize * Product(Counts(s)[..i]) <= SectionSteps(s, a)[i]
  {
    Lengths(s, a);
    CountsWithin(s, a);
    ProductsFit(Counts(s)[..i], a.extent[..i]);
    LaidOutSteps(s, a, i);
    hide Counts, Product, SectionSteps;
    CoverArithmetic(a.elemsize, Product(Counts(s)[..i]), Product(a.extent[..i]), s.stride[i]);
  }

  lemma CoverArithmetic(es: nat, x: nat, y: nat, st: int)
    requires x <= y && 1 <= st
    ensures es * x <= (es * y) * st
  {
    MulMonotone(x, y, es);
    MulMonotone(1, st, es * y);
    assert x * es == es * x && y * es == es * y && st * (es * y) == (es * y) * st;
  }

  /** Tight strides can only be the products. */
  ghost predicate TightMeansFlat(stride: seq<int>, count: seq<nat>)
    requires |stride| < |count|
  {
    Tight(stride, count) ==> Flat(stride, count)
  }

  lemma FullTight(s: Slice, a: ArrayDesc, stride: seq<int>, count: seq<nat>)
    requires LaidOut(a) && SectionOf(s, a) && Ordered(s)
    requires stride == SectionSteps(s, a) && count == [a.elemsize] + Counts(s)
    ensures |count| == |stride| + 1 && TightMeansFlat(stride, count)
  {
    hide LaidOut, SectionOf, Counts, SectionSteps, Product;
    Lengths(s, a);
    LaidOutSteps(s, a, 0);
    if Tight(stride, count) {
      forall i | 0 <= i < |stride|
        ensures stride[i] == Product(count[..i + 1])
      {
        StepCovers(s, a, i);
        assert count[..i + 1] == [a.elemsize] + Counts(s)[..i];
        ProductCons(a.elemsize, Counts(s)[..i]);
      }
    }
  }

  lemma ProductCons(x: nat, c: seq<nat>)
    ensures Product([x] + c) == x * Product(c)
  {
    assert ([x] + c)[1..] == c;
  }

  lemma MergedTight(s: Slice, a: ArrayDesc, stride: seq<int>, count: seq<nat>)
    requires LaidOut(a) && SectionOf(s, a) && Ordered(s) && |SectionSteps(s, a)| > 0 && |Counts(s)| > 0
    requires stride == SectionSteps(s, a)[1..] && count == Counts(s)[0 := Counts(s)[0] * a.elemsize]
    ensures |count| == |stride| + 1 && TightMeansFlat(stride, count)
  {
    hide LaidOut, SectionOf, Counts, SectionSteps, Product;
    Lengths(s, a);
    LaidOutSteps(s, a, 0);
    var n := Counts(s);
    if Tight(stride, count) {
      forall i | 0 <= i < |stride|
        ensures stride[i] == Product(count[..i + 1])
      {
        StepCovers(s, a, i + 1);
        assert count[..i + 1] == [n[0] * a.elemsize] + n[1..i + 1] && n[..i + 1] == [n[0]] + n[1..i + 1];
        ProductCons(n[0] * a.elemsize, n[1..i + 1]);
        ProductCons(n[0], n[1..i + 1]);
        Regroup(n[0], a.elemsize, Product(n[1..i + 1]));
      }
    }
  }

  lemma Regroup(x: nat, es: nat, p: nat)
    ensures (x * es) * p == es * (x * p)
  {
  }

  /** The contiguity test is right about the descriptors of array sections, whether the iterator accepts them or not. */
  lemma SectionsTight(d: PutDesc, aSrc: ArrayDesc, src: Slice, aDst: ArrayDesc, dst: Slice)
    requires LaidOut(aSrc) && SectionOf(src, aSrc) && LaidOut(aDst) && SectionOf(dst, aDst)
    requires |aSrc.lo| == |aDst.lo| && aSrc.elemsize == aDst.elemsize && Counts(src) == Counts(dst)
    requires Level(d, src, aSrc, dst, aDst, src.stride[0] == 1 && dst.stride[0] == 1)
    ensures |d.count| == |d.srcStride| + 1 == |d.dstStride| + 1 && AllPositive(d.count[1..])
    ensures TightMeansFlat(d.srcStride, d.count) && TightMeansFlat(d.dstStride, d.count)
  {
    hide LaidOut, SectionOf, SectionSteps, Counts, TightMeansFlat;
    Lengths(src, aSrc);
    Lengths(dst, aDst);
    FirstLevel(src, aSrc);
    FirstLevel(dst, aDst);
    assert d.count[1..] == if src.stride[0] == 1 && dst.stride[0] == 1 then Counts(src)[1..] else Counts(src);
    if src.stride[0] == 1 && dst.stride[0] == 1 {
      MergedTight(src, aSrc, d.srcStride, d.count);
      MergedTight(dst, aDst, d.dstStride, d.count);
    } else {
      FullTight(src, aSrc, d.srcStride, d.count);
      FullTight(dst, aDst, d.dstStride, d.count);
    }
  }

  /** What PutS needs of such a descriptor: if the contiguity test accepts it, it is flat and there is room. */
  lemma FlatWhenTight(m: seq<Byte>, base: nat, stride: seq<int>, count: seq<nat>)
    requires |count| == |stride| + 1 && AllPositive(count[1..]) && TightMeansFlat(stride, count) && Tight(stride, count)
    requires Inside(m, base, Offsets(stride, count), count[0])
    ensures Lined(stride, count) && base + Total(count) <= |m|
  {
    hide Inside, Tight, Offsets, Total;
    FlatRoom(m, base, stride, count);
  }

  /**
   * ARMCI_Put_farrays and its strided put together, for two arrays in memory. Unless the counts differ, element k of
   * the source section arrives at element k of the destination section, for every k.
   */
  method PutSection(aSrc: ArrayDesc, src: Slice, sm: array<Byte>, sb: nat, aDst: ArrayDesc, dst: Slice,
      dm: array<Byte>, db: nat)
    returns (ok: bool)
    requires LaidOut(aSrc) && SectionOf(src, aSrc) && LaidOut(aDst) && SectionOf(dst, aDst)
    requires |aSrc.lo| == |aDst.lo| && aSrc.elemsize == aDst.elemsize && sm != dm
    requires sb + aSrc.elemsize * Product(aSrc.extent) <= sm.Length
    requires db + aDst.elemsize * Product(aDst.extent) <= dm.Length
    modifies dm
    ensures ok <==> Counts(src) == Counts(dst)
    ensures !ok ==> dm[..] == old(dm[..])
    ensures ok ==> forall k: nat :: k < Product(Counts(src)) ==>
      ElementAt(dm[..], db, dst, aDst, k) == ElementAt(sm[..], sb, src, aSrc, k)
    ensures ok ==> forall x: nat :: x < dm.Length && OutsideSection(db, dst, aDst, x) ==> dm[..][x] == old(dm[..])[x]
  {
    hide LaidOut, SectionOf, Counts, Product, Describes, Level, Section, Inside, Spaced, FirstOffset, ElementAt;
    hide Transfer, Offsets, OutsideSection, TightMeansFlat, AllPositive, Tight, Lined, Total;
    var d := PutFarrays(aSrc, src, aDst, dst);
    if d.None? {
      return false;
    }
    ok := true;
    ghost var was, from := dm[..], sm[..];
    FirstOffsetPositive(src, aSrc);
    FirstOffsetPositive(dst, aDst);
    DescReady(d.value, aSrc, src, aDst, dst, from, sb, was, db);
    SectionsTight(d.value, aSrc, src, aDst, dst);
    OffsetsAre(d.value.srcStride, d.value.count);
    OffsetsAre(d.value.dstStride, d.value.count);
    if Tight(d.value.srcStride, d.value.count) && Tight(d.value.dstStride, d.value.count) {
      FlatWhenTight(from, sb + d.value.srcOff, d.value.srcStride, d.value.count);
      FlatWhenTight(was, db + d.value.dstOff, d.value.dstStride, d.value.count);
    }
    PutS(sm, sb + d.value.srcOff, d.value.srcStride, dm, db + d.value.dstOff, d.value.dstStride, d.value.count);
    assert Put(d.value, from, sb, was, db, dm[..]);
    Lands(d.value, aSrc, src, aDst, dst, from, sb, was, db, dm[..]);
  }

  lemma OffsetsAre(stride: seq<int>, count: seq<nat>)
    requires |count| == |stride| + 1
    ensures Offsets(stride, count) == Section(stride, count[1..])
  {
  }

  /** Byte x belongs to no element of the section. */
  predicate OutsideSection(base: nat, s: Slice, a: ArrayDesc, x: int)
    requires LaidOut(a) && SectionOf(s, a)
  {
    forall k: nat :: k < Product(Counts(s)) ==> !InElement(base, s, a, k, x)
  }

  lemma Lands(d: PutDesc, aSrc: ArrayDesc, src: Slice, aDst: ArrayDesc, dst: Slice,
      sm: seq<Byte>, sb: nat, dm: seq<Byte>, db: nat, r: seq<Byte>)
    requires LaidOut(aSrc) && SectionOf(src, aSrc) && LaidOut(aDst) && SectionOf(dst, aDst)
    requires |aSrc.lo| == |aDst.lo| && aSrc.elemsize == aDst.elemsize && Counts(src) == Counts(dst)
    requires Describes(d, src, aSrc, dst, aDst)
    requires Level(d, src, aSrc, dst, aDst, src.stride[0] == 1 && dst.stride[0] == 1)
    requires sb + aSrc.elemsize * Product(aSrc.extent) <= |sm| && db + aDst.elemsize * Product(aDst.extent) <= |dm|
    requires Put(d, sm, sb, dm, db, r)
    ensures forall k: nat :: k < Product(Counts(src)) ==>
      ElementAt(r, db, dst, aDst, k) == ElementAt(sm, sb, src, aSrc, k)
    ensures |r| == |dm| && forall x: nat :: x < |dm| && OutsideSection(db, dst, aDst, x) ==> r[x] == dm[x]
  {
    hide LaidOut, SectionOf, Counts, Product, Describes, Level, ElementAt, Section, Inside, Transfer, InElement;
    Lengths(src, aSrc);
    Lengths(dst, aDst);
    forall k: nat | k < Product(Counts(src))
      ensures ElementAt(r, db, dst, aDst, k) == ElementAt(sm, sb, src, aSrc, k)
    {
      ElementLands(d, aSrc, src, aDst, dst, sm, sb, dm, db, r, k);
    }
    forall x: nat | x < |dm| && OutsideSection(db, dst, aDst, x)
      ensures r[x] == dm[x]
    {
      NothingElseChanges(d, aSrc, src, aDst, dst, sm, sb, dm, db, r, x);
    }
  }
}
