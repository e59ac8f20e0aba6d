/**
 * Strides as mathematics: the sequence of offsets that a nest of loops visits (the first level innermost),
 * and the mixed-radix digits that name a position in it.
 */
module Strides {
  import opened Arithmetic

  function Product(c: seq<nat>): nat {
    if c == [] then 1 else c[0] * Product(c[1..])
  }

  predicate AllPositive(c: seq<nat>) {
    forall i :: 0 <= i < |c| ==> 0 < c[i]
  }

  lemma {:induction false} ProductPositive(c: seq<nat>)
    ensures 0 < Product(c) <==> AllPositive(c)
  {
    if c != [] {
      ProductPositive(c[1..]);
      assert c == [c[0]] + c[1..];
      if c[0] > 0 && Product(c[1..]) > 0 {
        MulPositive(c[0], Product(c[1..]));
      }
    }
  }

  lemma {:induction false} ProductSnoc(c: seq<nat>, x: nat)
    ensures Product(c + [x]) == Product(c) * x
  {
    if c == [] {
      assert [x][1..] == [] && c + [x] == [x];
    } else {
      assert (c + [x])[1..] == c[1..] + [x];
      ProductSnoc(c[1..], x);
      MulThree(c[0], Product(c[1..]), x);
    }
  }

  lemma MulThree(a: nat, b: nat, c: nat)
    ensures a * (b * c) == a * b * c
  {
  }

  lemma NextProduct(count: seq<nat>, i: nat)
    requires i < |count|
    ensures Product(count[..i + 1]) == Product(count[..i]) * count[i]
  {
    assert count[..i + 1] == count[..i] + [count[i]];
    ProductSnoc(count[..i], count[i]);
  }

  lemma MulPositive(a: nat, b: nat)
    requires 0 < a && 0 < b
    ensures 0 < a * b
  {
  }

  // ---------- the loop nest ----------

  /** The innermost loop: n offsets from start, step apart. */
  function Row(start: int, step: int, n: nat): (r: seq<int>)
    ensures |r| == n && forall j :: 0 <= j < n ==> r[j] == start + j * step
  {
    seq(n, j => start + j * step)
  }

  /** The innermost loop, run once for each offset of the loops around it. */
  function Expand(outer: seq<int>, step: int, n: nat): seq<int> {
    if outer == [] then [] else Row(outer[0], step, n) + Expand(outer[1..], step, n)
  }

  /** The offsets visited by nested loops with strides s and trip counts c, in order; the first level is innermost. */
  function Section(s: seq<int>, c: seq<nat>): seq<int>
    requires |s| == |c|
  {
    if s == [] then [0] else Expand(Section(s[1..], c[1..]), s[0], c[0])
  }

  /** Where the p-th stretch of seg places starts; a product that proofs can hide. */
  function Start(p: nat, seg: nat): nat {
    p * seg
  }

  lemma StartNext(p: nat, seg: nat)
    ensures Start(p + 1, seg) == Start(p, seg) + seg
  {
    NextMultiple(p, seg);
  }

  lemma StartMonotone(p: nat, n: nat, seg: nat)
    requires p <= n
    ensures Start(p, seg) <= Start(n, seg)
  {
    MulMonotone(p, n, seg);
  }

  lemma StartNone(seg: nat)
    ensures Start(0, seg) == 0
  {
  }

  lemma {:induction false} ExpandLength(outer: seq<int>, step: int, n: nat)
    ensures |Expand(outer, step, n)| == Start(|outer|, n)
  {
    hide Start;
    StartNone(n);
    if outer != [] {
      ExpandLength(outer[1..], step, n);
      StartNext(|outer| - 1, n);
    }
  }

  lemma InRow(q: nat, r: nat, rows: nat, n: nat)
    requires q < rows && r < n
    ensures Start(q, n) + r < Start(rows, n)
  {
    hide Start;
    StartMonotone(q + 1, rows, n);
    StartNext(q, n);
  }

  /** Position p of an expansion, at place r in row q. */
  lemma {:induction false} ExpandAt(outer: seq<int>, step: int, n: nat, p: nat, q: nat, r: nat)
    requires q < |outer| && r < n && p == Start(q, n) + r
    ensures p < |Expand(outer, step, n)| && Expand(outer, step, n)[p] == outer[q] + r * step
    decreases q
  {
    hide Start;
    var row, rest := Row(outer[0], step, n), Expand(outer[1..], step, n);
    if q > 0 {
      StartNext(q - 1, n);
      ExpandAt(outer[1..], step, n, p - n, q - 1, r);
      assert (row + rest)[p] == rest[p - n];
    } else {
      StartNone(n);
    }
  }

  lemma SectionPlace(s: seq<int>, c: seq<nat>, p: nat, q: nat, r: nat)
    requires |s| == |c| > 0 && q < |Section(s[1..], c[1..])| && r < c[0] && p == Start(q, c[0]) + r
    ensures p < |Section(s, c)|
    ensures Section(s, c)[p] == Section(s[1..], c[1..])[q] + r * s[0]
  {
    hide Expand, Start;
    ExpandAt(Section(s[1..], c[1..]), s[0], c[0], p, q, r);
  }

  // ---------- the odometer ----------

  /** The mixed-radix digits of p, least significant first; the last digit is not reduced. */
  function Digits(c: seq<nat>, p: nat): (d: seq<nat>)
    requires AllPositive(c)
    ensures |d| == |c|
  {
    if c == [] then []
    else if |c| == 1 then [p]
    else [p % c[0]] + Digits(c[1..], p / c[0])
  }

  function Dot(d: seq<nat>, s: seq<int>): int
    requires |d| == |s|
  {
    if d == [] then 0 else d[0] * s[0] + Dot(d[1..], s[1..])
  }

  /** Row and place of a position. */
  lemma Split(p: nat, n: nat, rows: nat) returns (q: nat, r: nat)
    requires 0 < n && p < Start(rows, n)
    ensures q == p / n && r == p % n && p == Start(q, n) + r && q < rows && r < n
  {
    q, r := p / n, p % n;
    MulBound(rows - q, n);
  }

  lemma ProductStart(c: seq<nat>)
    requires c != []
    ensures Product(c) == Start(Product(c[1..]), c[0])
  {
  }

  /** The odometer's reading at position p gives the p-th offset of the loop nest. */
  lemma {:induction false} SectionAt(s: seq<int>, c: seq<nat>)
    requires |s| == |c| && AllPositive(c)
    ensures |Section(s, c)| == Product(c)
    ensures forall p :: 0 <= p < Product(c) ==> Section(s, c)[p] == Dot(Digits(c, p), s)
  {
    if s != [] {
      SectionAt(s[1..], c[1..]);
      ProductStart(c);
      hide Expand, Start, Product, Digits, Dot;
      ExpandLength(Section(s[1..], c[1..]), s[0], c[0]);
      forall p | 0 <= p < Product(c)
        ensures Section(s, c)[p] == Dot(Digits(c, p), s)
      {
        var q, r := Split(p, c[0], Product(c[1..]));
        SectionPlace(s, c, p, q, r);
        DotSplit(s, c, p);
      }
    }
  }

  lemma DotSplit(s: seq<int>, c: seq<nat>, p: nat)
    requires |s| == |c| && AllPositive(c) && s != [] && p < Product(c)
    ensures Dot(Digits(c, p), s) == Dot(Digits(c[1..], p / c[0]), s[1..]) + (p % c[0]) * s[0]
  {
    if |c| == 1 {
      DotOne(s, c, p);
    } else {
      DotMany(s, c, p, p / c[0], p % c[0]);
    }
  }

  lemma DotOne(s: seq<int>, c: seq<nat>, p: nat)
    requires |s| == |c| == 1 && AllPositive(c) && p < Product(c)
    ensures Dot(Digits(c, p), s) == Dot(Digits(c[1..], p / c[0]), s[1..]) + (p % c[0]) * s[0]
  {
    assert c[1..] == [] && Product(c) == c[0];
    ModUnique(p, c[0], 0, p);
    assert Digits(c, p) == [p] && [p][1..] == [];
    assert Digits(c[1..], p / c[0]) == [];
  }

  lemma DotMany(s: seq<int>, c: seq<nat>, p: nat, q: nat, r: nat)
    requires |s| == |c| > 1 && AllPositive(c) && q == p / c[0] && r == p % c[0]
    ensures Dot(Digits(c, p), s) == Dot(Digits(c[1..], q), s[1..]) + r * s[0]
  {
    var d := Digits(c, p);
    assert d == [r] + Digits(c[1..], q);
    hide Digits;
    assert d[1..] == Digits(c[1..], q);
  }

  /** One tick without a carry. */
  lemma DigitsNoCarry(c: seq<nat>, p: nat)
    requires AllPositive(c) && 1 < |c| && p % c[0] + 1 != c[0]
    ensures Digits(c, p + 1) == Digits(c, p)[0 := Digits(c, p)[0] + 1]
  {
    var q, r := p / c[0], p % c[0];
    assert p + 1 == q * c[0] + (r + 1);
    ModUnique(p + 1, c[0], q, r + 1);
  }

  /** One tick with a carry. */
  lemma DigitsCarry(c: seq<nat>, p: nat)
    requires AllPositive(c) && 1 < |c| && p % c[0] + 1 == c[0]
    ensures Digits(c, p + 1) == [0] + Digits(c[1..], p / c[0] + 1)
  {
    var q := p / c[0];
    assert p + 1 == (q + 1) * c[0] + 0;
    ModUnique(p + 1, c[0], q + 1, 0);
  }

  // ---------- disjointness ----------

  /**
   * Each level steps past everything the levels inside it reach, when an innermost segment is seg long. The
   * assertions of armci_stride_info_init imply this.
   */
  predicate Roomy(s: seq<int>, c: seq<nat>, seg: int)
    requires |s| == |c|
  {
    s == [] || (seg <= s[0] && Roomy(s[1..], c[1..], seg + (c[0] - 1) * s[0]))
  }

  /** Consecutive offsets are at least gap apart. */
  predicate Spaced(l: seq<int>, gap: int) {
    forall p :: 0 <= p < |l| - 1 ==> l[p] + gap <= l[p + 1]
  }

  lemma {:induction false} SectionSpaced(s: seq<int>, c: seq<nat>, seg: int)
    requires |s| == |c| && AllPositive(c) && Roomy(s, c, seg)
    ensures Spaced(Section(s, c), seg) && |Section(s, c)| > 0 && Section(s, c)[0] == 0
  {
    if s != [] {
      var gap := seg + (c[0] - 1) * s[0];
      SectionSpaced(s[1..], c[1..], gap);
      ExpandSpaced(Section(s[1..], c[1..]), s[0], c[0], seg, gap);
    }
  }

  lemma ExpandSpaced(outer: seq<int>, step: int, n: nat, seg: int, gap: int)
    requires 0 < n && seg <= step && gap == seg + (n - 1) * step && Spaced(outer, gap)
    ensures Spaced(Expand(outer, step, n), seg)
    ensures |outer| > 0 ==> |Expand(outer, step, n)| > 0 && Expand(outer, step, n)[0] == outer[0]
  {
    hide Expand, Start;
    var l := Expand(outer, step, n);
    ExpandLength(outer, step, n);
    forall p | 0 <= p < |l| - 1
      ensures l[p] + seg <= l[p + 1]
    {
      var q, r := Split(p, n, |outer|);
      ExpandNext(outer, step, n, seg, gap, p, q, r);
    }
    if |outer| > 0 {
      StartNone(n);
      ExpandAt(outer, step, n, 0, 0, 0);
    }
  }

  lemma ExpandNext(outer: seq<int>, step: int, n: nat, seg: int, gap: int, p: nat, q: nat, r: nat)
    requires q < |outer| && r < n && seg <= step && gap == seg + (n - 1) * step && Spaced(outer, gap)
    requires p == Start(q, n) + r && p + 1 < |Expand(outer, step, n)|
    ensures Expand(outer, step, n)[p] + seg <= Expand(outer, step, n)[p + 1]
  {
    hide Expand, Start;
    ExpandAt(outer, step, n, p, q, r);
    ExpandLength(outer, step, n);
    if r + 1 < n {
      ExpandAt(outer, step, n, p + 1, q, r + 1);
      NextMultiple(r, step);
    } else {
      StartNext(q, n);
      StartMonotone(if |outer| <= q + 1 then |outer| else 0, q + 1, n);
      ExpandAt(outer, step, n, p + 1, q + 1, 0);
      assert outer[q] + gap <= outer[q + 1];
    }
  }

  lemma {:induction false} SpacedApart(l: seq<int>, gap: int, p: nat, q: nat)
    requires Spaced(l, gap) && 0 <= gap && p < q < |l|
    ensures l[p] + gap <= l[q]
    decreases q
  {
    if p + 1 < q {
      SpacedApart(l, gap, p, q - 1);
      assert l[q - 1] + gap <= l[q - 1 + 1];
    } else {
      assert l[p] + gap <= l[p + 1];
    }
  }

  // ---------- collapsing levels ----------

  lemma SectionCons(step: int, n: nat, s: seq<int>, c: seq<nat>)
    requires |s| == |c|
    ensures Section([step] + s, [n] + c) == Expand(Section(s, c), step, n)
  {
    assert ([step] + s)[1..] == s && ([n] + c)[1..] == c;
  }

  /** An expansion of an expansion is one expansion, when the outer level steps exactly past the inner one. */
  lemma ExpandTwice(outer: seq<int>, m: int, n0: nat, n1: nat)
    requires 0 < n0 && 0 < n1
    ensures Expand(Expand(outer, m * n0, n1), m, n0) == Expand(outer, m, n0 * n1)
  {
    hide Expand;
    var l, r := Expand(Expand(outer, m * n0, n1), m, n0), Expand(outer, m, n0 * n1);
    TwiceLength(outer, m, n0, n1);
    forall p | 0 <= p < |l|
      ensures l[p] == r[p]
    {
      TwiceAt(outer, m, n0, n1, p);
    }
  }

  lemma TwiceLength(outer: seq<int>, m: int, n0: nat, n1: nat)
    ensures |Expand(Expand(outer, m * n0, n1), m, n0)| == |Expand(outer, m, n0 * n1)|
  {
    hide Expand, Start;
    ExpandLength(outer, m * n0, n1);
    ExpandLength(Expand(outer, m * n0, n1), m, n0);
    ExpandLength(outer, m, n0 * n1);
    StartTwice(|outer|, n0, n1);
  }

  lemma StartTwice(u: nat, n0: nat, n1: nat)
    ensures Start(Start(u, n1), n0) == Start(u, n0 * n1)
  {
    assert u * n1 * n0 == u * (n0 * n1);
  }

  lemma TwiceAt(outer: seq<int>, m: int, n0: nat, n1: nat, p: nat)
    requires 0 < n0 && 0 < n1 && p < |Expand(Expand(outer, m * n0, n1), m, n0)|
    requires |Expand(Expand(outer, m * n0, n1), m, n0)| == |Expand(outer, m, n0 * n1)|
    ensures Expand(Expand(outer, m * n0, n1), m, n0)[p] == Expand(outer, m, n0 * n1)[p]
  {
    hide Expand, Start;
    var mid := Expand(outer, m * n0, n1);
    ExpandLength(mid, m, n0);
    ExpandLength(outer, m * n0, n1);
    var row, r := Split(p, n0, |mid|);
    var u, v := Split(row, n1, |outer|);
    ExpandAt(mid, m, n0, p, row, r);
    ExpandAt(outer, m * n0, n1, row, u, v);
    InRow(v, r, n1, n0);
    SamePosition(u, v, r, n0, n1, m);
    ExpandAt(outer, m, n0 * n1, p, u, Start(v, n0) + r);
  }

  lemma SamePosition(u: nat, v: nat, r: nat, n0: nat, n1: nat, m: int)
    ensures Start(Start(u, n1) + v, n0) + r == Start(u, n0 * n1) + (Start(v, n0) + r)
    ensures v * (m * n0) + r * m == (Start(v, n0) + r) * m
    ensures Start(n1, n0) == n0 * n1
  {
    assert (u * n1 + v) * n0 == u * (n0 * n1) + v * n0;
  }
}
