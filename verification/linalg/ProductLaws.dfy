/**
 * What the matrix product is, with every index written out: a unit column of op(B) picks a column of op(A), a unit row
 * of op(A) picks a row of op(B), and the sums are linear in either factor. Together these determine the product.
 */
module ProductLaws {
  import opened Arithmetic
  import opened Gemm

  function Delta(h: nat, q: nat): real {
    if h == q then 1.0 else 0.0
  }

  /** Index of row r, column c of an operand in column-major order, or of its transpose. */
  function OpIndex(trans: bool, ld: nat, r: nat, c: nat): nat {
    if trans then r * ld + c else r + c * ld
  }

  lemma Indices(f: Factors, i: nat, h: nat, j: nat, ldc: nat)
    ensures AIndex(f, i, h) == OpIndex(f.transA, f.lda, i, h) && BIndex(f, h, j) == OpIndex(f.transB, f.ldb, h, j)
    ensures CIndex(ldc, i, j) == OpIndex(false, ldc, i, j)
  {
  }

  /** Column j of op(B) is 1 in row q and 0 elsewhere. */
  ghost predicate UnitColumn(f: Factors, j: nat, q: nat) {
    forall h: nat :: h < f.k ==>
      OpIndex(f.transB, f.ldb, h, j) < |f.b| && f.b[OpIndex(f.transB, f.ldb, h, j)] == Delta(h, q)
  }

  /** Row i of op(A) is 1 in column q and 0 elsewhere. */
  ghost predicate UnitRow(f: Factors, i: nat, q: nat) {
    forall h: nat :: h < f.k ==>
      OpIndex(f.transA, f.lda, i, h) < |f.a| && f.a[OpIndex(f.transA, f.lda, i, h)] == Delta(h, q)
  }

  lemma {:induction false} DotUnit(f: Factors, i: nat, j: nat, q: nat, r: nat)
    requires Fits(f) && i < f.m && j < f.n && q < f.k && r <= f.k && UnitColumn(f, j, q)
    ensures AIndex(f, i, q) < |f.a| && Dot(f, i, j, r) == if q < r then f.a[AIndex(f, i, q)] else 0.0
  {
    InRange(f, i, j, q);
    if r > 0 {
      DotUnit(f, i, j, q, r - 1);
      InRange(f, i, j, r - 1);
      Indices(f, i, r - 1, j, 0);
    }
  }

  lemma SwappedUnit(f: Factors, i: nat, q: nat)
    requires UnitRow(f, i, q)
    ensures UnitColumn(Swapped(f), i, q)
  {
    var g := Swapped(f);
    forall h: nat | h < g.k
      ensures OpIndex(g.transB, g.ldb, h, i) < |g.b| && g.b[OpIndex(g.transB, g.ldb, h, i)] == Delta(h, q)
    {
      assert OpIndex(g.transB, g.ldb, h, i) == OpIndex(f.transA, f.lda, i, h);
    }
  }

  /** The entry of C that the result has in row i and column j. */
  lemma EntryIs(f: Factors, alpha: real, beta: real, ldc: nat, was: seq<real>, now: seq<real>, i: nat, j: nat)
    requires Fits(f) && PatchFits(f, ldc, |was|) && Updated(f, alpha, beta, ldc, was, now) && i < f.m && j < f.n
    ensures var y := OpIndex(false, ldc, i, j);
      y < |was| == |now| && now[y] == alpha * Dot(f, i, j, f.k) + beta * was[y]
  {
    hide Fits, Gemm.Dot, OpIndex, CIndex;
    Indices(f, i, 0, j, ldc);
    InC(f, ldc, |was|, i, j);
    hide PatchFits;
    Place(ldc, i, j, CIndex(ldc, i, j));
  }

  lemma InC(f: Factors, ldc: nat, length: nat, i: nat, j: nat)
    requires PatchFits(f, ldc, length) && i < f.m && j < f.n
    ensures 0 < ldc && i < ldc && CIndex(ldc, i, j) < length
  {
    hide CIndex;
  }

  /** Where column j of op(B) is a unit vector, column j of the product is a column of op(A). */
  lemma PicksColumn(f: Factors, alpha: real, beta: real, ldc: nat, was: seq<real>, now: seq<real>, i: nat, j: nat,
      q: nat)
    requires Fits(f) && PatchFits(f, ldc, |was|) && Updated(f, alpha, beta, ldc, was, now)
    requires i < f.m && j < f.n && q < f.k && UnitColumn(f, j, q)
    ensures var x, y := OpIndex(f.transA, f.lda, i, q), OpIndex(false, ldc, i, j);
      x < |f.a| && y < |was| == |now| && now[y] == alpha * f.a[x] + beta * was[y]
  {
    hide Fits, PatchFits, Updated, UnitColumn;
    EntryIs(f, alpha, beta, ldc, was, now, i, j);
    DotUnit(f, i, j, q, f.k);
    Indices(f, i, q, j, ldc);
  }

  /** Where row i of op(A) is a unit vector, row i of the product is a row of op(B). */
  lemma PicksRow(f: Factors, alpha: real, beta: real, ldc: nat, was: seq<real>, now: seq<real>, i: nat, j: nat, q: nat)
    requires Fits(f) && PatchFits(f, ldc, |was|) && Updated(f, alpha, beta, ldc, was, now)
    requires i < f.m && j < f.n && q < f.k && UnitRow(f, i, q)
    ensures var x, y := OpIndex(f.transB, f.ldb, q, j), OpIndex(false, ldc, i, j);
      x < |f.b| && y < |was| == |now| && now[y] == alpha * f.b[x] + beta * was[y]
  {
    hide Gemm.Dot, PatchFits, Updated, UnitRow, UnitColumn, OpIndex;
    EntryIs(f, alpha, beta, ldc, was, now, i, j);
    ProductTransposes(f, i, j, f.k);
    SwappedUnit(f, i, q);
    DotUnit(Swapped(f), j, i, q, f.k);
    Indices(f, i, q, j, ldc);
    Indices(Swapped(f), j, q, i, ldc);
  }

  /** Entry (i, j) of the patch has become alpha op(A) + beta C. */
  ghost predicate ScaledCopy(f: Factors, alpha: real, beta: real, ldc: nat, was: seq<real>, now: seq<real>,
      i: nat, j: nat)
  {
    var x, y := OpIndex(f.transA, f.lda, i, j), OpIndex(false, ldc, i, j);
    x < |f.a| && y < |was| == |now| && now[y] == alpha * f.a[x] + beta * was[y]
  }

  /** Multiplying by the identity: the patch becomes alpha op(A) + beta C, index by index. */
  lemma TimesIdentity(f: Factors, alpha: real, beta: real, ldc: nat, was: seq<real>, now: seq<real>)
    requires Fits(f) && PatchFits(f, ldc, |was|) && Updated(f, alpha, beta, ldc, was, now)
    requires f.k == f.n && forall j: nat :: j < f.n ==> UnitColumn(f, j, j)
    ensures forall i: nat, j: nat :: i < f.m && j < f.n ==> ScaledCopy(f, alpha, beta, ldc, was, now, i, j)
  {
    hide Fits, PatchFits, Updated, UnitColumn, OpIndex;
    forall i: nat, j: nat | i < f.m && j < f.n
      ensures ScaledCopy(f, alpha, beta, ldc, was, now, i, j)
    {
      PicksColumn(f, alpha, beta, ldc, was, now, i, j, j);
    }
  }

  /** What is not in the patch has not changed. */
  lemma Elsewhere(f: Factors, alpha: real, beta: real, ldc: nat, was: seq<real>, now: seq<real>, x: nat)
    requires Fits(f) && PatchFits(f, ldc, |was|) && Updated(f, alpha, beta, ldc, was, now) && x < |was|
    requires forall i: nat, j: nat :: i < f.m && j < f.n ==> OpIndex(false, ldc, i, j) != x
    ensures |now| == |was| && now[x] == was[x]
  {
    hide Gemm.Dot, OpIndex;
    IndexOf(ldc, x);
  }

  lemma IndexOf(ldc: nat, x: nat)
    requires 0 < ldc
    ensures OpIndex(false, ldc, x % ldc, x / ldc) == x
  {
  }

  // ---------- linearity ----------

  predicate IsSum(t: seq<real>, r: seq<real>, s: seq<real>) {
    |t| == |r| == |s| && forall x :: 0 <= x < |t| ==> t[x] == r[x] + s[x]
  }

  predicate IsMultiple(t: seq<real>, c: real, s: seq<real>) {
    |t| == |s| && forall x :: 0 <= x < |t| ==> t[x] == c * s[x]
  }

  /** The last term of a sum. */
  lemma LastTerm(f: Factors, i: nat, j: nat, r: nat)
    requires Fits(f) && i < f.m && j < f.n && 0 < r <= f.k
    ensures AIndex(f, i, r - 1) < |f.a| && BIndex(f, r - 1, j) < |f.b|
    ensures Dot(f, i, j, r) == Dot(f, i, j, r - 1) + f.a[AIndex(f, i, r - 1)] * f.b[BIndex(f, r - 1, j)]
  {
    InRange(f, i, j, r - 1);
  }

  lemma NoTerms(f: Factors, i: nat, j: nat)
    requires Fits(f) && i < f.m && j < f.n
    ensures Dot(f, i, j, 0) == 0.0
  {
  }

  /** The sums are additive in the first factor. */
  lemma {:induction false} SumOfFirst(f: Factors, g: Factors, e: Factors, i: nat, j: nat, r: nat)
    requires Fits(f) && i < f.m && j < f.n && r <= f.k && g == f.(a := g.a) && e == f.(a := e.a)
    requires IsSum(e.a, f.a, g.a)
    ensures Fits(g) && Fits(e) && Dot(e, i, j, r) == Dot(f, i, j, r) + Dot(g, i, j, r)
  {
    hide Gemm.Dot, Fits, AIndex, BIndex;
    SameShape(f, g);
    SameShape(f, e);
    if r > 0 {
      SumOfFirst(f, g, e, i, j, r - 1);
      LastTerm(f, i, j, r);
      LastTerm(g, i, j, r);
      LastTerm(e, i, j, r);
      var x, y := AIndex(f, i, r - 1), BIndex(f, r - 1, j);
      assert AIndex(g, i, r - 1) == AIndex(e, i, r - 1) == x && BIndex(g, r - 1, j) == BIndex(e, r - 1, j) == y;
      Distribute(Dot(f, i, j, r - 1), Dot(g, i, j, r - 1), e.a[x], f.a[x], g.a[x], f.b[y]);
      assert Dot(e, i, j, r) == Dot(e, i, j, r - 1) + e.a[x] * f.b[y];
      assert Dot(f, i, j, r) + Dot(g, i, j, r) == Dot(f, i, j, r - 1) + Dot(g, i, j, r - 1) + e.a[x] * f.b[y];
    } else {
      NoTerms(f, i, j);
      NoTerms(g, i, j);
      NoTerms(e, i, j);
    }
  }

  /** And homogeneous. */
  lemma {:induction false} MultipleOfFirst(f: Factors, e: Factors, c: real, i: nat, j: nat, r: nat)
    requires Fits(f) && i < f.m && j < f.n && r <= f.k && e == f.(a := e.a)
    requires IsMultiple(e.a, c, f.a)
    ensures Fits(e) && Dot(e, i, j, r) == c * Dot(f, i, j, r)
  {
    hide Gemm.Dot, Fits, AIndex, BIndex;
    SameShape(f, e);
    if r > 0 {
      MultipleOfFirst(f, e, c, i, j, r - 1);
      LastTerm(f, i, j, r);
      LastTerm(e, i, j, r);
      Regroup(c, f.a[AIndex(f, i, r - 1)], f.b[BIndex(f, r - 1, j)], Dot(f, i, j, r - 1));
    } else {
      NoTerms(f, i, j);
      NoTerms(e, i, j);
    }
  }

  lemma SameShape(f: Factors, g: Factors)
    requires Fits(f) && g == f.(a := g.a) && |g.a| == |f.a|
    ensures Fits(g) && forall i: nat, h: nat :: AIndex(g, i, h) == AIndex(f, i, h)
    ensures forall h: nat, j: nat :: BIndex(g, h, j) == BIndex(f, h, j)
  {
    assert forall i: nat, h: nat :: AIndex(g, i, h) == AIndex(f, i, h);
    assert forall h: nat, j: nat :: BIndex(g, h, j) == BIndex(f, h, j);
  }

  lemma Distribute(c: real, d: real, t: real, x: real, y: real, b: real)
    requires t == x + y
    ensures (c + d) + t * b == (c + x * b) + (d + y * b)
  {
  }

  lemma Regroup(c: real, x: real, b: real, d: real)
    ensures c * d + (c * x) * b == c * (d + x * b)
  {
  }

  /** The same in the second factor: it is the first one of the transposed product. */
  lemma SumOfSecond(f: Factors, g: Factors, e: Factors, i: nat, j: nat, r: nat)
    requires Fits(f) && i < f.m && j < f.n && r <= f.k && g == f.(b := g.b) && e == f.(b := e.b)
    requires IsSum(e.b, f.b, g.b)
    ensures Fits(g) && Fits(e) && Dot(e, i, j, r) == Dot(f, i, j, r) + Dot(g, i, j, r)
  {
    hide Gemm.Dot, Fits, IsSum;
    ProductTransposes(f, i, j, r);
    SumOfFirst(Swapped(f), Swapped(g), Swapped(e), j, i, r);
    Twice(g);
    Twice(e);
    ProductTransposes(Swapped(g), j, i, r);
    ProductTransposes(Swapped(e), j, i, r);
  }

  lemma MultipleOfSecond(f: Factors, e: Factors, c: real, i: nat, j: nat, r: nat)
    requires Fits(f) && i < f.m && j < f.n && r <= f.k && e == f.(b := e.b)
    requires IsMultiple(e.b, c, f.b)
    ensures Fits(e) && Dot(e, i, j, r) == c * Dot(f, i, j, r)
  {
    hide Gemm.Dot, Fits, IsMultiple;
    ProductTransposes(f, i, j, r);
    MultipleOfFirst(Swapped(f), Swapped(e), c, j, i, r);
    Twice(e);
    ProductTransposes(Swapped(e), j, i, r);
  }

  lemma Twice(f: Factors)
    ensures Swapped(Swapped(f)) == f
  {
  }

  // ---------- calls ----------

  /** A 2 by 2 matrix times the identity, with any letter for its transposition. */
  method CopyTwo(letter: char) returns (c: array<real>)
    ensures fresh(c) && c[..] == if letter == 'n' || letter == 'N' then [1.0, 2.0, 3.0, 4.0] else [1.0, 3.0, 2.0, 4.0]
  {
    var a := new real[4] [1.0, 2.0, 3.0, 4.0];
    var b := new real[4] [1.0, 0.0, 0.0, 1.0];
    c := new real[4] [5.0, 5.0, 5.0, 5.0];
    ghost var was := c[..];
    ghost var f := FactorsOf(letter, 'N', 2, 2, 2, 2, 2, a[..], b[..]);
    TwoByTwo(f);
    Dgemm(letter, 'N', 2, 2, 2, 1.0, a, 2, b, 2, 0.0, c, 2);
    TimesIdentity(f, 1.0, 0.0, 2, was, c[..]);
    assert ScaledCopy(f, 1.0, 0.0, 2, was, c[..], 0, 0) && ScaledCopy(f, 1.0, 0.0, 2, was, c[..], 1, 0);
    assert ScaledCopy(f, 1.0, 0.0, 2, was, c[..], 0, 1) && ScaledCopy(f, 1.0, 0.0, 2, was, c[..], 1, 1);
  }

  lemma TwoByTwo(f: Factors)
    requires f == Factors(2, 2, 2, f.a, f.transA, 2, f.b, false, 2)
    requires f.a == [1.0, 2.0, 3.0, 4.0] && f.b == [1.0, 0.0, 0.0, 1.0]
    ensures Fits(f) && PatchFits(f, 2, 4) && forall j: nat :: j < 2 ==> UnitColumn(f, j, j)
  {
    forall i: nat, h: nat | i < 2 && h < 2
      ensures AIndex(f, i, h) < 4 && BIndex(f, i, h) < 4 && CIndex(2, i, h) < 4
    {
      Indices(f, i, h, h, 2);
      Indices(f, i, i, h, 2);
    }
    forall j: nat | j < 2
      ensures UnitColumn(f, j, j)
    {
      forall h: nat | h < 2
        ensures f.b[OpIndex(false, 2, h, j)] == Delta(h, j)
      {
      }
    }
  }
}
