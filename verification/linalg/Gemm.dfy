/** Real matrix multiplication, C <- alpha op(A) op(B) + beta C, after xb_dgemm (LinAlg/lapack+blas/xgemm.c). */
module Gemm {
  import opened Arithmetic
  import opened Strides

  /** Two matrices in column-major order, with their sizes and leading dimensions: op(A) is m by k, op(B) is k by n. */
  datatype Factors = Factors(
    m: nat, n: nat, k: nat, a: seq<real>, transA: bool, lda: nat, b: seq<real>, transB: bool, ldb: nat)

  /** Index of op(A)(i, h). */
  function AIndex(f: Factors, i: nat, h: nat): nat {
    if f.transA then Start(i, f.lda) + h else i + Start(h, f.lda)
  }

  /** Index of op(B)(h, j). */
  function BIndex(f: Factors, h: nat, j: nat): nat {
    if f.transB then Start(h, f.ldb) + j else h + Start(j, f.ldb)
  }

  /** Every element of op(A) and op(B) is inside its array. */
  predicate Fits(f: Factors) {
    && (forall i: nat, h: nat :: i < f.m && h < f.k ==> AIndex(f, i, h) < |f.a|)
    && (forall h: nat, j: nat :: h < f.k && j < f.n ==> BIndex(f, h, j) < |f.b|)
  }

  /** The sum of op(A)(i, h) * op(B)(h, j) over the first r values of h. */
  function Dot(f: Factors, i: nat, j: nat, r: nat): real
    requires Fits(f) && i < f.m && j < f.n && r <= f.k
  {
    if r == 0 then 0.0 else Dot(f, i, j, r - 1) + f.a[AIndex(f, i, r - 1)] * f.b[BIndex(f, r - 1, j)]
  }

  /** x is the index of an element of the m by n patch of C. */
  predicate InPatch(f: Factors, ldc: nat, x: nat)
    requires 0 < ldc
  {
    x % ldc < f.m && x / ldc < f.n
  }

  /** What the entry at x should become. */
  function Entry(f: Factors, alpha: real, beta: real, ldc: nat, was: seq<real>, x: nat): real
    requires Fits(f) && 0 < ldc && x < |was|
  {
    if InPatch(f, ldc, x) then alpha * Dot(f, x % ldc, x / ldc, f.k) + beta * was[x] else was[x]
  }

  /** C has become alpha op(A) op(B) + beta C in the patch, and has not changed outside it. */
  ghost predicate Updated(f: Factors, alpha: real, beta: real, ldc: nat, was: seq<real>, now: seq<real>)
    requires Fits(f) && 0 < ldc
  {
    |now| == |was| && forall x :: 0 <= x < |was| ==> now[x] == Entry(f, alpha, beta, ldc, was, x)
  }

  /** The whole patch is inside an array of the given length. */
  predicate PatchFits(f: Factors, ldc: nat, length: nat) {
    && f.m <= ldc && 0 < ldc
    && forall i: nat, j: nat :: i < f.m && j < f.n ==> CIndex(ldc, i, j) < length
  }

  function CIndex(ldc: nat, i: nat, j: nat): nat {
    i + Start(j, ldc)
  }

  // ---------- the loops over the patch ----------

  /** The loops have dealt with element x before they come to row i, column j. */
  predicate Done(f: Factors, ldc: nat, x: nat, i: nat, j: nat)
    requires 0 < ldc
  {
    InPatch(f, ldc, x) && (x % ldc < i || (x % ldc == i && x / ldc < j))
  }

  ghost predicate Partly(f: Factors, alpha: real, beta: real, ldc: nat, was: seq<real>, now: seq<real>, i: nat, j: nat)
    requires Fits(f) && 0 < ldc
  {
    && |now| == |was|
    && forall x :: 0 <= x < |was| ==>
        now[x] == if Done(f, ldc, x, i, j) then Entry(f, alpha, beta, ldc, was, x) else was[x]
  }

  lemma Place(ldc: nat, i: nat, j: nat, x: nat)
    requires i < ldc
    ensures x == CIndex(ldc, i, j) <==> x % ldc == i && x / ldc == j
  {
    if x == CIndex(ldc, i, j) {
      ModUnique(x, ldc, j, i);
    }
  }

  lemma PartlyStart(f: Factors, alpha: real, beta: real, ldc: nat, was: seq<real>)
    requires Fits(f) && 0 < ldc
    ensures Partly(f, alpha, beta, ldc, was, was, 0, 0)
  {
  }

  /** One more element. */
  lemma PartlyStep(f: Factors, alpha: real, beta: real, ldc: nat, was: seq<real>, now: seq<real>, i: nat, j: nat,
      v: real)
    requires Fits(f) && PatchFits(f, ldc, |was|) && Partly(f, alpha, beta, ldc, was, now, i, j) && i < f.m && j < f.n
    ensures CIndex(ldc, i, j) < |was| && now[CIndex(ldc, i, j)] == was[CIndex(ldc, i, j)]
    ensures v == alpha * Dot(f, i, j, f.k) + beta * was[CIndex(ldc, i, j)] ==>
      Partly(f, alpha, beta, ldc, was, now[CIndex(ldc, i, j) := v], i, j + 1)
  {
    var y := CIndex(ldc, i, j);
    Place(ldc, i, j, y);
    forall x | 0 <= x < |was| && x != y
      ensures Done(f, ldc, x, i, j + 1) == Done(f, ldc, x, i, j)
    {
      Place(ldc, i, j, x);
    }
    hide CIndex, PatchFits;
  }

  /** The next row. */
  lemma PartlyRow(f: Factors, alpha: real, beta: real, ldc: nat, was: seq<real>, now: seq<real>, i: nat)
    requires Fits(f) && 0 < ldc && Partly(f, alpha, beta, ldc, was, now, i, f.n)
    ensures Partly(f, alpha, beta, ldc, was, now, i + 1, 0)
  {
    assert forall x: nat :: Done(f, ldc, x, i + 1, 0) == Done(f, ldc, x, i, f.n);
  }

  lemma PartlyEnd(f: Factors, alpha: real, beta: real, ldc: nat, was: seq<real>, now: seq<real>)
    requires Fits(f) && 0 < ldc && Partly(f, alpha, beta, ldc, was, now, f.m, 0)
    ensures Updated(f, alpha, beta, ldc, was, now)
  {
  }

  /** The innermost loop: steps through row i of op(A) and column j of op(B). */
  method DotProduct(ghost f: Factors, k: nat, a: array<real>, b: array<real>, ai: nat, incaih: nat, bj: nat,
      incbhj: nat, ghost i: nat, ghost j: nat)
    returns (sum: real)
    requires Fits(f) && k == f.k && a[..] == f.a && b[..] == f.b && i < f.m && j < f.n
    requires ai == AIndex(f, i, 0) && incaih == (if f.transA then 1 else f.lda)
    requires bj == BIndex(f, 0, j) && incbhj == (if f.transB then f.ldb else 1)
    ensures sum == Dot(f, i, j, f.k)
  {
    hide Fits, Start;
    sum := 0.0;
    var aih, bhj, h := ai, bj, 0;
    while h < k
      invariant 0 <= h <= f.k && aih == AIndex(f, i, h) && bhj == BIndex(f, h, j) && sum == Dot(f, i, j, h)
    {
      InRange(f, i, j, h);
      NextIndex(f, i, j, h);
      var prod := a[aih] * b[bhj];
      sum := sum + prod;
      h, aih, bhj := h + 1, aih + incaih, bhj + incbhj;
    }
  }

  lemma InRange(f: Factors, i: nat, j: nat, h: nat)
    requires Fits(f) && i < f.m && j < f.n && h < f.k
    ensures AIndex(f, i, h) < |f.a| && BIndex(f, h, j) < |f.b|
  {
  }

  /** How the running indices move. */
  lemma NextIndex(f: Factors, i: nat, j: nat, h: nat)
    ensures AIndex(f, i, h + 1) == AIndex(f, i, h) + (if f.transA then 1 else f.lda)
    ensures BIndex(f, h + 1, j) == BIndex(f, h, j) + (if f.transB then f.ldb else 1)
    ensures AIndex(f, i + 1, h) == AIndex(f, i, h) + (if f.transA then f.lda else 1)
    ensures BIndex(f, h, j + 1) == BIndex(f, h, j) + (if f.transB then 1 else f.ldb)
  {
    StartNext(i, f.lda);
    StartNext(h, f.lda);
    StartNext(h, f.ldb);
    StartNext(j, f.ldb);
  }

  lemma FirstIndex(f: Factors, ldc: nat)
    ensures AIndex(f, 0, 0) == 0 && BIndex(f, 0, 0) == 0 && CIndex(ldc, 0, 0) == 0
  {
  }

  lemma NextC(ldc: nat, i: nat, j: nat)
    ensures CIndex(ldc, i, j + 1) == CIndex(ldc, i, j) + ldc && CIndex(ldc, i + 1, j) == CIndex(ldc, i, j) + 1
    ensures CIndex(ldc, i, 0) == i
  {
    StartNext(j, ldc);
    StartNone(ldc);
  }

  /** The increments of the running indices, for column-major storage. */
  predicate Increments(f: Factors, incai: nat, incaih: nat, incbj: nat, incbhj: nat) {
    && incai == (if f.transA then f.lda else 1) && incaih == (if f.transA then 1 else f.lda)
    && incbj == (if f.transB then 1 else f.ldb) && incbhj == (if f.transB then f.ldb else 1)
  }

  lemma PatchPositive(f: Factors, ldc: nat, length: nat)
    requires PatchFits(f, ldc, length)
    ensures 0 < ldc
  {
  }

  /** The element that the loops have come to is inside the array, and has not changed yet. */
  lemma CInside(f: Factors, ldc: nat, was: seq<real>, now: seq<real>, alpha: real, beta: real, i: nat, j: nat)
    requires Fits(f) && PatchFits(f, ldc, |was|) && Partly(f, alpha, beta, ldc, was, now, i, j) && i < f.m && j < f.n
    ensures |now| == |was| && CIndex(ldc, i, j) < |was| && now[CIndex(ldc, i, j)] == was[CIndex(ldc, i, j)]
  {
    PartlyStep(f, alpha, beta, ldc, was, now, i, j, 0.0);
  }

  // ---------- the four loop nests ----------

  /** alpha = 0: C is scaled. */
  method NestScale(ghost f: Factors, m: nat, n: nat, c: array<real>, ldc: nat, alpha: real, beta: real)
    requires Fits(f) && PatchFits(f, ldc, c.Length) && m == f.m && n == f.n && alpha == 0.0
    modifies c
    ensures Updated(f, alpha, beta, ldc, old(c[..]), c[..])
  {
    hide Fits, PatchFits, Partly, AIndex, BIndex, CIndex, Dot, Updated;
    ghost var was := c[..];
    PatchPositive(f, ldc, c.Length);
    PartlyStart(f, alpha, beta, ldc, was);
    FirstIndex(f, ldc);
    var ci, i := 0, 0;
    while i < m
      invariant 0 <= i <= f.m && ci == CIndex(ldc, i, 0)
      invariant Partly(f, alpha, beta, ldc, was, c[..], i, 0)
    {
      var cij, j := ci, 0;
      while j < n
        invariant 0 <= j <= f.n && cij == CIndex(ldc, i, j)
        invariant Partly(f, alpha, beta, ldc, was, c[..], i, j)
      {
        ghost var now := c[..];
        CInside(f, ldc, was, now, alpha, beta, i, j);
        var tmp1 := c[cij] * beta;
        PartlyStep(f, alpha, beta, ldc, was, now, i, j, tmp1);
        c[cij] := tmp1;
        assert c[..] == now[cij := tmp1];
        NextC(ldc, i, j);
        j, cij := j + 1, cij + ldc;
      }
      PartlyRow(f, alpha, beta, ldc, was, c[..], i);
      NextC(ldc, i, 0);
      i, ci := i + 1, ci + 1;
    }
    PartlyEnd(f, alpha, beta, ldc, was, c[..]);
  }

  /** alpha = 1 and beta = 0: the product alone. */
  method NestProduct(ghost f: Factors, m: nat, n: nat, k: nat, a: array<real>, b: array<real>, c: array<real>,
      ldc: nat, alpha: real, beta: real, incai: nat, incaih: nat, incbj: nat, incbhj: nat)
    requires Fits(f) && PatchFits(f, ldc, c.Length) && m == f.m && n == f.n && k == f.k
    requires a != c && b != c && a[..] == f.a && b[..] == f.b && alpha == 1.0 && beta == 0.0
    requires Increments(f, incai, incaih, incbj, incbhj)
    modifies c
    ensures Updated(f, alpha, beta, ldc, old(c[..]), c[..])
  {
    hide Fits, PatchFits, Partly, AIndex, BIndex, CIndex, Dot, Updated;
    ghost var was := c[..];
    PatchPositive(f, ldc, c.Length);
    PartlyStart(f, alpha, beta, ldc, was);
    FirstIndex(f, ldc);
    var ci, ai, i := 0, 0, 0;
    while i < m
      invariant 0 <= i <= f.m && ci == CIndex(ldc, i, 0) && ai == AIndex(f, i, 0) && a[..] == f.a && b[..] == f.b
      invariant Partly(f, alpha, beta, ldc, was, c[..], i, 0)
    {
      var cij, bj, j := ci, 0, 0;
      while j < n
        invariant 0 <= j <= f.n && cij == CIndex(ldc, i, j) && bj == BIndex(f, 0, j) && a[..] == f.a && b[..] == f.b
        invariant Partly(f, alpha, beta, ldc, was, c[..], i, j)
      {
        ghost var now := c[..];
        CInside(f, ldc, was, now, alpha, beta, i, j);
        var tmp1 := DotProduct(f, k, a, b, ai, incaih, bj, incbhj, i, j);
        PartlyStep(f, alpha, beta, ldc, was, now, i, j, tmp1);
        c[cij] := tmp1;
        assert c[..] == now[cij := tmp1];
        NextC(ldc, i, j);
        NextIndex(f, i, j, 0);
        j, cij, bj := j + 1, cij + ldc, bj + incbj;
      }
      PartlyRow(f, alpha, beta, ldc, was, c[..], i);
      NextC(ldc, i, 0);
      NextIndex(f, i, 0, 0);
      i, ci, ai := i + 1, ci + 1, ai + incai;
    }
    PartlyEnd(f, alpha, beta, ldc, was, c[..]);
  }

  /** alpha = 1: the product is added to beta C. */
  method NestAccumulate(ghost f: Factors, m: nat, n: nat, k: nat, a: array<real>, b: array<real>, c: array<real>,
      ldc: nat, alpha: real, beta: real, incai: nat, incaih: nat, incbj: nat, incbhj: nat)
    requires Fits(f) && PatchFits(f, ldc, c.Length) && m == f.m && n == f.n && k == f.k
    requires a != c && b != c && a[..] == f.a && b[..] == f.b && alpha == 1.0
    requires Increments(f, incai, incaih, incbj, incbhj)
    modifies c
    ensures Updated(f, alpha, beta, ldc, old(c[..]), c[..])
  {
    hide Fits, PatchFits, Partly, AIndex, BIndex, CIndex, Dot, Updated;
    ghost var was := c[..];
    PatchPositive(f, ldc, c.Length);
    PartlyStart(f, alpha, beta, ldc, was);
    FirstIndex(f, ldc);
    var ci, ai, i := 0, 0, 0;
    while i < m
      invariant 0 <= i <= f.m && ci == CIndex(ldc, i, 0) && ai == AIndex(f, i, 0) && a[..] == f.a && b[..] == f.b
      invariant Partly(f, alpha, beta, ldc, was, c[..], i, 0)
    {
      var cij, bj, j := ci, 0, 0;
      while j < n
        invariant 0 <= j <= f.n && cij == CIndex(ldc, i, j) && bj == BIndex(f, 0, j) && a[..] == f.a && b[..] == f.b
        invariant Partly(f, alpha, beta, ldc, was, c[..], i, j)
      {
        ghost var now := c[..];
        CInside(f, ldc, was, now, alpha, beta, i, j);
        var sum := DotProduct(f, k, a, b, ai, incaih, bj, incbhj, i, j);
        var tmp2 := c[cij] * beta;
        var tmp1 := tmp2 + sum;
        PartlyStep(f, alpha, beta, ldc, was, now, i, j, tmp1);
        c[cij] := tmp1;
        assert c[..] == now[cij := tmp1];
        NextC(ldc, i, j);
        NextIndex(f, i, j, 0);
        j, cij, bj := j + 1, cij + ldc, bj + incbj;
      }
      PartlyRow(f, alpha, beta, ldc, was, c[..], i);
      NextC(ldc, i, 0);
      NextIndex(f, i, 0, 0);
      i, ci, ai := i + 1, ci + 1, ai + incai;
    }
    PartlyEnd(f, alpha, beta, ldc, was, c[..]);
  }

  /** The most general form. */
  method NestGeneral(ghost f: Factors, m: nat, n: nat, k: nat, a: array<real>, b: array<real>, c: array<real>,
      ldc: nat, alpha: real, beta: real, incai: nat, incaih: nat, incbj: nat, incbhj: nat)
    requires Fits(f) && PatchFits(f, ldc, c.Length) && m == f.m && n == f.n && k == f.k
    requires a != c && b != c && a[..] == f.a && b[..] == f.b && Increments(f, incai, incaih, incbj, incbhj)
    modifies c
    ensures Updated(f, alpha, beta, ldc, old(c[..]), c[..])
  {
    hide Fits, PatchFits, Partly, AIndex, BIndex, CIndex, Dot, Updated;
    ghost var was := c[..];
    PatchPositive(f, ldc, c.Length);
    PartlyStart(f, alpha, beta, ldc, was);
    FirstIndex(f, ldc);
    var ci, ai, i := 0, 0, 0;
    while i < m
      invariant 0 <= i <= f.m && ci == CIndex(ldc, i, 0) && ai == AIndex(f, i, 0) && a[..] == f.a && b[..] == f.b
      invariant Partly(f, alpha, beta, ldc, was, c[..], i, 0)
    {
      var cij, bj, j := ci, 0, 0;
      while j < n
        invariant 0 <= j <= f.n && cij == CIndex(ldc, i, j) && bj == BIndex(f, 0, j) && a[..] == f.a && b[..] == f.b
        invariant Partly(f, alpha, beta, ldc, was, c[..], i, j)
      {
        ghost var now := c[..];
        CInside(f, ldc, was, now, alpha, beta, i, j);
        var sum := DotProduct(f, k, a, b, ai, incaih, bj, incbhj, i, j);
        var tmp1 := sum * alpha;
        var tmp2 := c[cij] * beta;
        tmp1 := tmp1 + tmp2;
        PartlyStep(f, alpha, beta, ldc, was, now, i, j, tmp1);
        c[cij] := tmp1;
        assert c[..] == now[cij := tmp1];
        NextC(ldc, i, j);
        NextIndex(f, i, j, 0);
        j, cij, bj := j + 1, cij + ldc, bj + incbj;
      }
      PartlyRow(f, alpha, beta, ldc, was, c[..], i);
      NextC(ldc, i, 0);
      NextIndex(f, i, 0, 0);
      i, ci, ai := i + 1, ci + 1, ai + incai;
    }
    PartlyEnd(f, alpha, beta, ldc, was, c[..]);
  }

  // ---------- the routine ----------

  /** Not transposed? */
  predicate NoTrans(trans: char) {
    trans == 'n' || trans == 'N'
  }

  /** The sizes and leading dimensions that the routine accepts. */
  predicate Accepted(transa: char, transb: char, m: int, n: int, k: int, lda: int, ldb: int, ldc: int) {
    && 0 < m && 0 < n && 0 < k && m <= ldc
    && (if NoTrans(transa) then m <= lda else k <= lda)
    && (if NoTrans(transb) then k <= ldb else n <= ldb)
  }

  /** The operands that the arguments describe. */
  function FactorsOf(transa: char, transb: char, m: int, n: int, k: int, lda: int, ldb: int, a: seq<real>,
      b: seq<real>): Factors
    requires 0 <= m && 0 <= n && 0 <= k && 0 <= lda && 0 <= ldb
  {
    Factors(m, n, k, a, !NoTrans(transa), lda, b, !NoTrans(transb), ldb)
  }

  /** xb_dgemm */
  method Dgemm(transa: char, transb: char, m: int, n: int, k: int, alpha: real, a: array<real>, lda: int,
      b: array<real>, ldb: int, beta: real, c: array<real>, ldc: int)
    requires a != c && b != c
    requires Accepted(transa, transb, m, n, k, lda, ldb, ldc) ==>
      && Fits(FactorsOf(transa, transb, m, n, k, lda, ldb, a[..], b[..]))
      && PatchFits(FactorsOf(transa, transb, m, n, k, lda, ldb, a[..], b[..]), ldc, c.Length)
    modifies c
    ensures !Accepted(transa, transb, m, n, k, lda, ldb, ldc) ==> c[..] == old(c[..])
    ensures Accepted(transa, transb, m, n, k, lda, ldb, ldc) ==>
      Updated(FactorsOf(transa, transb, m, n, k, lda, ldb, a[..], b[..]), alpha, beta, ldc, old(c[..]), c[..])
  {
    hide Fits, PatchFits, Updated;
    if m <= 0 || n <= 0 || k <= 0 {
      return;
    }
    if ldc < m {
      return;
    }
    if NoTrans(transa) {
      if lda < m { return; }
    } else {
      if lda < k { return; }
    }
    if NoTrans(transb) {
      if ldb < k { return; }
    } else {
      if ldb < n { return; }
    }
    ghost var f := FactorsOf(transa, transb, m, n, k, lda, ldb, a[..], b[..]);
    if alpha == 0.0 && beta == 1.0 {
      NothingToDo(f, ldc, c[..]);
      return;
    }
    var incai, incaih := if NoTrans(transa) then 1 else lda, if NoTrans(transa) then lda else 1;
    var incbj, incbhj := if NoTrans(transb) then ldb else 1, if NoTrans(transb) then 1 else ldb;
    if alpha == 0.0 {
      NestScale(f, m, n, c, ldc, alpha, beta);
    } else if alpha == 1.0 {
      if beta == 0.0 {
        NestProduct(f, m, n, k, a, b, c, ldc, alpha, beta, incai, incaih, incbj, incbhj);
      } else {
        NestAccumulate(f, m, n, k, a, b, c, ldc, alpha, beta, incai, incaih, incbj, incbhj);
      }
    } else {
      NestGeneral(f, m, n, k, a, b, c, ldc, alpha, beta, incai, incaih, incbj, incbhj);
    }
  }

  lemma NothingToDo(f: Factors, ldc: nat, was: seq<real>)
    requires Fits(f) && 0 < ldc
    ensures Updated(f, 0.0, 1.0, ldc, was, was)
  {
    hide Fits, Dot;
  }

  // ---------- k = 0 ----------

  /** Every element of the patch is zero. */
  predicate PatchIsZero(f: Factors, ldc: nat, c: seq<real>)
    requires 0 < ldc
  {
    forall x :: 0 <= x < |c| && InPatch(f, ldc, x) ==> c[x] == 0.0
  }

  /**
   * For k = 0 the routine returns at once. Leaving C alone is the right result if and only if there is nothing to
   * scale: beta is 1, or the patch is zero.
   */
  lemma ZeroDepth(f: Factors, alpha: real, beta: real, ldc: nat, was: seq<real>)
    requires Fits(f) && f.k == 0 && 0 < ldc
    ensures Updated(f, alpha, beta, ldc, was, was) <==> beta == 1.0 || PatchIsZero(f, ldc, was)
  {
    forall x | 0 <= x < |was|
      ensures was[x] == Entry(f, alpha, beta, ldc, was, x) <==>
        (InPatch(f, ldc, x) ==> beta == 1.0 || was[x] == 0.0)
    {
      if InPatch(f, ldc, x) {
        Scaled(alpha, beta, was[x]);
      }
    }
  }

  lemma Scaled(alpha: real, beta: real, c: real)
    ensures c == alpha * 0.0 + beta * c <==> beta == 1.0 || c == 0.0
  {
    assert beta * c - c == (beta - 1.0) * c;
  }

  /** A 1 by 1 matrix that should have been cleared. */
  lemma ZeroDepthLeavesC() returns (f: Factors, was: seq<real>)
    ensures f.m == 1 && f.n == 1 && f.k == 0 && Fits(f) && PatchFits(f, 1, |was|)
    ensures !Updated(f, 1.0, 0.0, 1, was, was)
  {
    f, was := Factors(1, 1, 0, [], false, 1, [], false, 1), [1.0];
    StartNone(1);
    assert InPatch(f, 1, 0) && was[0] == 1.0;
    ZeroDepth(f, 1.0, 0.0, 1, was);
  }

  /** The factors of the transposed product: op(B) transposed times op(A) transposed. */
  function Swapped(f: Factors): Factors {
    Factors(f.n, f.m, f.k, f.b, !f.transB, f.ldb, f.a, !f.transA, f.lda)
  }

  /** The product of the swapped and transposed factors is the transposed product. */
  lemma {:induction false} ProductTransposes(f: Factors, i: nat, j: nat, r: nat)
    requires Fits(f) && i < f.m && j < f.n && r <= f.k
    ensures Fits(Swapped(f)) && Dot(Swapped(f), j, i, r) == Dot(f, i, j, r)
  {
    var g := Swapped(f);
    assert forall x: nat, h: nat :: AIndex(g, x, h) == BIndex(f, h, x);
    assert forall h: nat, x: nat :: BIndex(g, h, x) == AIndex(f, x, h);
    if r > 0 {
      ProductTransposes(f, i, j, r - 1);
    }
  }
}
