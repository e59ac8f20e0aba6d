/**
 * Complex matrix multiplication after xb_zgemm: as in Gemm, with real and imaginary parts interleaved and with
 * conjugation on request.
 */
module ComplexGemm {
  import opened Arithmetic
  import opened Strides
  import opened Gemm

  datatype Complex = Complex(re: real, im: real)

  const ZERO := Complex(0.0, 0.0)
  const ONE := Complex(1.0, 0.0)

  function Add(x: Complex, y: Complex): Complex {
    Complex(x.re + y.re, x.im + y.im)
  }

  function Mul(x: Complex, y: Complex): Complex {
    Complex(x.re * y.re - x.im * y.im, x.re * y.im + x.im * y.re)
  }

  function Conj(x: Complex): Complex {
    Complex(x.re, -x.im)
  }

  /** The x-th complex number of an interleaved array. */
  function At(s: seq<real>, x: nat): Complex
    requires 2 * x + 1 < |s|
  {
    Complex(s[2 * x], s[2 * x + 1])
  }

  /** The factors; indices count complex numbers. */
  datatype ZFactors = ZFactors(f: Factors, conjA: bool, conjB: bool)

  predicate ZFits(z: ZFactors) {
    && (forall i: nat, h: nat :: i < z.f.m && h < z.f.k ==> 2 * AIndex(z.f, i, h) + 1 < |z.f.a|)
    && (forall h: nat, j: nat :: h < z.f.k && j < z.f.n ==> 2 * BIndex(z.f, h, j) + 1 < |z.f.b|)
  }

  function OpA(z: ZFactors, i: nat, h: nat): Complex
    requires ZFits(z) && i < z.f.m && h < z.f.k
  {
    var x := At(z.f.a, AIndex(z.f, i, h));
    if z.conjA then Conj(x) else x
  }

  function OpB(z: ZFactors, h: nat, j: nat): Complex
    requires ZFits(z) && h < z.f.k && j < z.f.n
  {
    var x := At(z.f.b, BIndex(z.f, h, j));
    if z.conjB then Conj(x) else x
  }

  /** The sum of op(A)(i, h) * op(B)(h, j) over the first r values of h. */
  function ZDot(z: ZFactors, i: nat, j: nat, r: nat): Complex
    requires ZFits(z) && i < z.f.m && j < z.f.n && r <= z.f.k
  {
    if r == 0 then ZERO else Add(ZDot(z, i, j, r - 1), Mul(OpA(z, i, r - 1), OpB(z, r - 1, j)))
  }

  function ZEntry(z: ZFactors, alpha: Complex, beta: Complex, ldc: nat, was: seq<real>, x: nat): Complex
    requires ZFits(z) && 0 < ldc && 2 * x + 1 < |was|
  {
    if InPatch(z.f, ldc, x) then Add(Mul(ZDot(z, x % ldc, x / ldc, z.f.k), alpha), Mul(At(was, x), beta))
    else At(was, x)
  }

  /** An array of odd length has a last number that is no part of a complex one. */
  predicate SameTail(was: seq<real>, now: seq<real>) {
    |now| == |was| && (|was| % 2 == 1 ==> now[|was| - 1] == was[|was| - 1])
  }

  /** C has become alpha op(A) op(B) + beta C in the patch, and has not changed outside it. */
  ghost predicate ZUpdated(z: ZFactors, alpha: Complex, beta: Complex, ldc: nat, was: seq<real>, now: seq<real>)
    requires ZFits(z) && 0 < ldc
  {
    SameTail(was, now) && forall x: nat :: 2 * x + 1 < |was| ==> At(now, x) == ZEntry(z, alpha, beta, ldc, was, x)
  }

  predicate ZPatchFits(z: ZFactors, ldc: nat, length: nat) {
    && z.f.m <= ldc && 0 < ldc
    && forall i: nat, j: nat :: i < z.f.m && j < z.f.n ==> 2 * CIndex(ldc, i, j) + 1 < length
  }

  lemma ZPatchPositive(z: ZFactors, ldc: nat, length: nat)
    requires ZPatchFits(z, ldc, length)
    ensures 0 < ldc
  {
  }

  // ---------- the loops over the patch ----------

  ghost predicate ZPartly(z: ZFactors, alpha: Complex, beta: Complex, ldc: nat, was: seq<real>, now: seq<real>,
      i: nat, j: nat)
    requires ZFits(z) && 0 < ldc
  {
    && SameTail(was, now)
    && forall x: nat :: 2 * x + 1 < |was| ==>
        At(now, x) == if Done(z.f, ldc, x, i, j) then ZEntry(z, alpha, beta, ldc, was, x) else At(was, x)
  }

  lemma ZPartlyStart(z: ZFactors, alpha: Complex, beta: Complex, ldc: nat, was: seq<real>)
    requires ZFits(z) && 0 < ldc
    ensures ZPartly(z, alpha, beta, ldc, was, was, 0, 0)
  {
    hide At, ZEntry;
  }

  /** The element that the loops have come to is inside the array, and has not changed yet. */
  lemma ZInside(z: ZFactors, alpha: Complex, beta: Complex, ldc: nat, was: seq<real>, now: seq<real>, i: nat, j: nat)
    requires ZFits(z) && ZPatchFits(z, ldc, |was|) && ZPartly(z, alpha, beta, ldc, was, now, i, j) && i < z.f.m
    requires j < z.f.n
    ensures |now| == |was| && 2 * CIndex(ldc, i, j) + 1 < |was|
    ensures At(now, CIndex(ldc, i, j)) == At(was, CIndex(ldc, i, j))
    ensures At(now, CIndex(ldc, i, j)) == Complex(now[2 * CIndex(ldc, i, j)], now[2 * CIndex(ldc, i, j) + 1])
  {
    Place(ldc, i, j, CIndex(ldc, i, j));
    hide ZEntry;
  }

  lemma AtUpdated(s: seq<real>, y: nat, v: Complex, x: nat)
    requires 2 * y + 1 < |s| && 2 * x + 1 < |s|
    ensures At(s[2 * y := v.re][2 * y + 1 := v.im], x) == if x == y then v else At(s, x)
  {
  }

  /** One more element. */
  lemma ZPartlyStep(z: ZFactors, alpha: Complex, beta: Complex, ldc: nat, was: seq<real>, now: seq<real>, i: nat,
      j: nat, v: Complex)
    requires ZFits(z) && ZPatchFits(z, ldc, |was|) && ZPartly(z, alpha, beta, ldc, was, now, i, j) && i < z.f.m
    requires j < z.f.n
    requires 2 * CIndex(ldc, i, j) + 1 < |was| == |now|
    requires v == Add(Mul(ZDot(z, i, j, z.f.k), alpha), Mul(At(was, CIndex(ldc, i, j)), beta))
    ensures var y := 2 * CIndex(ldc, i, j);
      ZPartly(z, alpha, beta, ldc, was, now[y := v.re][y + 1 := v.im], i, j + 1)
  {
    hide At, Mul, Add, ZDot, CIndex, ZFits, ZPatchFits;
    var y := CIndex(ldc, i, j);
    ZPatchPositive(z, ldc, |was|);
    ZRow(z, ldc, |was|);
    Place(ldc, i, j, y);
    var next := now[2 * y := v.re][2 * y + 1 := v.im];
    forall x: nat | 2 * x + 1 < |was|
      ensures At(next, x) == if Done(z.f, ldc, x, i, j + 1) then ZEntry(z, alpha, beta, ldc, was, x) else At(was, x)
    {
      AtUpdated(now, y, v, x);
      Place(ldc, i, j, x);
    }
  }

  lemma ZRow(z: ZFactors, ldc: nat, length: nat)
    requires ZPatchFits(z, ldc, length)
    ensures z.f.m <= ldc
  {
  }

  lemma ZPartlyRow(z: ZFactors, alpha: Complex, beta: Complex, ldc: nat, was: seq<real>, now: seq<real>, i: nat)
    requires ZFits(z) && 0 < ldc && ZPartly(z, alpha, beta, ldc, was, now, i, z.f.n)
    ensures ZPartly(z, alpha, beta, ldc, was, now, i + 1, 0)
  {
    hide At, ZEntry;
    assert forall x: nat :: Done(z.f, ldc, x, i + 1, 0) == Done(z.f, ldc, x, i, z.f.n);
  }

  lemma ZPartlyEnd(z: ZFactors, alpha: Complex, beta: Complex, ldc: nat, was: seq<real>, now: seq<real>)
    requires ZFits(z) && 0 < ldc && ZPartly(z, alpha, beta, ldc, was, now, z.f.m, 0)
    ensures ZUpdated(z, alpha, beta, ldc, was, now)
  {
    hide At, Mul, Add, ZDot;
  }

  /** The innermost loop, on interleaved numbers. */
  method ZDotProduct(ghost z: ZFactors, k: nat, conjA: bool, conjB: bool, a: array<real>, b: array<real>,
      ai: nat, incaih: nat, bj: nat, incbhj: nat, ghost i: nat, ghost j: nat) returns (sum: Complex)
    requires ZFits(z) && k == z.f.k && conjA == z.conjA && conjB == z.conjB && a[..] == z.f.a && b[..] == z.f.b
    requires i < z.f.m && j < z.f.n
    requires ai == 2 * AIndex(z.f, i, 0) && incaih == 2 * (if z.f.transA then 1 else z.f.lda)
    requires bj == 2 * BIndex(z.f, 0, j) && incbhj == 2 * (if z.f.transB then z.f.ldb else 1)
    ensures sum == ZDot(z, i, j, z.f.k)
  {
    hide ZFits, Mul, AIndex, BIndex;
    sum := ZERO;
    var aih, bhj, h := ai, bj, 0;
    while h < k
      invariant 0 <= h <= k && aih == 2 * AIndex(z.f, i, h) && bhj == 2 * BIndex(z.f, h, j) && sum == ZDot(z, i, j, h)
    {
      ZInRange(z, i, j, h);
      NextIndex(z.f, i, j, h);
      var aElem, bElem := Complex(a[aih], a[aih + 1]), Complex(b[bhj], b[bhj + 1]);
      if conjA {
        aElem := Complex(aElem.re, -aElem.im);
      }
      if conjB {
        bElem := Complex(bElem.re, -bElem.im);
      }
      sum := Add(sum, Mul(aElem, bElem));
      h, aih, bhj := h + 1, aih + incaih, bhj + incbhj;
    }
  }

  lemma ZInRange(z: ZFactors, i: nat, j: nat, h: nat)
    requires ZFits(z) && i < z.f.m && j < z.f.n && h < z.f.k
    ensures 2 * AIndex(z.f, i, h) + 1 < |z.f.a| && 2 * BIndex(z.f, h, j) + 1 < |z.f.b|
  {
  }

  /** The increments, doubled for interleaved numbers. */
  predicate Doubled(f: Factors, incai: nat, incaih: nat, incbj: nat, incbhj: nat) {
    && incai == 2 * (if f.transA then f.lda else 1) && incaih == 2 * (if f.transA then 1 else f.lda)
    && incbj == 2 * (if f.transB then 1 else f.ldb) && incbhj == 2 * (if f.transB then f.ldb else 1)
  }

  // ---------- the special cases ----------

  lemma AlphaZero(s: Complex, t: Complex)
    ensures Add(Mul(s, ZERO), t) == t
  {
  }

  lemma AlphaOneBetaZero(s: Complex, c: Complex)
    ensures Add(Mul(s, ONE), Mul(c, ZERO)) == s
  {
  }

  lemma AlphaOne(s: Complex, t: Complex)
    ensures Add(Mul(s, ONE), t) == Add(t, s)
  {
  }

  // ---------- the four loop nests ----------

  /** alpha = 0: C is scaled. */
  method ZNestScale(ghost z: ZFactors, m: nat, n: nat, c: array<real>, ldc: nat, alpha: Complex, beta: Complex,
      incci: nat, inccij: nat)
    requires ZFits(z) && ZPatchFits(z, ldc, c.Length) && incci == 2 && inccij == 2 * ldc && alpha == ZERO
    requires m == z.f.m && n == z.f.n
    modifies c
    ensures ZUpdated(z, alpha, beta, ldc, old(c[..]), c[..])
  {
    hide ZFits, ZPatchFits, ZPartly, AIndex, BIndex, CIndex, ZDot, ZUpdated, Mul, At;
    ghost var was := c[..];
    ZPatchPositive(z, ldc, c.Length);
    ZPartlyStart(z, alpha, beta, ldc, was);
    FirstIndex(z.f, ldc);
    var ci, i := 0, 0;
    while i < m
      invariant 0 <= i <= m && ci == 2 * CIndex(ldc, i, 0)
      invariant ZPartly(z, alpha, beta, ldc, was, c[..], i, 0)
    {
      var cij, j := ci, 0;
      while j < n
        invariant 0 <= j <= n && cij == 2 * CIndex(ldc, i, j)
        invariant ZPartly(z, alpha, beta, ldc, was, c[..], i, j)
      {
        ghost var now := c[..];
        ZInside(z, alpha, beta, ldc, was, now, i, j);
        var tmp1 := Mul(Complex(c[cij], c[cij + 1]), beta);
        AlphaZero(ZDot(z, i, j, z.f.k), tmp1);
        ZPartlyStep(z, alpha, beta, ldc, was, now, i, j, tmp1);
        c[cij], c[cij + 1] := tmp1.re, tmp1.im;
        assert c[..] == now[cij := tmp1.re][cij + 1 := tmp1.im];
        NextC(ldc, i, j);
        j, cij := j + 1, cij + inccij;
      }
      ZPartlyRow(z, alpha, beta, ldc, was, c[..], i);
      NextC(ldc, i, 0);
      i, ci := i + 1, ci + incci;
    }
    ZPartlyEnd(z, alpha, beta, ldc, was, c[..]);
  }

  /** alpha = 1 and beta = 0: the product alone. */
  method ZNestProduct(ghost z: ZFactors, m: nat, n: nat, k: nat, conjA: bool, conjB: bool, a: array<real>,
      b: array<real>, c: array<real>, ldc: nat, alpha: Complex, beta: Complex, incci: nat, inccij: nat,
      incai: nat, incaih: nat, incbj: nat, incbhj: nat)
    requires ZFits(z) && ZPatchFits(z, ldc, c.Length) && incci == 2 && inccij == 2 * ldc && k == z.f.k
    requires conjA == z.conjA && conjB == z.conjB
    requires m == z.f.m && n == z.f.n && a != c && b != c && a[..] == z.f.a && b[..] == z.f.b && alpha == ONE
    requires beta == ZERO && Doubled(z.f, incai, incaih, incbj, incbhj)
    modifies c
    ensures ZUpdated(z, alpha, beta, ldc, old(c[..]), c[..])
  {
    hide ZFits, ZPatchFits, ZPartly, AIndex, BIndex, CIndex, ZDot, ZUpdated, Mul, At;
    ghost var was := c[..];
    ZPatchPositive(z, ldc, c.Length);
    ZPartlyStart(z, alpha, beta, ldc, was);
    FirstIndex(z.f, ldc);
    var ci, ai, i := 0, 0, 0;
    while i < m
      invariant 0 <= i <= m && ci == 2 * CIndex(ldc, i, 0) && ai == 2 * AIndex(z.f, i, 0) && a[..] == z.f.a
      invariant b[..] == z.f.b
      invariant ZPartly(z, alpha, beta, ldc, was, c[..], i, 0)
    {
      var cij, bj, j := ci, 0, 0;
      while j < n
        invariant 0 <= j <= n && cij == 2 * CIndex(ldc, i, j) && bj == 2 * BIndex(z.f, 0, j) && a[..] == z.f.a
        invariant b[..] == z.f.b
        invariant ZPartly(z, alpha, beta, ldc, was, c[..], i, j)
      {
        ghost var now := c[..];
        ZInside(z, alpha, beta, ldc, was, now, i, j);
        var tmp1 := ZDotProduct(z, k, conjA, conjB, a, b, ai, incaih, bj, incbhj, i, j);
        AlphaOneBetaZero(tmp1, At(was, CIndex(ldc, i, j)));
        ZPartlyStep(z, alpha, beta, ldc, was, now, i, j, tmp1);
        c[cij], c[cij + 1] := tmp1.re, tmp1.im;
        assert c[..] == now[cij := tmp1.re][cij + 1 := tmp1.im];
        NextC(ldc, i, j);
        NextIndex(z.f, i, j, 0);
        j, cij, bj := j + 1, cij + inccij, bj + incbj;
      }
      ZPartlyRow(z, alpha, beta, ldc, was, c[..], i);
      NextC(ldc, i, 0);
      NextIndex(z.f, i, 0, 0);
      i, ci, ai := i + 1, ci + incci, ai + incai;
    }
    ZPartlyEnd(z, alpha, beta, ldc, was, c[..]);
  }

  /** alpha = 1: the product is added to beta C. */
  method ZNestAccumulate(ghost z: ZFactors, m: nat, n: nat, k: nat, conjA: bool, conjB: bool, a: array<real>,
      b: array<real>, c: array<real>, ldc: nat, alpha: Complex, beta: Complex, incci: nat, inccij: nat,
      incai: nat, incaih: nat, incbj: nat, incbhj: nat)
    requires ZFits(z) && ZPatchFits(z, ldc, c.Length) && incci == 2 && inccij == 2 * ldc && k == z.f.k
    requires conjA == z.conjA && conjB == z.conjB
    requires m == z.f.m && n == z.f.n && a != c && b != c && a[..] == z.f.a && b[..] == z.f.b && alpha == ONE
    requires Doubled(z.f, incai, incaih, incbj, incbhj)
    modifies c
    ensures ZUpdated(z, alpha, beta, ldc, old(c[..]), c[..])
  {
    hide ZFits, ZPatchFits, ZPartly, AIndex, BIndex, CIndex, ZDot, ZUpdated, Mul, At;
    ghost var was := c[..];
    ZPatchPositive(z, ldc, c.Length);
    ZPartlyStart(z, alpha, beta, ldc, was);
    FirstIndex(z.f, ldc);
    var ci, ai, i := 0, 0, 0;
    while i < m
      invariant 0 <= i <= m && ci == 2 * CIndex(ldc, i, 0) && ai == 2 * AIndex(z.f, i, 0) && a[..] == z.f.a
      invariant b[..] == z.f.b
      invariant ZPartly(z, alpha, beta, ldc, was, c[..], i, 0)
    {
      var cij, bj, j := ci, 0, 0;
      while j < n
        invariant 0 <= j <= n && cij == 2 * CIndex(ldc, i, j) && bj == 2 * BIndex(z.f, 0, j) && a[..] == z.f.a
        invariant b[..] == z.f.b
        invariant ZPartly(z, alpha, beta, ldc, was, c[..], i, j)
      {
        ghost var now := c[..];
        ZInside(z, alpha, beta, ldc, was, now, i, j);
        var sum := ZDotProduct(z, k, conjA, conjB, a, b, ai, incaih, bj, incbhj, i, j);
        var tmp2 := Mul(Complex(c[cij], c[cij + 1]), beta);
        var tmp1 := Add(tmp2, sum);
        AlphaOne(sum, tmp2);
        ZPartlyStep(z, alpha, beta, ldc, was, now, i, j, tmp1);
        c[cij], c[cij + 1] := tmp1.re, tmp1.im;
        assert c[..] == now[cij := tmp1.re][cij + 1 := tmp1.im];
        NextC(ldc, i, j);
        NextIndex(z.f, i, j, 0);
        j, cij, bj := j + 1, cij + inccij, bj + incbj;
      }
      ZPartlyRow(z, alpha, beta, ldc, was, c[..], i);
      NextC(ldc, i, 0);
      NextIndex(z.f, i, 0, 0);
      i, ci, ai := i + 1, ci + incci, ai + incai;
    }
    ZPartlyEnd(z, alpha, beta, ldc, was, c[..]);
  }

  /** The most general form. */
  method ZNestGeneral(ghost z: ZFactors, m: nat, n: nat, k: nat, conjA: bool, conjB: bool, a: array<real>,
      b: array<real>, c: array<real>, ldc: nat, alpha: Complex, beta: Complex, incci: nat, inccij: nat,
      incai: nat, incaih: nat, incbj: nat, incbhj: nat)
    requires ZFits(z) && ZPatchFits(z, ldc, c.Length) && incci == 2 && inccij == 2 * ldc && k == z.f.k
    requires conjA == z.conjA && conjB == z.conjB
    requires m == z.f.m && n == z.f.n && a != c && b != c && a[..] == z.f.a && b[..] == z.f.b
    requires Doubled(z.f, incai, incaih, incbj, incbhj)
    modifies c
    ensures ZUpdated(z, alpha, beta, ldc, old(c[..]), c[..])
  {
    hide ZFits, ZPatchFits, ZPartly, AIndex, BIndex, CIndex, ZDot, ZUpdated, Mul, At;
    ghost var was := c[..];
    ZPatchPositive(z, ldc, c.Length);
    ZPartlyStart(z, alpha, beta, ldc, was);
    FirstIndex(z.f, ldc);
    var ci, ai, i := 0, 0, 0;
    while i < m
      invariant 0 <= i <= m && ci == 2 * CIndex(ldc, i, 0) && ai == 2 * AIndex(z.f, i, 0) && a[..] == z.f.a
      invariant b[..] == z.f.b
      invariant ZPartly(z, alpha, beta, ldc, was, c[..], i, 0)
    {
      var cij, bj, j := ci, 0, 0;
      while j < n
        invariant 0 <= j <= n && cij == 2 * CIndex(ldc, i, j) && bj == 2 * BIndex(z.f, 0, j) && a[..] == z.f.a
        invariant b[..] == z.f.b
        invariant ZPartly(z, alpha, beta, ldc, was, c[..], i, j)
      {
        ghost var now := c[..];
        ZInside(z, alpha, beta, ldc, was, now, i, j);
        var sum := ZDotProduct(z, k, conjA, conjB, a, b, ai, incaih, bj, incbhj, i, j);
        var tmp1 := Mul(sum, alpha);
        var tmp2 := Mul(Complex(c[cij], c[cij + 1]), beta);
        tmp1 := Add(tmp1, tmp2);
        ZPartlyStep(z, alpha, beta, ldc, was, now, i, j, tmp1);
        c[cij], c[cij + 1] := tmp1.re, tmp1.im;
        assert c[..] == now[cij := tmp1.re][cij + 1 := tmp1.im];
        NextC(ldc, i, j);
        NextIndex(z.f, i, j, 0);
        j, cij, bj := j + 1, cij + inccij, bj + incbj;
      }
      ZPartlyRow(z, alpha, beta, ldc, was, c[..], i);
      NextC(ldc, i, 0);
      NextIndex(z.f, i, 0, 0);
      i, ci, ai := i + 1, ci + incci, ai + incai;
    }
    ZPartlyEnd(z, alpha, beta, ldc, was, c[..]);
  }

  // ---------- the routine ----------

  /** Conjugate transposed? */
  predicate ConjTrans(trans: char) {
    trans == 'c' || trans == 'C'
  }

  /** The operands that the arguments describe. */
  function ZFactorsOf(transa: char, transb: char, m: int, n: int, k: int, lda: int, ldb: int, a: seq<real>,
      b: seq<real>): ZFactors
    requires 0 <= m && 0 <= n && 0 <= k && 0 <= lda && 0 <= ldb
  {
    ZFactors(FactorsOf(transa, transb, m, n, k, lda, ldb, a, b), ConjTrans(transa), ConjTrans(transb))
  }

  /** xb_zgemm */
  method Zgemm(transa: char, transb: char, m: int, n: int, k: int, alpha: Complex, a: array<real>, lda: int,
      b: array<real>, ldb: int, beta: Complex, c: array<real>, ldc: int)
    requires a != c && b != c
    requires Accepted(transa, transb, m, n, k, lda, ldb, ldc) ==>
      && ZFits(ZFactorsOf(transa, transb, m, n, k, lda, ldb, a[..], b[..]))
      && ZPatchFits(ZFactorsOf(transa, transb, m, n, k, lda, ldb, a[..], b[..]), ldc, c.Length)
    modifies c
    ensures !Accepted(transa, transb, m, n, k, lda, ldb, ldc) ==> c[..] == old(c[..])
    ensures Accepted(transa, transb, m, n, k, lda, ldb, ldc) ==>
      ZUpdated(ZFactorsOf(transa, transb, m, n, k, lda, ldb, a[..], b[..]), alpha, beta, ldc, old(c[..]), c[..])
  {
    hide ZFits, ZPatchFits, ZUpdated;
    if m <= 0 || n <= 0 || k <= 0 {
      return;
    }
    if ldc < m {
      return;
    }
    if NoTrans(transa) {
      if lda < m { return; }
    } else {
      if lda < k { return; }
    }
    if NoTrans(transb) {
      if ldb < k { return; }
    } else {
      if ldb < n { return; }
    }
    ghost var z := ZFactorsOf(transa, transb, m, n, k, lda, ldb, a[..], b[..]);
    if alpha == ZERO && beta == ONE {
      ZNothingToDo(z, ldc, c[..]);
      return;
    }
    var conjA, conjB := ConjTrans(transa), ConjTrans(transb);
    var incci, inccij := 2 * 1, 2 * ldc;
    var incai, incaih := 2 * (if NoTrans(transa) then 1 else lda), 2 * (if NoTrans(transa) then lda else 1);
    var incbj, incbhj := 2 * (if NoTrans(transb) then ldb else 1), 2 * (if NoTrans(transb) then 1 else ldb);
    if alpha == ZERO {
      ZNestScale(z, m, n, c, ldc, alpha, beta, incci, inccij);
    } else if alpha == ONE {
      if beta == ZERO {
        ZNestProduct(z, m, n, k, conjA, conjB, a, b, c, ldc, alpha, beta, incci, inccij, incai, incaih, incbj, incbhj);
      } else {
        ZNestAccumulate(z, m, n, k, conjA, conjB, a, b, c, ldc, alpha, beta, incci, inccij,
          incai, incaih, incbj, incbhj);
      }
    } else {
      ZNestGeneral(z, m, n, k, conjA, conjB, a, b, c, ldc, alpha, beta, incci, inccij, incai, incaih, incbj, incbhj);
    }
  }

  lemma ZNothingToDo(z: ZFactors, ldc: nat, was: seq<real>)
    requires ZFits(z) && 0 < ldc
    ensures ZUpdated(z, ZERO, ONE, ldc, was, was)
  {
    hide ZFits, ZDot, At, Add, Mul;
    forall x: nat | 2 * x + 1 < |was|
      ensures At(was, x) == ZEntry(z, ZERO, ONE, ldc, was, x)
    {
      if InPatch(z.f, ldc, x) {
        ZUnchanged(ZDot(z, x % ldc, x / ldc, z.f.k), At(was, x));
      }
    }
  }

  lemma ZUnchanged(d: Complex, v: Complex)
    ensures Add(Mul(d, ZERO), Mul(v, ONE)) == v
  {
    AlphaZero(d, Mul(v, ONE));
  }

  // ---------- k = 0 ----------

  /** Every element of the patch is zero. */
  ghost predicate ZPatchIsZero(z: ZFactors, ldc: nat, c: seq<real>)
    requires 0 < ldc
  {
    forall x: nat :: 2 * x + 1 < |c| && InPatch(z.f, ldc, x) ==> At(c, x) == ZERO
  }

  /** For k = 0, leaving C alone is the right result if and only if beta is 1 or the patch is zero. */
  lemma ZZeroDepth(z: ZFactors, alpha: Complex, beta: Complex, ldc: nat, was: seq<real>)
    requires ZFits(z) && z.f.k == 0 && 0 < ldc
    ensures ZUpdated(z, alpha, beta, ldc, was, was) <==> beta == ONE || ZPatchIsZero(z, ldc, was)
  {
    hide At;
    forall x: nat | 2 * x + 1 < |was|
      ensures At(was, x) == ZEntry(z, alpha, beta, ldc, was, x) <==>
        (InPatch(z.f, ldc, x) ==> beta == ONE || At(was, x) == ZERO)
    {
      if InPatch(z.f, ldc, x) {
        ZScaled(alpha, beta, At(was, x));
      }
    }
  }

  /** Multiplication by a number other than 1 changes every number but 0. */
  lemma ZScaled(alpha: Complex, beta: Complex, c: Complex)
    ensures Add(Mul(ZERO, alpha), Mul(c, beta)) == c <==> beta == ONE || c == ZERO
  {
    hide Mul, Add;
    MulZero(alpha, Mul(c, beta));
    if beta == ONE {
      MulOne(c);
    } else if c == ZERO {
      MulZero(beta, ZERO);
      MulNone(beta);
    } else if Mul(c, beta) == c {
      FixedPoint(c, beta);
    }
  }

  lemma MulNone(x: Complex)
    ensures Mul(ZERO, x) == ZERO
  {
  }

  lemma FixedPoint(c: Complex, beta: Complex)
    requires Mul(c, beta) == c
    ensures beta == ONE || c == ZERO
  {
    MinusOne(c.re, beta.re);
    MinusOne(c.im, beta.re);
    NormProduct(c.re, c.im, beta.re - 1.0, beta.im);
  }

  lemma MulZero(x: Complex, y: Complex)
    ensures Add(Mul(ZERO, x), y) == y
  {
  }

  lemma MulOne(c: Complex)
    ensures Mul(c, ONE) == c
  {
  }

  lemma MinusOne(x: real, b: real)
    ensures x * (b - 1.0) == x * b - x
  {
  }

  /** A product of complex numbers is zero only if one of them is. */
  lemma NormProduct(a: real, b: real, p: real, q: real)
    requires a * p - b * q == 0.0 && a * q + b * p == 0.0
    ensures (a == 0.0 && b == 0.0) || (p == 0.0 && q == 0.0)
  {
    if a != 0.0 || b != 0.0 {
      hide Norm;
      NormPositive(a, b);
      Eliminate(a, b, p, q);
      NoZeroDivisor(Norm(a, b), p);
      NoZeroDivisor(Norm(a, b), q);
    }
  }

  lemma Eliminate(a: real, b: real, p: real, q: real)
    requires a * p - b * q == 0.0 && a * q + b * p == 0.0
    ensures Norm(a, b) * p == 0.0 && Norm(a, b) * q == 0.0
  {
    Identity(a, b, p, q, a * p - b * q, a * q + b * p);
  }

  lemma Identity(a: real, b: real, p: real, q: real, u: real, w: real)
    requires u == a * p - b * q && w == a * q + b * p
    ensures Norm(a, b) * p == a * u + b * w
    ensures Norm(a, b) * q == a * w - b * u
  {
  }

  /** A product that proofs can hide. */
  function Times(a: real, b: real): real {
    a * b
  }

  function Square(a: real): real {
    Times(a, a)
  }

  function Norm(a: real, b: real): real {
    Square(a) + Square(b)
  }

  lemma NormPositive(a: real, b: real)
    requires a != 0.0 || b != 0.0
    ensures Norm(a, b) > 0.0
  {
    hide Square;
    SquarePositive(a);
    SquarePositive(b);
  }

  lemma SquarePositive(a: real)
    ensures Square(a) >= 0.0 && (a != 0.0 ==> Square(a) > 0.0)
  {
    hide Square;
    if a > 0.0 {
      SquareOfPositive(a);
    } else if a < 0.0 {
      SquareOfPositive(-a);
      SquareOfNegative(a);
    } else {
      SquareOfZero();
    }
  }

  lemma SquareOfPositive(a: real)
    requires a > 0.0
    ensures Square(a) > 0.0
  {
    hide Times;
    PositiveProduct(a, a);
  }

  lemma PositiveProduct(a: real, b: real)
    requires a > 0.0 && b > 0.0
    ensures Times(a, b) > 0.0
  {
  }

  lemma SquareOfNegative(a: real)
    ensures Square(-a) == Square(a)
  {
  }

  lemma SquareOfZero()
    ensures Square(0.0) == 0.0
  {
  }

  lemma NoZeroDivisor(n: real, p: real)
    requires n > 0.0 && n * p == 0.0
    ensures p == 0.0
  {
  }

  /** A 1 by 1 matrix that should have been cleared. */
  lemma ZZeroDepthLeavesC() returns (z: ZFactors, was: seq<real>)
    ensures z.f.m == 1 && z.f.n == 1 && z.f.k == 0 && ZFits(z) && ZPatchFits(z, 1, |was|)
    ensures !ZUpdated(z, ONE, ZERO, 1, was, was)
  {
    z, was := ZFactors(Factors(1, 1, 0, [], false, 1, [], false, 1), false, false), [1.0, 0.0];
    StartNone(1);
    assert InPatch(z.f, 1, 0) && At(was, 0) == ONE;
    ZZeroDepth(z, ONE, ZERO, 1, was);
  }

  /** Multiplying conjugated factors conjugates the product. */
  lemma {:induction false} ConjugateProduct(z: ZFactors, i: nat, j: nat, r: nat)
    requires ZFits(z) && i < z.f.m && j < z.f.n && r <= z.f.k
    ensures ZFits(z.(conjA := !z.conjA, conjB := !z.conjB))
    ensures ZDot(z.(conjA := !z.conjA, conjB := !z.conjB), i, j, r) == Conj(ZDot(z, i, j, r))
  {
    if r > 0 {
      ConjugateProduct(z, i, j, r - 1);
      ConjMul(OpA(z, i, r - 1), OpB(z, r - 1, j));
    }
  }

  lemma ConjMul(x: Complex, y: Complex)
    ensures Mul(Conj(x), Conj(y)) == Conj(Mul(x, y)) && Conj(Conj(x)) == x && Conj(Conj(y)) == y
  {
  }
}
