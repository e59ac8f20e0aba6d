/**
 * What the complex matrix product is, with every index and every real and imaginary part written out, as in
 * ProductLaws.
 */
module ComplexLaws {
  import opened Arithmetic
  import opened Gemm
  import opened ProductLaws
  import opened ComplexGemm

  /** Row r, column c of op applied to an interleaved matrix. */
  function OpAt(s: seq<real>, trans: bool, conj: bool, ld: nat, r: nat, c: nat): Complex
    requires 2 * OpIndex(trans, ld, r, c) + 1 < |s|
  {
    var x := 2 * OpIndex(trans, ld, r, c);
    Complex(s[x], if conj then -s[x + 1] else s[x + 1])
  }

  ghost predicate IsUnit(s: seq<real>, trans: bool, conj: bool, ld: nat, r: nat, c: nat, d: real) {
    2 * OpIndex(trans, ld, r, c) + 1 < |s| && OpAt(s, trans, conj, ld, r, c) == Complex(d, 0.0)
  }

  /** Column j of op(B) is 1 in row q and 0 elsewhere. */
  ghost predicate ZUnitColumn(z: ZFactors, j: nat, q: nat) {
    forall h: nat :: h < z.f.k ==> IsUnit(z.f.b, z.f.transB, z.conjB, z.f.ldb, h, j, Delta(h, q))
  }

  /** Row i of op(A) is 1 in column q and 0 elsewhere. */
  ghost predicate ZUnitRow(z: ZFactors, i: nat, q: nat) {
    forall h: nat :: h < z.f.k ==> IsUnit(z.f.a, z.f.transA, z.conjA, z.f.lda, i, h, Delta(h, q))
  }

  lemma Operands(z: ZFactors, i: nat, h: nat, j: nat)
    requires ZFits(z) && i < z.f.m && h < z.f.k && j < z.f.n
    ensures 2 * OpIndex(z.f.transA, z.f.lda, i, h) + 1 < |z.f.a| && 2 * OpIndex(z.f.transB, z.f.ldb, h, j) + 1 < |z.f.b|
    ensures OpA(z, i, h) == OpAt(z.f.a, z.f.transA, z.conjA, z.f.lda, i, h)
    ensures OpB(z, h, j) == OpAt(z.f.b, z.f.transB, z.conjB, z.f.ldb, h, j)
  {
    Indices(z.f, i, h, j, 0);
    ZInRange(z, i, j, h);
    hide ZFits, OpIndex, AIndex, BIndex;
  }

  lemma Units(x: Complex)
    ensures Mul(x, ZERO) == ZERO && Mul(ZERO, x) == ZERO && Mul(x, ONE) == x && Mul(ONE, x) == x
    ensures Add(x, ZERO) == x && Add(ZERO, x) == x
  {
  }

  lemma ZLastTerm(z: ZFactors, i: nat, j: nat, r: nat)
    requires ZFits(z) && i < z.f.m && j < z.f.n && 0 < r <= z.f.k
    ensures ZDot(z, i, j, r) == Add(ZDot(z, i, j, r - 1), Mul(OpA(z, i, r - 1), OpB(z, r - 1, j)))
  {
    hide ZFits, OpA, OpB, Add, Mul;
  }

  lemma ZNoTerms(z: ZFactors, i: nat, j: nat)
    requires ZFits(z) && i < z.f.m && j < z.f.n
    ensures ZDot(z, i, j, 0) == ZERO
  {
  }

  lemma {:induction false} ZDotUnitColumn(z: ZFactors, i: nat, j: nat, q: nat, r: nat)
    requires ZFits(z) && i < z.f.m && j < z.f.n && q < z.f.k && r <= z.f.k && ZUnitColumn(z, j, q)
    ensures ZDot(z, i, j, r) == if q < r then OpA(z, i, q) else ZERO
  {
    hide ZFits, OpA, OpB, Add, Mul, ZDot, OpIndex, OpAt;
    if r > 0 {
      ZDotUnitColumn(z, i, j, q, r - 1);
      ZLastTerm(z, i, j, r);
      Operands(z, i, r - 1, j);
      assert IsUnit(z.f.b, z.f.transB, z.conjB, z.f.ldb, r - 1, j, Delta(r - 1, q));
      Units(OpA(z, i, r - 1));
      Units(OpA(z, i, q));
      Units(ZERO);
    } else {
      ZNoTerms(z, i, j);
    }
  }

  lemma {:induction false} ZDotUnitRow(z: ZFactors, i: nat, j: nat, q: nat, r: nat)
    requires ZFits(z) && i < z.f.m && j < z.f.n && q < z.f.k && r <= z.f.k && ZUnitRow(z, i, q)
    ensures ZDot(z, i, j, r) == if q < r then OpB(z, q, j) else ZERO
  {
    hide ZFits, OpA, OpB, Add, Mul, ZDot, OpIndex, OpAt;
    if r > 0 {
      ZDotUnitRow(z, i, j, q, r - 1);
      ZLastTerm(z, i, j, r);
      Operands(z, i, r - 1, j);
      assert IsUnit(z.f.a, z.f.transA, z.conjA, z.f.lda, i, r - 1, Delta(r - 1, q));
      Units(OpB(z, r - 1, j));
      Units(OpB(z, q, j));
      Units(ZERO);
    } else {
      ZNoTerms(z, i, j);
    }
  }

  /** Entry (i, j) of the interleaved patch has become alpha p + beta C. */
  ghost predicate Becomes(alpha: Complex, beta: Complex, p: Complex, was: seq<real>, now: seq<real>, y: nat) {
    && y + 1 < |was| == |now|
    && now[y] == alpha.re * p.re - alpha.im * p.im + (beta.re * was[y] - beta.im * was[y + 1])
    && now[y + 1] == alpha.re * p.im + alpha.im * p.re + (beta.re * was[y + 1] + beta.im * was[y])
  }

  lemma ZInC(z: ZFactors, ldc: nat, length: nat, i: nat, j: nat)
    requires ZPatchFits(z, ldc, length) && i < z.f.m && j < z.f.n
    ensures 0 < ldc && i < ldc && 2 * CIndex(ldc, i, j) + 1 < length
  {
    hide CIndex;
  }

  lemma ZEntryIs(z: ZFactors, alpha: Complex, beta: Complex, ldc: nat, was: seq<real>, now: seq<real>, i: nat, j: nat)
    requires ZFits(z) && ZPatchFits(z, ldc, |was|) && ZUpdated(z, alpha, beta, ldc, was, now) && i < z.f.m && j < z.f.n
    ensures Becomes(alpha, beta, ZDot(z, i, j, z.f.k), was, now, 2 * OpIndex(false, ldc, i, j))
  {
    Indices(z.f, i, 0, j, ldc);
    ZInC(z, ldc, |was|, i, j);
    var y := CIndex(ldc, i, j);
    Place(ldc, i, j, y);
    hide ZFits, ZPatchFits, ZDot, OpIndex, CIndex, Add, Mul, At, Becomes;
    assert At(now, y) == ZEntry(z, alpha, beta, ldc, was, y);
    BecomesIs(alpha, beta, ZDot(z, i, j, z.f.k), was, now, y);
  }

  lemma BecomesIs(alpha: Complex, beta: Complex, p: Complex, was: seq<real>, now: seq<real>, y: nat)
    requires 2 * y + 1 < |was| == |now| && At(now, y) == Add(Mul(p, alpha), Mul(At(was, y), beta))
    ensures Becomes(alpha, beta, p, was, now, 2 * y)
  {
  }

  /** Where column j of op(B) is a unit vector, column j of the product is a column of op(A). */
  lemma ZPicksColumn(z: ZFactors, alpha: Complex, beta: Complex, ldc: nat, was: seq<real>, now: seq<real>,
      i: nat, j: nat, q: nat)
    requires ZFits(z) && ZPatchFits(z, ldc, |was|) && ZUpdated(z, alpha, beta, ldc, was, now)
    requires i < z.f.m && j < z.f.n && q < z.f.k && ZUnitColumn(z, j, q)
    ensures 2 * OpIndex(z.f.transA, z.f.lda, i, q) + 1 < |z.f.a|
    ensures Becomes(alpha, beta, OpAt(z.f.a, z.f.transA, z.conjA, z.f.lda, i, q), was, now,
      2 * OpIndex(false, ldc, i, j))
  {
    hide ZFits, ZPatchFits, ZUpdated, ZUnitColumn, Becomes, OpA, OpAt, OpIndex;
    ZEntryIs(z, alpha, beta, ldc, was, now, i, j);
    ZDotUnitColumn(z, i, j, q, z.f.k);
    Operands(z, i, q, j);
  }

  /** Where row i of op(A) is a unit vector, row i of the product is a row of op(B). */
  lemma ZPicksRow(z: ZFactors, alpha: Complex, beta: Complex, ldc: nat, was: seq<real>, now: seq<real>,
      i: nat, j: nat, q: nat)
    requires ZFits(z) && ZPatchFits(z, ldc, |was|) && ZUpdated(z, alpha, beta, ldc, was, now)
    requires i < z.f.m && j < z.f.n && q < z.f.k && ZUnitRow(z, i, q)
    ensures 2 * OpIndex(z.f.transB, z.f.ldb, q, j) + 1 < |z.f.b|
    ensures Becomes(alpha, beta, OpAt(z.f.b, z.f.transB, z.conjB, z.f.ldb, q, j), was, now,
      2 * OpIndex(false, ldc, i, j))
  {
    hide ZFits, ZPatchFits, ZUpdated, ZUnitRow, Becomes, OpB, OpAt, OpIndex;
    ZEntryIs(z, alpha, beta, ldc, was, now, i, j);
    ZDotUnitRow(z, i, j, q, z.f.k);
    Operands(z, i, q, j);
  }

  // ---------- linearity ----------

  lemma ZSameShape(z: ZFactors, y: ZFactors)
    requires ZFits(z) && y == z.(f := z.f.(a := y.f.a, b := y.f.b)) && |y.f.a| == |z.f.a| && |y.f.b| == |z.f.b|
    ensures ZFits(y) && forall i: nat, h: nat :: AIndex(y.f, i, h) == AIndex(z.f, i, h)
    ensures forall h: nat, j: nat :: BIndex(y.f, h, j) == BIndex(z.f, h, j)
  {
    assert forall i: nat, h: nat :: AIndex(y.f, i, h) == AIndex(z.f, i, h);
    assert forall h: nat, j: nat :: BIndex(y.f, h, j) == BIndex(z.f, h, j);
  }

  lemma ZFitsSame(z: ZFactors, y: ZFactors)
    requires ZFits(z) && y == z.(f := z.f.(a := y.f.a, b := y.f.b)) && |y.f.a| == |z.f.a| && |y.f.b| == |z.f.b|
    ensures ZFits(y)
  {
    ZSameShape(z, y);
  }

  lemma AddSums(d: Complex, e: Complex, t: Complex, x: Complex, y: Complex, b: Complex)
    requires t == Add(x, y)
    ensures Add(Add(d, e), Mul(t, b)) == Add(Add(d, Mul(x, b)), Add(e, Mul(y, b)))
    ensures Add(Add(d, e), Mul(b, t)) == Add(Add(d, Mul(b, x)), Add(e, Mul(b, y)))
  {
  }

  /** Operands of an array that is the sum of two. */
  lemma SumOperands(z: ZFactors, y: ZFactors, x: ZFactors, i: nat, h: nat, j: nat)
    requires ZFits(z) && ZFits(y) && ZFits(x) && i < z.f.m && h < z.f.k && j < z.f.n
    requires y == z.(f := z.f.(a := y.f.a, b := y.f.b)) && x == z.(f := z.f.(a := x.f.a, b := x.f.b))
    ensures IsSum(x.f.a, z.f.a, y.f.a) ==> OpA(x, i, h) == Add(OpA(z, i, h), OpA(y, i, h))
    ensures IsSum(x.f.b, z.f.b, y.f.b) ==> OpB(x, h, j) == Add(OpB(z, h, j), OpB(y, h, j))
    ensures y.f.a == z.f.a ==> OpA(y, i, h) == OpA(z, i, h)
    ensures y.f.b == z.f.b ==> OpB(y, h, j) == OpB(z, h, j)
  {
    Operands(z, i, h, j);
    Operands(y, i, h, j);
    Operands(x, i, h, j);
    hide ZFits, OpIndex, OpA, OpB;
  }

  /** The sums are additive in the first factor. */
  lemma {:induction false} ZSumOfFirst(z: ZFactors, y: ZFactors, x: ZFactors, i: nat, j: nat, r: nat)
    requires ZFits(z) && i < z.f.m && j < z.f.n && r <= z.f.k
    requires y == z.(f := z.f.(a := y.f.a)) && x == z.(f := z.f.(a := x.f.a)) && IsSum(x.f.a, z.f.a, y.f.a)
    ensures ZFits(y) && ZFits(x) && ZDot(x, i, j, r) == Add(ZDot(z, i, j, r), ZDot(y, i, j, r))
  {
    hide ZFits, OpA, OpB, Add, Mul, ZDot;
    ZFitsSame(z, y);
    ZFitsSame(z, x);
    hide IsSum;
    if r > 0 {
      ZSumOfFirst(z, y, x, i, j, r - 1);
      ZLastTerm(z, i, j, r);
      ZLastTerm(y, i, j, r);
      ZLastTerm(x, i, j, r);
      SumOperands(z, y, x, i, r - 1, j);
      SumOperands(z, x, x, i, r - 1, j);
      AddSums(ZDot(z, i, j, r - 1), ZDot(y, i, j, r - 1), OpA(x, i, r - 1), OpA(z, i, r - 1), OpA(y, i, r - 1),
        OpB(z, r - 1, j));
    } else {
      ZNoTerms(z, i, j);
      ZNoTerms(y, i, j);
      ZNoTerms(x, i, j);
      Units(ZERO);
    }
  }

  /** And in the second. */
  lemma {:induction false} ZSumOfSecond(z: ZFactors, y: ZFactors, x: ZFactors, i: nat, j: nat, r: nat)
    requires ZFits(z) && i < z.f.m && j < z.f.n && r <= z.f.k
    requires y == z.(f := z.f.(b := y.f.b)) && x == z.(f := z.f.(b := x.f.b)) && IsSum(x.f.b, z.f.b, y.f.b)
    ensures ZFits(y) && ZFits(x) && ZDot(x, i, j, r) == Add(ZDot(z, i, j, r), ZDot(y, i, j, r))
  {
    hide ZFits, OpA, OpB, Add, Mul, ZDot;
    ZFitsSame(z, y);
    ZFitsSame(z, x);
    hide IsSum;
    if r > 0 {
      ZSumOfSecond(z, y, x, i, j, r - 1);
      ZLastTerm(z, i, j, r);
      ZLastTerm(y, i, j, r);
      ZLastTerm(x, i, j, r);
      SumOperands(z, y, x, i, r - 1, j);
      SumOperands(z, x, x, i, r - 1, j);
      AddSums(ZDot(z, i, j, r - 1), ZDot(y, i, j, r - 1), OpB(x, r - 1, j), OpB(z, r - 1, j), OpB(y, r - 1, j),
        OpA(z, i, r - 1));
    } else {
      ZNoTerms(z, i, j);
      ZNoTerms(y, i, j);
      ZNoTerms(x, i, j);
      Units(ZERO);
    }
  }

  /** Every complex number of t is c times that of s. */
  ghost predicate IsComplexMultiple(t: seq<real>, c: Complex, s: seq<real>) {
    && |t| == |s|
    && forall x: nat :: 2 * x + 1 < |t| ==> At(t, x) == Mul(c, At(s, x))
  }

  lemma MultipleSums(c: Complex, d: Complex, x: Complex, b: Complex)
    ensures Add(Mul(c, d), Mul(Mul(c, x), b)) == Mul(c, Add(d, Mul(x, b)))
    ensures Add(Mul(c, d), Mul(b, Mul(c, x))) == Mul(c, Add(d, Mul(b, x)))
  {
    hide Add, Mul;
    Associates(c, x, b);
    Distributes(c, d, Mul(x, b));
    Commutes(b, x);
    Commutes(b, Mul(c, x));
  }

  lemma Associates(x: Complex, y: Complex, z: Complex)
    ensures Mul(Mul(x, y), z) == Mul(x, Mul(y, z))
  {
  }

  lemma Distributes(x: Complex, y: Complex, z: Complex)
    ensures Mul(x, Add(y, z)) == Add(Mul(x, y), Mul(x, z))
  {
  }

  lemma Commutes(x: Complex, y: Complex)
    ensures Mul(x, y) == Mul(y, x)
  {
  }

  lemma ConjProduct(c: Complex, x: Complex)
    ensures Conj(Mul(c, x)) == Mul(Conj(c), Conj(x))
  {
  }

  /** Multiplying the first factor by a number multiplies the sums by it, or by its conjugate if it is conjugated. */
  lemma {:induction false} ZMultipleOfFirst(z: ZFactors, x: ZFactors, c: Complex, i: nat, j: nat, r: nat)
    requires ZFits(z) && i < z.f.m && j < z.f.n && r <= z.f.k
    requires x == z.(f := z.f.(a := x.f.a)) && IsComplexMultiple(x.f.a, c, z.f.a)
    ensures ZFits(x) && ZDot(x, i, j, r) == Mul(if z.conjA then Conj(c) else c, ZDot(z, i, j, r))
  {
    ZSameShape(z, x);
    var d := if z.conjA then Conj(c) else c;
    hide ZFits, Add, Mul, Conj, ZDot, AIndex, BIndex, At;
    if r > 0 {
      ZMultipleOfFirst(z, x, c, i, j, r - 1);
      ZLastTerm(z, i, j, r);
      ZLastTerm(x, i, j, r);
      ZInRange(z, i, j, r - 1);
      ConjProduct(c, At(z.f.a, AIndex(z.f, i, r - 1)));
      MultipleSums(d, ZDot(z, i, j, r - 1), OpA(z, i, r - 1), OpB(z, r - 1, j));
    } else {
      ZNoTerms(z, i, j);
      ZNoTerms(x, i, j);
      Units(d);
    }
  }

  /** And the second. */
  lemma {:induction false} ZMultipleOfSecond(z: ZFactors, x: ZFactors, c: Complex, i: nat, j: nat, r: nat)
    requires ZFits(z) && i < z.f.m && j < z.f.n && r <= z.f.k
    requires x == z.(f := z.f.(b := x.f.b)) && IsComplexMultiple(x.f.b, c, z.f.b)
    ensures ZFits(x) && ZDot(x, i, j, r) == Mul(if z.conjB then Conj(c) else c, ZDot(z, i, j, r))
  {
    ZSameShape(z, x);
    var d := if z.conjB then Conj(c) else c;
    hide ZFits, Add, Mul, Conj, ZDot, AIndex, BIndex, At;
    if r > 0 {
      ZMultipleOfSecond(z, x, c, i, j, r - 1);
      ZLastTerm(z, i, j, r);
      ZLastTerm(x, i, j, r);
      ZInRange(z, i, j, r - 1);
      ConjProduct(c, At(z.f.b, BIndex(z.f, r - 1, j)));
      MultipleSums(d, ZDot(z, i, j, r - 1), OpB(z, r - 1, j), OpA(z, i, r - 1));
    } else {
      ZNoTerms(z, i, j);
      ZNoTerms(x, i, j);
      Units(d);
    }
  }

  // ---------- calls ----------

  /** A number times 1, with any letter: only c and C conjugate. */
  method CopyOne(letter: char) returns (c: array<real>)
    ensures fresh(c) && c[..] == if letter == 'c' || letter == 'C' then [2.0, -3.0] else [2.0, 3.0]
  {
    var a := new real[2] [2.0, 3.0];
    var b := new real[2] [1.0, 0.0];
    c := new real[2] [5.0, 5.0];
    ghost var was := c[..];
    ghost var z := ZFactorsOf(letter, 'N', 1, 1, 1, 1, 1, a[..], b[..]);
    OneByOne(z);
    Zgemm(letter, 'N', 1, 1, 1, ONE, a, 1, b, 1, ZERO, c, 1);
    ZPicksColumn(z, ONE, ZERO, 1, was, c[..], 0, 0, 0);
  }

  lemma OneByOne(z: ZFactors)
    requires z == ZFactors(Factors(1, 1, 1, z.f.a, z.f.transA, 1, z.f.b, false, 1), z.conjA, false)
    requires z.f.a == [2.0, 3.0] && z.f.b == [1.0, 0.0]
    ensures ZFits(z) && ZPatchFits(z, 1, 2) && ZUnitColumn(z, 0, 0)
    ensures OpIndex(z.f.transA, 1, 0, 0) == 0 && OpIndex(false, 1, 0, 0) == 0
  {
    Indices(z.f, 0, 0, 0, 1);
    forall h: nat | h < 1
      ensures IsUnit(z.f.b, false, false, 1, h, 0, Delta(h, 0))
    {
    }
  }
}
