/**
 * The period of the trinomials: the lowest bits of the values repeat after 2^deg - 1 of them, for each of the four
 * generators of compat/random.c.
 */
module Period {
  import opened Arithmetic
  import opened Trinomial

  /** Places x, y and z behind k hold an even number of ones, as far as they exist. */
  predicate EvenAt(b: seq<bool>, x: nat, y: nat, z: nat, k: nat) {
    k + x < |b| && k + y < |b| && k + z < |b| ==> (b[k + x] != b[k + y]) == b[k + z]
  }

  ghost predicate Even(b: seq<bool>, x: nat, y: nat, z: nat) {
    forall k: nat :: EvenAt(b, x, y, z, k)
  }

  /** A relation between three places also holds of places twice as far: squaring a sum modulo 2 has no mixed terms. */
  lemma Doubling(b: seq<bool>, x: nat, y: nat, z: nat)
    requires Even(b, x, y, z) && x <= y <= z
    ensures Even(b, 2 * x, 2 * y, 2 * z)
  {
    var x', y', z' := 2 * x, 2 * y, 2 * z;
    forall k: nat
      ensures EvenAt(b, x', y', z', k)
    {
      assert EvenAt(b, x, y, z, k + x) && EvenAt(b, x, y, z, k + y) && EvenAt(b, x, y, z, k + z);
    }
  }

  lemma Shifted(b: seq<bool>, x: nat, y: nat, z: nat)
    requires Even(b, x, y, z)
    ensures Even(b, x + 1, y + 1, z + 1)
  {
    var x', y', z' := x + 1, y + 1, z + 1;
    forall k: nat
      ensures EvenAt(b, x', y', z', k)
    {
      assert EvenAt(b, x, y, z, k + 1);
    }
  }

  lemma {:induction false} PowersOfTwo(b: seq<bool>, s: nat, m: nat, k: nat)
    requires Even(b, 1, Pow2(s), Pow2(m)) && s <= m
    ensures Even(b, Pow2(k), Pow2(k + s), Pow2(k + m))
  {
    if k > 0 {
      PowersOfTwo(b, s, m, k - 1);
      if s < m { Pow2Monotone(k - 1 + s, k - 1 + m); }
      if 0 < s { Pow2Monotone(k - 1, k - 1 + s); }
      Doubling(b, Pow2(k - 1), Pow2(k - 1 + s), Pow2(k - 1 + m));
    }
  }

  // ---------- the short cycles ----------

  lemma Cycle7(c: seq<bool>)
    requires |c| == 8 && Even(c, 0, 2, 3)
    ensures c[7] == c[0]
  {
    assert EvenAt(c, 0, 2, 3, 0) && EvenAt(c, 0, 2, 3, 1) && EvenAt(c, 0, 2, 3, 2) && EvenAt(c, 0, 2, 3, 3);
    assert EvenAt(c, 0, 2, 3, 4);
  }

  lemma Cycle15(c: seq<bool>)
    requires |c| == 16 && Even(c, 0, 1, 4)
    ensures c[15] == c[0]
  {
    Doubling(c, 0, 1, 4);
    assert EvenAt(c, 0, 2, 8, 7) && EvenAt(c, 0, 2, 8, 1) && EvenAt(c, 0, 1, 4, 3) && EvenAt(c, 0, 1, 4, 0);
  }

  lemma Cycle31(c: seq<bool>)
    requires |c| == 32 && Even(c, 0, 2, 5)
    ensures c[31] == c[0]
  {
    Doubling(c, 0, 2, 5);
    Doubling(c, 0, 4, 10);
    assert EvenAt(c, 0, 8, 20, 11) && EvenAt(c, 0, 4, 10, 9) && EvenAt(c, 0, 4, 10, 3) && EvenAt(c, 0, 2, 5, 4);
    assert EvenAt(c, 0, 4, 10, 1) && EvenAt(c, 0, 2, 5, 2) && EvenAt(c, 0, 2, 5, 1) && EvenAt(c, 0, 2, 5, 0);
  }

  lemma Cycle63(c: seq<bool>)
    requires |c| == 64 && Even(c, 0, 1, 6)
    ensures c[63] == c[0]
  {
    Doubling(c, 0, 1, 6);
    Doubling(c, 0, 2, 12);
    Doubling(c, 0, 4, 24);
    assert EvenAt(c, 0, 8, 48, 15) && EvenAt(c, 0, 2, 12, 11) && EvenAt(c, 0, 2, 12, 1) && EvenAt(c, 0, 1, 6, 5);
    assert EvenAt(c, 0, 1, 6, 0) && EvenAt(c, 0, 2, 12, 3);
  }

  // ---------- the values ----------

  /** deg + 1 and sep + 1 are powers of two: their exponents, for each type. */
  function DegreeExponent(t: nat): nat {
    t + 2
  }

  function SeparationExponent(t: nat): nat {
    if t == 1 || t == 3 then 2 else 1
  }

  lemma Exponents(t: nat)
    requires 1 <= t < MAX_TYPES
    ensures Degree(t) + 1 == Pow2(DegreeExponent(t)) && Separation(t) + 1 == Pow2(SeparationExponent(t))
    ensures 0 < Separation(t) < Degree(t) && SeparationExponent(t) < DegreeExponent(t)
  {
    assert Pow2(2) == 4 && Pow2(3) == 8 && Pow2(4) == 16 && Pow2(5) == 32 && Pow2(6) == 64;
  }

  function LowBit(w: seq<Long>, sep: nat, n: nat): bool
    requires 0 < sep <= |w|
  {
    Value(w, sep, n) % 2 == 1
  }

  lemma LowBitSum(a: int, b: int)
    ensures (Sum(a, b) % 2 == 1) == ((a % 2 == 1) != (b % 2 == 1))
  {
    var q := (a + b + 0x8000_0000) / TWO32;
    assert Sum(a, b) == a + b - q * TWO32;
    assert q * TWO32 == 2 * (q * 0x8000_0000);
  }

  lemma LowBitStep(w: seq<Long>, sep: nat, n: nat)
    requires 0 < sep <= |w| <= n
    ensures LowBit(w, sep, n) == (LowBit(w, sep, n - |w|) != LowBit(w, sep, n - sep))
  {
    LowBitSum(Value(w, sep, n - |w|), Value(w, sep, n - sep));
  }

  /** The lowest bits of values top down to top - count. */
  function Backwards(w: seq<Long>, sep: nat, top: nat, count: nat): (r: seq<bool>)
    requires 0 < sep <= |w| && count <= top
    ensures |r| == count + 1 && forall i :: 0 <= i <= count ==> r[i] == LowBit(w, sep, top - i)
  {
    seq(count + 1, i requires 0 <= i <= count => LowBit(w, sep, top - i))
  }

  lemma BackwardsEven(w: seq<Long>, sep: nat, top: nat, count: nat)
    requires 0 < sep <= |w| && count <= top
    ensures Even(Backwards(w, sep, top, count), 0, sep, |w|)
  {
    hide LowBit;
    var r := Backwards(w, sep, top, count);
    forall k: nat
      ensures EvenAt(r, 0, sep, |w|, k)
    {
      if k + |w| <= count {
        LowBitStep(w, sep, top - k);
      }
    }
  }

  /** The places 2^k of a sequence. */
  function Sampled(r: seq<bool>, deg: nat): (c: seq<bool>)
    requires Pow2(deg) < |r|
    ensures |c| == deg + 1
  {
    seq(deg + 1, k requires 0 <= k <= deg => (PowBound(k, deg); r[Pow2(k)]))
  }

  lemma PowBound(k: nat, deg: nat)
    requires k <= deg
    ensures Pow2(k) <= Pow2(deg)
  {
    if k < deg { Pow2Monotone(k, deg); }
  }

  lemma SampledEven(r: seq<bool>, deg: nat, s: nat, m: nat)
    requires Pow2(deg) < |r| && Even(r, 1, Pow2(s), Pow2(m)) && s < m
    ensures Even(Sampled(r, deg), 0, s, m)
  {
    hide Pow2;
    var c := Sampled(r, deg);
    forall k: nat
      ensures EvenAt(c, 0, s, m, k)
    {
      if k + m <= deg {
        PowersOfTwo(r, s, m, k);
        PowBound(k, deg);
        PowBound(k + s, deg);
        PowBound(k + m, deg);
        assert EvenAt(r, Pow2(k), Pow2(k + s), Pow2(k + m), 0);
      }
    }
  }

  /** The powers of two themselves come back to the first one. */
  lemma Closes(t: nat, c: seq<bool>)
    requires 1 <= t < MAX_TYPES && |c| == Degree(t) + 1
    requires Even(c, 0, SeparationExponent(t), DegreeExponent(t))
    ensures c[Degree(t)] == c[0]
  {
    if t == 1 { Cycle7(c); } else if t == 2 { Cycle15(c); } else if t == 3 { Cycle31(c); } else { Cycle63(c); }
  }

  /**
   * For each of the four trinomials, from any register, the lowest bit of value n is that of the value 2^deg - 1 later.
   */
  lemma LowBitPeriod(t: nat, w: seq<Long>, n: nat)
    requires 1 <= t < MAX_TYPES && |w| == Degree(t)
    ensures 0 < Separation(t) <= |w| && 0 < Pow2(Degree(t))
    ensures Value(w, Separation(t), n + Pow2(Degree(t)) - 1) % 2 == Value(w, Separation(t), n) % 2
  {
    Exponents(t);
    hide Pow2, Even, EvenAt;
    var deg, sep := Degree(t), Separation(t);
    var all := Pow2(deg);
    var r := Backwards(w, sep, n + all, all);
    BackwardsEven(w, sep, n + all, all);
    Shifted(r, 0, sep, deg);
    SampledEven(r, deg, SeparationExponent(t), DegreeExponent(t));
    var c := Sampled(r, deg);
    Closes(t, c);
    PowOne();
    assert c[0] == r[1] && c[deg] == r[all];
  }

  lemma PowOne()
    ensures Pow2(0) == 1
  {
  }
}
