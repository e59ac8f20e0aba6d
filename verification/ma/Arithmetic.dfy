/** Powers of two, remainders and rounding: the arithmetic under block placement. */
module Arithmetic {

  function Pow2(k: nat): (r: nat)
    ensures r > 0
  {
    if k == 0 then 1 else 2 * Pow2(k - 1)
  }

  ghost predicate IsPow2(x: nat) {
    exists k: nat :: x == Pow2(k)
  }

  /** An unsigned 64-bit result: the value that size_t arithmetic leaves behind. */
  const TWO64: nat := 0x1_0000_0000_0000_0000

  function Wrap(x: int): nat {
    x % TWO64
  }

  lemma {:induction false} Pow2Factor(j: nat, k: nat)
    requires j <= k
    ensures Pow2(k) == Pow2(j) * Pow2(k - j)
    decreases k
  {
    if j < k {
      Pow2Factor(j, k - 1);
    }
  }

  /** Dividing out a known quotient and remainder. */
  lemma ModUnique(x: int, m: nat, q: int, r: int)
    requires m > 0 && x == q * m + r && 0 <= r < m
    ensures x % m == r && x / m == q
  {
    var q', r' := x / m, x % m;
    assert (q - q') * m == r' - r;
    MulBound(q - q', m);
  }

  lemma MulBound(a: int, m: nat)
    ensures a >= 1 ==> a * m >= m
    ensures a <= 0 ==> a * m <= 0
    ensures a <= -1 ==> a * m + m <= 0
  {
    if a >= 1 {
      assert a * m == m + (a - 1) * m;
    } else if a <= -1 {
      assert a * m == (a + 1) * m - m;
    }
  }

  lemma MulMonotone(m: nat, n: nat, s: nat)
    requires m <= n
    ensures m * s <= n * s
  {
    assert n * s == m * s + (n - m) * s;
  }

  /** The remainder of a sum, when the second summand is at most the modulus. */
  lemma ModAdd(x: int, y: nat, m: nat)
    requires 0 < m && y <= m
    ensures (x + y) % m == if x % m + y < m then x % m + y else x % m + y - m
  {
    var q, r := x / m, x % m;
    NextMultiple(q, m);
    if r + y < m {
      ModUnique(x + y, m, q, r + y);
    } else {
      ModUnique(x + y, m, q + 1, r + y - m);
    }
  }

  lemma NextMultiple(q: int, m: int)
    ensures (q + 1) * m == q * m + m
  {
  }

  lemma ModShift(x: int, t: int, m: nat)
    requires m > 0
    ensures (x + t * m) % m == x % m
  {
    assert x + t * m == (x / m + t) * m + x % m;
    ModUnique(x + t * m, m, x / m + t, x % m);
  }

  /** Reducing first by a multiple of m does not change the remainder modulo m. */
  lemma ModMod(x: int, big: nat, m: nat, f: nat)
    requires m > 0 && big == f * m && big > 0
    ensures (x % big) % m == x % m
  {
    assert x == x % big + (x / big) * big;
    assert (x / big) * big == ((x / big) * f) * m by {
      assert (x / big) * (f * m) == ((x / big) * f) * m;
    }
    ModShift(x % big, (x / big) * f, m);
  }

  /** Equal remainders mean a difference that is a multiple, and conversely. */
  lemma ModEqual(x: int, y: int, m: nat)
    requires m > 0
    ensures x % m == y % m <==> (x - y) % m == 0
  {
    if x % m == y % m {
      assert x - y == (x / m - y / m) * m + 0;
      ModUnique(x - y, m, x / m - y / m, 0);
    }
    if (x - y) % m == 0 {
      assert x == y + ((x - y) / m) * m;
      ModShift(y, (x - y) / m, m);
    }
  }

  /** Two values with the same remainder that are less than m apart are equal. */
  lemma ModGap(x: int, y: int, m: nat)
    requires m > 0 && x % m == y % m && x < y
    ensures x + m <= y
  {
    ModEqual(y, x, m);
    var q := (y - x) / m;
    assert y - x == q * m;
    MulBound(q, m);
  }

  /** Adding (r - x) % m to x reaches the value in [x, x + m) that has r's remainder. */
  lemma StepUp(x: int, r: int, m: nat)
    requires m > 0
    ensures (x + (r - x) % m) % m == r % m
  {
    var q, e := (r - x) / m, (r - x) % m;
    assert r - x == q * m + e;
    assert x + e == r + (-q) * m;
    ModShift(r, -q, m);
  }

  /** Subtracting (x - r) % m from x reaches the value in (x - m, x] that has r's remainder. */
  lemma StepDown(x: int, r: int, m: nat)
    requires m > 0
    ensures (x - (x - r) % m) % m == r % m
  {
    var q, e := (x - r) / m, (x - r) % m;
    assert x - r == q * m + e;
    assert x - e == r + q * m;
    ModShift(r, q, m);
  }

  lemma MultipleMod(q: int, s: nat, unit: nat, f: nat)
    requires 0 < s && unit == f * s && unit > 0
    ensures (q * unit) % unit == 0 && (q * unit) % s == 0
  {
    ModUnique(q * unit, unit, q, 0);
    assert q * unit == (q * f) * s;
    ModUnique(q * unit, s, q * f, 0);
  }

  /** The next multiple of unit after the first multiple of s is the first multiple of unit, when s divides unit. */
  lemma CoarserUp(x: int, c0: int, c: int, s: nat, unit: nat, f: nat)
    requires 0 < s && 0 < unit == f * s && c0 % s == 0 && x <= c0 < x + s
    requires c == if c0 % unit == 0 then c0 else c0 + unit - c0 % unit
    ensures c % unit == 0 && x <= c < x + unit
  {
    var q := if c0 % unit == 0 then c0 / unit else c0 / unit + 1;
    assert c == q * unit;
    MultipleMod(q, s, unit, f);
    if x + unit <= c {
      MultipleMod(q - 1, s, unit, f);
      assert (q - 1) * unit == c - unit;
      ModGap(c - unit, c0, s);
    }
  }

  lemma CoarserDown(x: int, c0: int, c: int, s: nat, unit: nat, f: nat)
    requires 0 < s && 0 < unit == f * s && c0 % s == 0 && x - s < c0 <= x
    requires c == c0 - c0 % unit
    ensures c % unit == 0 && x - unit < c <= x
  {
    var q := c0 / unit;
    assert c == q * unit;
    MultipleMod(q, s, unit, f);
    if c + unit <= x {
      MultipleMod(q + 1, s, unit, f);
      assert (q + 1) * unit == c + unit;
      ModGap(c0, c + unit, s);
    }
  }

  /** Of two powers of two one divides the other. */
  lemma Pow2Comparable(x: nat, y: nat) returns (f: nat)
    requires IsPow2(x) && IsPow2(y) && x <= y
    ensures f > 0 && y == f * x && y % x == 0
  {
    var j: nat :| x == Pow2(j);
    var k: nat :| y == Pow2(k);
    if j > k {
      Pow2Factor(k, j);
      Pow2Monotone(k, j);
    }
    Pow2Factor(j, k);
    f := Pow2(k - j);
    ModUnique(y, x, f, 0);
  }

  lemma {:induction false} Pow2Monotone(j: nat, k: nat)
    requires j < k
    ensures Pow2(j) < Pow2(k)
    decreases k
  {
    if j + 1 < k {
      Pow2Monotone(j, k - 1);
    }
  }

  lemma Two64()
    ensures Pow2(64) == TWO64
  {
    assert Pow2(4) == 16;
    Pow2Factor(4, 8);
    Pow2Factor(8, 16);
    Pow2Factor(16, 32);
    Pow2Factor(32, 64);
  }

  lemma Two64IsPow2()
    ensures IsPow2(TWO64)
  {
    Two64();
    assert Pow2(64) == TWO64;
  }

  /** Unsigned wrap-around is harmless under a power-of-two modulus. */
  lemma WrapMod(x: int, m: nat)
    requires IsPow2(m) && m <= TWO64
    ensures m > 0 && Wrap(x) % m == x % m
  {
    Two64IsPow2();
    var f := Pow2Comparable(m, TWO64);
    ModMod(x, TWO64, m, f);
  }

  /** Rounding up by clearing low bits of value + unit - 1. */
  function RoundUp(value: nat, unit: nat): (r: nat)
    requires unit > 0
    ensures value <= r < value + unit
  {
    value + unit - 1 - (value + unit - 1) % unit
  }

  /** RoundUp gives the first multiple of unit at or above value. */
  lemma RoundUpLeast(value: nat, unit: nat, c: int)
    requires unit > 0 && value <= c && c % unit == 0
    ensures RoundUp(value, unit) % unit == 0 && RoundUp(value, unit) <= c
  {
    var v := value + unit - 1;
    var r := RoundUp(value, unit);
    assert r == (v / unit) * unit;
    ModUnique(r, unit, v / unit, 0);
    if c < r { ModGap(c, r, unit); }
  }

  /** Bitwise and. */
  function And(x: nat, y: nat): nat {
    if x == 0 then 0 else 2 * And(x / 2, y / 2) + (x % 2) * (y % 2)
  }

  /** mai_round as the code has it, on words: the complement of unit - 1 is TWO64 - unit. */
  function MaiRound(value: nat, unit: nat): nat
    requires 0 < unit <= TWO64
  {
    And(Wrap(value + unit - 1), TWO64 - unit)
  }

  lemma HalfMod(x: nat, m: nat)
    requires 0 < m
    ensures x % (2 * m) == 2 * ((x / 2) % m) + x % 2
  {
    var q := (x / 2) / m;
    assert x / 2 == q * m + (x / 2) % m;
    assert x == 2 * (x / 2) + x % 2;
    assert x == q * (2 * m) + (2 * ((x / 2) % m) + x % 2);
    ModUnique(x, 2 * m, q, 2 * ((x / 2) % m) + x % 2);
  }

  lemma AndZero(y: nat)
    ensures And(0, y) == 0
  {
  }

  /** An even mask drops the lowest bit, an odd one keeps it. */
  lemma AndParity(x: nat, half: nat)
    ensures And(x, 2 * half) == 2 * And(x / 2, half)
    ensures And(x, 2 * half + 1) == 2 * And(x / 2, half) + x % 2
  {
    assert (2 * half) / 2 == half && (2 * half) % 2 == 0;
    assert (2 * half + 1) / 2 == half && (2 * half + 1) % 2 == 1;
  }

  /** Masking with the complement of a power of two less one clears the remainder. */
  lemma {:induction false} MaskClears(x: nat, w: nat, k: nat)
    requires k <= w && x < Pow2(w)
    ensures Pow2(k) <= Pow2(w) && And(x, Pow2(w) - Pow2(k)) == x - x % Pow2(k)
  {
    hide And;
    if k < w { Pow2Monotone(k, w); }
    if w == 0 {
      AndZero(Pow2(w) - Pow2(k));
    } else if k == 0 {
      MaskClears(x / 2, w - 1, 0);
      AndParity(x, Pow2(w - 1) - 1);
    } else {
      MaskClears(x / 2, w - 1, k - 1);
      AndParity(x, Pow2(w - 1) - Pow2(k - 1));
      HalfMod(x, Pow2(k - 1));
    }
  }

  lemma Exponent(x: nat) returns (k: nat)
    requires IsPow2(x)
    ensures x == Pow2(k)
  {
    k :| x == Pow2(k);
  }

  /** For every power-of-two unit, masking rounds up, unless adding unit - 1 overflows. */
  lemma MaskRounds(value: nat, unit: nat)
    requires IsPow2(unit) && 0 < unit && value + unit <= TWO64
    ensures MaiRound(value, unit) == RoundUp(value, unit)
  {
    hide And, IsPow2, Pow2;
    Two64();
    var k := Exponent(unit);
    if 64 < k { Pow2Monotone(64, k); }
    MaskClears(value + unit - 1, 64, k);
  }
}
