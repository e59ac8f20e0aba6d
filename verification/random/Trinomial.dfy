/**
 * The additive feedback generator as mathematics: a shift register over a trinomial, the recurrence it stands for,
 * and the word in which a state array remembers its type and its position (compat/random.c).
 */
module Trinomial {
  import opened Arithmetic

  /** long, of the four bytes that the break values assume. */
  type Long = x: int | -0x8000_0000 <= x < 0x8000_0000

  const TWO32: nat := 0x1_0000_0000

  /** Wrap-around of a result to a long. */
  function ToLong(x: int): Long {
    (x + 0x8000_0000) % TWO32 - 0x8000_0000
  }

  /** The sum of two longs. */
  function Sum(a: int, b: int): Long {
    ToLong(a + b)
  }

  /** srandom's linear congruential step. */
  function Congruent(a: int): Long {
    ToLong(1103515245 * a + 12345)
  }

  /** A step of the TYPE_0 generator. */
  function LinearStep(a: int): (r: Long)
    ensures 0 <= r
  {
    (a * 1103515245 + 12345) % 0x8000_0000
  }

  const MAX_TYPES: nat := 5
  const TYPE_0: nat := 0

  function Degree(t: nat): nat {
    if t == 1 then 7 else if t == 2 then 15 else if t == 3 then 31 else if t == 4 then 63 else 0
  }

  function Separation(t: nat): nat {
    if t == 1 || t == 3 then 3 else if t == 2 || t == 4 then 1 else 0
  }

  // ---------- the shift register ----------

  /** The state words in the order in which they were made, oldest first: the front pointer is at the oldest. */
  function Window(words: seq<Long>, front: nat): seq<Long>
    requires front <= |words|
  {
    words[front..] + words[..front]
  }

  /** The next value of the recurrence: the sum of the values deg and sep back. */
  function Next(w: seq<Long>, sep: nat): Long
    requires 0 < sep <= |w|
  {
    Sum(w[0], w[|w| - sep])
  }

  function Shift(w: seq<Long>, sep: nat): (r: seq<Long>)
    requires 0 < sep <= |w|
    ensures |r| == |w|
  {
    w[1..] + [Next(w, sep)]
  }

  /** The register after k steps. */
  function Run(w: seq<Long>, sep: nat, k: nat): (r: seq<Long>)
    requires 0 < sep <= |w|
    ensures |r| == |w|
  {
    if k == 0 then w else Shift(Run(w, sep, k - 1), sep)
  }

  /** A value reduced to 31 bits by throwing away the lowest. */
  function Output(v: Long): (r: nat)
    ensures r < 0x8000_0000
  {
    (v / 2) % 0x8000_0000
  }

  /** i is the word v, unsigned, without its lowest bit. */
  predicate HalfOf(v: int, i: int) {
    var u := v % 0x1_0000_0000;
    u == 2 * i || u == 2 * i + 1
  }

  /** The output is the word, unsigned, without its lowest bit. */
  lemma OutputHalves(v: Long)
    ensures HalfOf(v, Output(v))
  {
    var h, b := v / 2, v % 2;
    var q, r := h / 0x8000_0000, h % 0x8000_0000;
    assert v == q * 0x1_0000_0000 + (2 * r + b);
    ModUnique(v, 0x1_0000_0000, q, 2 * r + b);
  }

  /** i comes after a in the congruential sequence modulo 2^31. */
  ghost predicate FollowsLinearly(a: int, i: int) {
    0 <= i < 0x8000_0000 && exists q: int :: 1103515245 * a + 12345 - i == q * 0x8000_0000
  }

  /** The TYPE_0 generator makes the same step as srandom, without the sign bit. */
  lemma LinearIsCongruent(a: int)
    ensures LinearStep(a) == Congruent(a) % 0x8000_0000 && FollowsLinearly(a, LinearStep(a))
  {
    var x := 1103515245 * a + 12345;
    var q := (x + 0x8000_0000) / TWO32;
    var c := Congruent(a);
    assert c == x - q * TWO32;
    var p, r := x / 0x8000_0000, x % 0x8000_0000;
    assert x - r == p * 0x8000_0000;
    assert c == (p - 2 * q) * 0x8000_0000 + r;
    ModUnique(c, 0x8000_0000, p - 2 * q, r);
  }

  /** The recurrence v(n) = v(n - deg) + v(n - sep), from deg given values. */
  function Value(w: seq<Long>, sep: nat, n: nat): Long
    requires 0 < sep <= |w|
  {
    if n < |w| then w[n] else Sum(Value(w, sep, n - |w|), Value(w, sep, n - sep))
  }

  /** After k steps the register holds the values k to k + deg - 1 of the recurrence. */
  lemma {:induction false} RunIsRecurrence(w: seq<Long>, sep: nat, k: nat, i: nat)
    requires 0 < sep <= |w| && i < |w|
    ensures Run(w, sep, k)[i] == Value(w, sep, k + i)
    decreases k
  {
    if k > 0 {
      if i + 1 < |w| {
        RunIsRecurrence(w, sep, k - 1, i + 1);
      } else {
        RunIsRecurrence(w, sep, k - 1, 0);
        RunIsRecurrence(w, sep, k - 1, |w| - sep);
      }
    }
  }

  // ---------- the two pointers ----------

  /** The front pointer is sep ahead of the rear one, modulo deg. */
  predicate Ahead(front: int, rear: int, deg: nat, sep: nat) {
    0 < sep < deg && 0 <= front < deg && 0 <= rear < deg && (front == rear + sep || front + deg == rear + sep)
  }

  /** Overwriting the word at the front pointer and advancing it is a step of the register. */
  lemma InPlaceStep(words: seq<Long>, front: nat, rear: nat, sep: nat, v: Long)
    requires Ahead(front, rear, |words|, sep) && v == Sum(words[front], words[rear])
    ensures v == Next(Window(words, front), sep)
    ensures Window(words[front := v], if front + 1 < |words| then front + 1 else 0) == Shift(Window(words, front), sep)
  {
    var w := Window(words, front);
    assert w[0] == words[front];
    assert w[|w| - sep] == words[rear];
    var u := words[front := v];
    if front + 1 < |words| {
      assert u[front + 1..] == words[front + 1..] && u[..front + 1] == words[..front] + [v];
    } else {
      assert u[0..] == words[..front] + [v] && u[..0] == [];
    }
  }

  /** Both pointers never wrap in one call, and they stay sep apart. */
  lemma PointersAdvance(front: int, rear: int, deg: nat, sep: nat)
    requires Ahead(front, rear, deg, sep)
    ensures front + 1 == deg ==> rear + 1 < deg
    ensures Ahead(if front + 1 < deg then front + 1 else 0, if rear + 1 < deg then rear + 1 else 0, deg, sep)
  {
  }

  // ---------- word 0 ----------

  /** Position of the rear pointer and type, multiplexed. */
  function Encode(t: nat, rear: int): int {
    if t == TYPE_0 then t else MAX_TYPES * rear + t
  }

  /** C's remainder and quotient, which truncate towards zero. */
  function TypeOf(word: int): int {
    if word >= 0 then word % MAX_TYPES else -((-word) % MAX_TYPES)
  }

  function RearOf(word: int): int {
    if word >= 0 then word / MAX_TYPES else -((-word) / MAX_TYPES)
  }

  /**
   * A word is munged if it names no type. The munged words that put the rear pointer inside the array, at position 0,
   * are -4 to -1; every lower one puts it in front of the array.
   */
  lemma MungedWords(word: int)
    ensures TypeOf(word) < MAX_TYPES
    ensures TypeOf(word) < 0 <==> word < 0 && word % MAX_TYPES != 0
    ensures TypeOf(word) < 0 && 0 <= RearOf(word) <==> -4 <= word <= -1
    ensures -4 <= word <= -1 ==> RearOf(word) == 0
  {
    var q, r := (-word) / MAX_TYPES, (-word) % MAX_TYPES;
    if word < 0 && word % MAX_TYPES == 0 {
      ModUnique(-word, MAX_TYPES, -(word / MAX_TYPES), 0);
    }
    if word < 0 && r == 0 {
      ModUnique(word, MAX_TYPES, -q, 0);
    }
  }

  lemma EncodeLossless(t: nat, rear: int)
    requires t < MAX_TYPES && (t != TYPE_0 ==> 0 <= rear)
    ensures TypeOf(Encode(t, rear)) == t && (t != TYPE_0 ==> RearOf(Encode(t, rear)) == rear)
  {
  }

  /** The linear congruential values that srandom starts from. */
  function Congruential(x: Long, n: nat): (s: seq<Long>)
    ensures |s| == n
  {
    if n == 0 then []
    else if n == 1 then [x]
    else
      var s := Congruential(x, n - 1);
      s + [Congruent(s[n - 2])]
  }

  /** The rear pointer k steps after position rear. */
  function RearAfter(rear: nat, k: nat, deg: nat): (r: nat)
    requires rear < deg
    ensures r < deg
  {
    if k == 0 then rear
    else
      var r := RearAfter(rear, k - 1, deg);
      if r + 1 < deg then r + 1 else 0
  }

  lemma {:induction false} RearIsModular(rear: nat, k: nat, deg: nat)
    requires rear < deg
    ensures RearAfter(rear, k, deg) == (rear + k) % deg
  {
    if k == 0 {
      ModUnique(rear, deg, 0, rear);
    } else {
      RearIsModular(rear, k - 1, deg);
      ModAdd(rear + k - 1, 1, deg);
    }
  }

  /** Whole rounds bring the pointers back to where they started, and nothing else does. */
  lemma WholeRounds(rear: nat, k: nat, deg: nat)
    requires rear < deg
    ensures RearAfter(rear, k, deg) == rear <==> k % deg == 0
  {
    RearIsModular(rear, k, deg);
    ModAdd(k, rear, deg);
  }

  /** srandom's ten rounds of warming up. */
  lemma TenRounds(rear: nat, deg: nat)
    requires rear < deg
    ensures RearAfter(rear, 10 * deg, deg) == rear
  {
    ModUnique(10 * deg, deg, 10, 0);
    WholeRounds(rear, 10 * deg, deg);
  }
}
