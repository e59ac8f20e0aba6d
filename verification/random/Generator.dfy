/** The generator of compat/random.c: its globals, and the operations that work on the current state array in place. */
module Generators {
  import opened Arithmetic
  import opened Trinomial
  import opened DefaultTable

  const BREAK_0: int := 8
  const BREAK_1: int := 32
  const BREAK_2: int := 64
  const BREAK_3: int := 128
  const BREAK_4: int := 256

  /** The best type for n bytes of state, if there is enough for any. */
  function TypeFor(n: int): int {
    if n < BREAK_0 then -1
    else if n < BREAK_1 then 0
    else if n < BREAK_2 then 1
    else if n < BREAK_3 then 2
    else if n < BREAK_4 then 3
    else 4
  }

  /** Bytes of an array of w-byte words for a generator of type t: word 0, and at least one state word. */
  function BytesNeeded(t: nat, w: nat): nat {
    (if t == TYPE_0 then 2 else Degree(t) + 1) * w
  }

  /** Every break value is right, that is, as large as what the type needs, for words of at most four bytes only. */
  lemma BreaksSuffice(t: nat, w: nat)
    requires t < MAX_TYPES
    ensures (forall n: int :: TypeFor(n) == t ==> BytesNeeded(t, w) <= n) <==> w <= 4
  {
    var break_ := if t == 0 then BREAK_0 else if t == 1 then BREAK_1 else if t == 2 then BREAK_2
      else if t == 3 then BREAK_3 else BREAK_4;
    assert TypeFor(break_) == t && BytesNeeded(t, 4) == break_;
    if 4 < w {
      assert break_ < BytesNeeded(t, w);
    } else {
      assert BytesNeeded(t, w) <= break_;
    }
  }

  /** initstate chooses the best type that n bytes of four-byte words have room for. */
  lemma BestType(t: nat, n: int)
    requires t < MAX_TYPES
    ensures BytesNeeded(t, 4) <= n <==> t <= TypeFor(n)
  {
  }

  /** With words of eight bytes, initstate on an array of 128 bytes uses twice as many. */
  lemma EightByteWords()
    ensures TypeFor(128) == 3 && BytesNeeded(3, 8) == 256
  {
  }

  class Generator {
    /** The current state array: word 0, and from word 1 on what the source calls state. */
    var table: array<Long>
    var randType: nat
    var randDeg: nat
    var randSep: nat
    /** Positions of the front and rear pointers in state. */
    var fptr: int
    var rptr: int

    ghost predicate Valid()
      reads this, table
    {
      && randType < MAX_TYPES && randDeg == Degree(randType) && randSep == Separation(randType)
      && randDeg + 1 <= table.Length && 2 <= table.Length
      && (randType != TYPE_0 ==> Ahead(fptr, rptr, randDeg, randSep))
    }

    /** The static initial state. It is the one that initstate(1, randtbl, 128) would leave. */
    constructor ()
      ensures Valid() && fresh(table) && table.Length == 32 && table[0] == Encode(randType, rptr)
      ensures table[1..] == StateOf(RANDTBL) && randType == TypeFor(128) && Seeded(1)
    {
      hide *;
      var words := DefaultWords();
      table := new Long[32](i requires 0 <= i < 32 => words[i]);
      randType, randDeg, randSep := 3, 31, 3;
      fptr, rptr := 3, 0;
      new;
      assert table[..] == words;
      DefaultValid();
    }

    /** The words of randtbl. */
    static function DefaultWords(): (words: seq<Long>)
      ensures |words| == 32
    {
      [3] + StateOf(RANDTBL)
    }

    lemma DefaultValid()
      requires table[..] == DefaultWords() && randType == 3 && randDeg == 31 && randSep == 3 && fptr == 3 && rptr == 0
      ensures Valid() && table.Length == 32 && table[0] == Encode(randType, rptr)
      ensures table[1..] == StateOf(RANDTBL) && randType == TypeFor(128) && Seeded(1)
    {
      hide Run, StateOf, Congruential, ToLong, Window;
      assert table[1..] == table[..][1..] && table[0] == table[..][0];
      assert Words() == StateOf(RANDTBL);
      DefaultIsSeeded();
    }

    /** The state words. */
    function Words(): seq<Long>
      reads this, table
      requires randDeg + 1 <= table.Length
    {
      table[1..randDeg + 1]
    }

    /** The shift register that the words and the front pointer stand for. */
    ghost function Register(): (w: seq<Long>)
      reads this, table
      requires Valid() && randType != TYPE_0
      ensures |w| == randDeg
    {
      Window(Words(), fptr)
    }

    /** random */
    method Random() returns (i: nat)
      requires Valid()
      modifies table, this`fptr, this`rptr
      ensures Valid() && i < 0x8000_0000 && table[0] == old(table[0])
      ensures randType == TYPE_0 ==> i == LinearStep(old(table[1])) && table[1] == i
      ensures randType == TYPE_0 ==> FollowsLinearly(old(table[1]), i)
      ensures randType != TYPE_0 ==>
        && Register() == Shift(old(Register()), randSep) && i == Output(Register()[randDeg - 1])
        && rptr == RearAfter(old(rptr), 1, randDeg)
      ensures randType != TYPE_0 ==> HalfOf(Register()[randDeg - 1], i)
    {
      hide Output, HalfOf, LinearStep, FollowsLinearly;
      if randType == TYPE_0 {
        LinearIsCongruent(table[1]);
        i := LinearStep(table[1]);
        table[1] := LinearStep(table[1]);
      } else {
        i := Feed();
        OutputHalves(Register()[randDeg - 1]);
      }
    }

    /** The trinomial part of random. */
    method Feed() returns (i: nat)
      requires Valid() && randType != TYPE_0
      modifies table, this`fptr, this`rptr
      ensures Valid() && i < 0x8000_0000 && table[0] == old(table[0])
      ensures Register() == Shift(old(Register()), randSep) && i == Output(Register()[randDeg - 1])
      ensures rptr == RearAfter(old(rptr), 1, randDeg)
    {
      hide Window, Next, Output;
      ghost var words := Words();
      var v := Sum(table[1 + fptr], table[1 + rptr]);
      InPlaceStep(words, fptr, rptr, randSep, v);
      PointersAdvance(fptr, rptr, randDeg, randSep);
      table[1 + fptr] := v;
      assert Words() == words[fptr := v];
      i := Output(v);
      Advance();
    }

    /** Both pointers go one word on, cyclically. The rear one is not tested if the front one has wrapped. */
    method Advance()
      requires randType != TYPE_0 && Ahead(fptr, rptr, randDeg, randSep)
      modifies this`fptr, this`rptr
      ensures fptr == (if old(fptr) + 1 < randDeg then old(fptr) + 1 else 0)
      ensures rptr == (if old(rptr) + 1 < randDeg then old(rptr) + 1 else 0)
    {
      fptr := fptr + 1;
      if fptr >= randDeg {
        fptr := 0;
        rptr := rptr + 1;
      } else {
        rptr := rptr + 1;
        if rptr >= randDeg {
          rptr := 0;
        }
      }
    }

    /** Fills state with congruential values, and sets the pointers. */
    method Fill(x: Long)
      requires randType != TYPE_0 && randType < MAX_TYPES && randDeg == Degree(randType)
      requires randSep == Separation(randType)
      requires randDeg + 1 <= table.Length
      modifies table, this`fptr, this`rptr
      ensures Valid() && table[0] == old(table[0]) && Words() == Congruential(x, randDeg)
      ensures rptr == 0 && fptr == randSep
    {
      table[1] := x;
      var i := 1;
      while i < randDeg
        invariant 1 <= i <= randDeg && table[1..i + 1] == Congruential(x, i) && table[0] == old(table[0])
      {
        table[i + 1] := Congruent(table[i]);
        assert table[1..i + 2] == table[1..i + 1] + [table[i + 1]];
        i := i + 1;
      }
      fptr, rptr := randSep, 0;
    }

    /** The warming-up loop: the register makes k steps, and the pointers move on with it. */
    method WarmUp(k: nat)
      requires Valid() && randType != TYPE_0
      modifies table, this`fptr, this`rptr
      ensures Valid() && table[0] == old(table[0])
      ensures Register() == Run(old(Register()), randSep, k) && rptr == RearAfter(old(rptr), k, randDeg)
    {
      hide Window, Shift;
      ghost var w, rear := Register(), rptr;
      var i := 0;
      while i < k
        invariant 0 <= i <= k && Valid() && table[0] == old(table[0])
        invariant Register() == Run(w, randSep, i) && rptr == RearAfter(rear, i, randDeg)
      {
        var _ := Random();
        i := i + 1;
      }
    }

    /** srandom: afterwards the rear pointer is back at position 0. */
    method Srandom(x: nat)
      requires randType < MAX_TYPES && randDeg == Degree(randType) && randSep == Separation(randType)
      requires randDeg + 1 <= table.Length && 2 <= table.Length && x < TWO32
      modifies table, this`fptr, this`rptr
      ensures Valid() && table[0] == old(table[0]) && Seeded(x)
    {
      hide Run, Window, Congruential;
      if randType == TYPE_0 {
        table[1] := ToLong(x);
      } else {
        Fill(ToLong(x));
        WarmUp(10 * randDeg);
        TenRounds(0, randDeg);
      }
    }

    /** The state that srandom leaves: congruential values, run for ten rounds, and the rear pointer back at 0. */
    ghost predicate Seeded(x: nat)
      reads this, table
    {
      && Valid()
      && (randType == TYPE_0 ==> table[1] == ToLong(x))
      && (randType != TYPE_0 ==>
            && rptr == 0
            && Register() == Run(Window(Congruential(ToLong(x), randDeg), randSep), randSep, 10 * randDeg))
    }

    /** Notes type and position in word 0 of the current array. */
    method Save()
      requires Valid()
      modifies table
      ensures Valid() && table[0] == Encode(randType, rptr) && table[1..] == old(table[1..])
    {
      table[0] := Encode(randType, rptr);
    }

    /** Starts a generator of type t on the given array. */
    method Begin(seed: nat, argState: array<Long>, t: nat)
      requires t < MAX_TYPES && Degree(t) + 1 <= argState.Length && 2 <= argState.Length && seed < TWO32
      modifies this, argState
      ensures Valid() && table == argState && randType == t && Seeded(seed) && table[0] == Encode(randType, rptr)
    {
      hide Run, Window, Congruential;
      randType, randDeg, randSep := t, Degree(t), Separation(t);
      table := argState;
      Srandom(seed);
      ghost var seeded := table[..];
      Save();
      SamePrefix(table[..], seeded, randDeg);
    }

    /** initstate when n bytes are enough: the current state is saved in its array, which is returned. */
    method Restart(seed: nat, argState: array<Long>, n: int) returns (oldState: array<Long>)
      requires Valid() && seed < TWO32 && BREAK_0 <= n <= 4 * argState.Length
      modifies this, table, argState
      ensures Valid() && oldState == old(table) && table == argState && randType == TypeFor(n)
      ensures Seeded(seed) && table[0] == Encode(randType, rptr)
      ensures old(table) != argState ==>
        old(table)[0] == Encode(old(randType), old(rptr)) && old(table)[1..] == old(table[1..])
    {
      hide Run, Window, Congruential;
      oldState := table;
      Save();
      ghost var saved := table[..];
      var t :=
        if n < BREAK_1 then 0
        else if n < BREAK_2 then 1
        else if n < BREAK_3 then 2
        else if n < BREAK_4 then 3
        else 4;
      Begin(seed, argState, t);
    }

    /**
     * initstate on an array of n bytes: if there is not enough room for any generator, null is returned and nothing
     * but word 0 of the current array has changed.
     */
    method InitState(seed: nat, argState: array<Long>, n: int) returns (oldState: array?<Long>)
      requires Valid() && seed < TWO32 && n <= 4 * argState.Length
      modifies this, table, argState
      ensures Valid() && (oldState == null <==> TypeFor(n) < 0)
      ensures oldState != null ==> oldState == old(table) && table == argState && randType == TypeFor(n)
      ensures oldState != null ==> Seeded(seed) && table[0] == Encode(randType, rptr)
      ensures oldState != null && old(table) != argState ==>
        old(table)[0] == Encode(old(randType), old(rptr)) && old(table)[1..] == old(table[1..])
      ensures oldState == null ==>
        && table == old(table) && table[0] == Encode(old(randType), old(rptr)) && table[1..] == old(table[1..])
        && randType == old(randType) && rptr == old(rptr) && fptr == old(fptr)
    {
      hide Run, Window, Congruential, Seeded;
      if n < BREAK_0 {
        Save();
        oldState := null;
      } else {
        oldState := Restart(seed, argState, n);
      }
    }

    /** The type that setstate goes by: the one word 0 names, or the current one if word 0 is munged. */
    static function NewType(word: int, current: nat): nat {
      if TypeOf(word) < 0 then current else TypeOf(word)
    }

    /** An array of the given length has room for the generator that its word 0 describes. */
    static predicate Describes(word: int, length: nat, current: nat)
    {
      && 2 <= length && NewType(word, current) < MAX_TYPES && Degree(NewType(word, current)) + 1 <= length
      && (NewType(word, current) != TYPE_0 ==> 0 <= RearOf(word) < Degree(NewType(word, current)))
    }

    static predicate Restorable(a: array<Long>, current: nat)
      reads a
    {
      0 < a.Length && Describes(a[0], a.Length, current)
    }

    /**
     * setstate: type and position are read from the new array's word 0, and the current ones are saved. The pointers
     * end up inside the array exactly if the array has room for what word 0 describes. If word 0 is munged the type
     * stays as it is, but the array is switched all the same: the state is left alone only if the array is the current
     * one and the position is the one that word 0 gives.
     */
    method SetState(newState: array<Long>) returns (oldState: array<Long>)
      requires Valid() && 0 < newState.Length
      modifies this, table
      ensures Valid() <==> Describes(old(newState[0]), newState.Length, old(randType))
      ensures oldState == old(table) && table == newState
      ensures old(table)[0] == Encode(old(randType), old(rptr)) && old(table)[1..] == old(table[1..])
      ensures randType == NewType(old(newState[0]), old(randType))
      ensures randType != TYPE_0 ==> rptr == RearOf(old(newState[0]))
      ensures TypeOf(old(newState[0])) < 0 ==>
        ((table == old(table) && randType == old(randType) && (randType != TYPE_0 ==> rptr == old(rptr))) <==>
          newState == old(table) && (randType != TYPE_0 ==> old(rptr) == RearOf(old(newState[0]))))
    {
      MungedWords(newState[0]);
      var type', rear := TypeOf(newState[0]), RearOf(newState[0]);
      oldState := table;
      Save();
      if type' >= 0 {
        randType := type';
        randDeg, randSep := Degree(type'), Separation(type');
      }
      table := newState;
      if randType != TYPE_0 {
        rptr := rear;
        fptr := Remainder(rear + randSep, randDeg);
        if 0 <= rear < randDeg {
          FrontAhead(rear, randDeg, randSep);
        }
      }
    }
  }

  /** C's remainder, which truncates towards zero. */
  function Remainder(x: int, n: nat): int
    requires 0 < n
  {
    if x >= 0 then x % n else -((-x) % n)
  }

  lemma FrontAhead(rear: nat, deg: nat, sep: nat)
    requires 0 < sep < deg && rear < deg
    ensures Ahead(Remainder(rear + sep, deg), rear, deg, sep)
  {
    if rear + sep < deg {
      ModUnique(rear + sep, deg, 0, rear + sep);
    } else {
      ModUnique(rear + sep, deg, 1, rear + sep - deg);
    }
  }

  lemma SamePrefix(s: seq<Long>, t: seq<Long>, d: nat)
    requires 2 <= |s| == |t| && s[1..] == t[1..] && d + 1 <= |s|
    ensures s[1..d + 1] == t[1..d + 1] && s[1] == t[1]
  {
    assert s[1..d + 1] == s[1..][..d] && t[1..d + 1] == t[1..][..d];
    assert s[1] == s[1..][0] && t[1] == t[1..][0];
  }

  /** Any number of calls in a row: the values returned are those of the recurrence, from the register at the start. */
  method Draw(g: Generator, k: nat) returns (out: seq<nat>)
    requires g.Valid() && g.randType != TYPE_0
    modifies g.table, g`fptr, g`rptr
    ensures g.Valid() && |out| == k
    ensures forall i :: 0 <= i < k ==>
      && out[i] == Output(Value(old(g.Register()), g.randSep, g.randDeg + i))
      && HalfOf(Value(old(g.Register()), g.randSep, g.randDeg + i), out[i])
  {
    hide Window, Shift, Output, Value;
    ghost var w := g.Register();
    out := [];
    while |out| < k
      invariant g.Valid() && |out| <= k && g.Register() == Run(w, g.randSep, |out|)
      invariant forall i :: 0 <= i < |out| ==> out[i] == Output(Value(w, g.randSep, g.randDeg + i))
    {
      var i := g.Random();
      RunIsRecurrence(w, g.randSep, |out| + 1, g.randDeg - 1);
      out := out + [i];
    }
    forall i | 0 <= i < k
      ensures HalfOf(Value(w, g.randSep, g.randDeg + i), out[i])
    {
      OutputHalves(Value(w, g.randSep, g.randDeg + i));
    }
  }

  /** The first value of a program that does not seed the generator. */
  method FirstDraw() returns (g: Generator, i: nat)
    ensures fresh(g) && g.Valid() && i == 2078917053
  {
    g := new Generator();
    ghost var w := g.Register();
    FirstWords(w, g.Words());
    hide Window, Output;
    i := g.Random();
    assert g.Register()[30] == Next(w, 3);
  }

  lemma FirstWords(w: seq<Long>, words: seq<Long>)
    requires words == StateOf(RANDTBL) && w == Window(words, 3)
    ensures Next(w, 3) == ToLong(0xf7d3837b)
    ensures Next(w, 3) % 0x1_0000_0000 == 0xf7d3837b
  {
    assert w[0] == words[3] && w[28] == words[0];
  }

  /**
   * A detour: switching to another array, drawing any number of values there, and switching back. The generator is
   * exactly where it was, so everything it produces from here on is what it would have produced.
   */
  method Detour(g: Generator, other: array<Long>, draws: nat)
    requires g.Valid() && other != g.table && Generator.Restorable(other, g.randType)
    modifies g, g.table, other
    ensures g.Valid() && g.table == old(g.table) && g.randType == old(g.randType)
    ensures g.Words() == old(g.Words()) && g.table[1] == old(g.table[1])
    ensures g.randType != TYPE_0 ==> g.rptr == old(g.rptr) && g.fptr == old(g.fptr) && g.Register() == old(g.Register())
  {
    var home := g.table;
    EncodeLossless(g.randType, g.rptr);
    var _ := g.SetState(other);
    var i := 0;
    while i < draws
      invariant g.Valid() && g.table == other && 0 <= i <= draws
      invariant home[0] == Encode(old(g.randType), old(g.rptr)) && home[1..] == old(g.table[1..])
    {
      var _ := g.Random();
      i := i + 1;
    }
    var _ := g.SetState(home);
    SamePrefix(home[..], old(g.table[..]), g.randDeg);
  }

  /** The TYPE_0 generator's state after k calls. */
  function LinearRun(a: Long, k: nat): Long {
    if k == 0 then a else LinearStep(LinearRun(a, k - 1))
  }

  /** k values are drawn, and thrown away. */
  method Discard(g: Generator, k: nat)
    requires g.Valid()
    modifies g.table, g`fptr, g`rptr
    ensures g.Valid() && g.table[0] == old(g.table[0])
    ensures g.randType == TYPE_0 ==> g.table[1] == LinearRun(old(g.table[1]), k)
    ensures g.randType != TYPE_0 ==> g.rptr == RearAfter(old(g.rptr), k, g.randDeg)
  {
    var i := 0;
    while i < k
      invariant 0 <= i <= k && g.Valid() && g.table[0] == old(g.table[0])
      invariant g.randType == TYPE_0 ==> g.table[1] == LinearRun(old(g.table[1]), i)
      invariant g.randType != TYPE_0 ==> g.rptr == RearAfter(old(g.rptr), i, g.randDeg)
    {
      var _ := g.Random();
      i := i + 1;
    }
  }

  /**
   * setstate with the array that is already current reads word 0 before it refreshes it. draws values after the
   * position was last saved, the state words stay as they are, and the position does if and only if draws is a multiple
   * of the degree. The TYPE_0 generator has no position, so it goes on where it was.
   */
  method Reselect(g: Generator, draws: nat) returns (ghost position: int, ghost state: seq<Long>)
    requires g.Valid() && g.table[0] == Encode(g.randType, g.rptr)
    modifies g, g.table
    ensures g.Valid() && g.table == old(g.table) && g.randType == old(g.randType) && g.table[1..] == state
    ensures g.randType == TYPE_0 ==> state[0] == LinearRun(old(g.table[1]), draws)
    ensures g.randType != TYPE_0 ==>
      && position == RearAfter(old(g.rptr), draws, g.randDeg) && g.rptr == old(g.rptr)
      && (g.rptr == position <==> draws % g.randDeg == 0)
  {
    EncodeLossless(g.randType, g.rptr);
    if g.randType != TYPE_0 {
      WholeRounds(g.rptr, draws, g.randDeg);
    }
    Discard(g, draws);
    position, state := g.rptr, g.table[1..];
    var _ := g.SetState(g.table);
  }

  /** A call of setstate with a munged word: the array is switched although nothing should change. */
  method MungedSwitch() returns (g: Generator, home: array<Long>, munged: array<Long>)
    ensures fresh(g) && g.Valid() && home != munged && g.table == munged && munged[0] == -1 && TypeOf(-1) < 0
  {
    g := new Generator();
    home := g.table;
    munged := new Long[32](_ => 0);
    munged[0] := -1;
    MungedWords(-1);
    var _ := g.SetState(munged);
  }

  /**
   * A register of degree 7 for which a position that is off by one changes the next value. It is reached by one draw
   * from position 0, so reselecting the current array there changes what the generator produces.
   */
  lemma PositionMatters() returns (start: seq<Long>, words: seq<Long>)
    ensures |start| == |words| == Degree(1) && Ahead(3, 0, 7, 3) && Ahead(4, 1, 7, 3)
    ensures words == start[3 := Sum(start[3], start[0])]
    ensures Output(Next(Window(words, 3), 3)) != Output(Next(Window(words, 4), 3))
  {
    start := [2, 0, 0, -2, 0, 0, 0];
    words := [2, 0, 0, 0, 0, 0, 0];
    assert Sum(-2, 2) == 0;
    assert Window(words, 3)[4] == 2 && Window(words, 3)[0] == 0;
    assert Window(words, 4)[4] == 0 && Window(words, 4)[0] == 0;
  }
}
