/**
 * The default state table of compat/random.c: its words are those that srandom(1) computes, so that the generator
 * starts as if initstate had been called with seed 1.
 */
module DefaultTable {
  import opened Arithmetic
  import opened Trinomial

  /** The 31 state words of type 3, unsigned. */
  datatype Row = Row(
    x0: nat, x1: nat, x2: nat, x3: nat, x4: nat, x5: nat, x6: nat, x7: nat, x8: nat, x9: nat,
    x10: nat, x11: nat, x12: nat, x13: nat, x14: nat, x15: nat, x16: nat, x17: nat, x18: nat, x19: nat,
    x20: nat, x21: nat, x22: nat, x23: nat, x24: nat, x25: nat, x26: nat, x27: nat, x28: nat, x29: nat,
    x30: nat)

  /** The state words as longs. */
  function StateOf(r: Row): (s: seq<Long>)
    ensures |s| == 31
  {
    [
      ToLong(r.x0), ToLong(r.x1), ToLong(r.x2), ToLong(r.x3), ToLong(r.x4), ToLong(r.x5), ToLong(r.x6),
      ToLong(r.x7), ToLong(r.x8), ToLong(r.x9), ToLong(r.x10), ToLong(r.x11), ToLong(r.x12), ToLong(r.x13),
      ToLong(r.x14), ToLong(r.x15), ToLong(r.x16), ToLong(r.x17), ToLong(r.x18), ToLong(r.x19), ToLong(r.x20),
      ToLong(r.x21), ToLong(r.x22), ToLong(r.x23), ToLong(r.x24), ToLong(r.x25), ToLong(r.x26), ToLong(r.x27),
      ToLong(r.x28), ToLong(r.x29), ToLong(r.x30)
    ]
  }

  predicate Plus(y: nat, a: nat, b: nat) {
    y == (a + b) % 0x1_0000_0000
  }

  predicate Times(y: nat, a: nat) {
    y == (1103515245 * a + 12345) % 0x1_0000_0000
  }

  /** The words of s are those of r after the front pointer has gone round once, from position 3. */
  predicate Follows(s: Row, r: Row) {
    && Plus(s.x3, r.x3, r.x0) && Plus(s.x4, r.x4, r.x1) && Plus(s.x5, r.x5, r.x2) && Plus(s.x6, r.x6, s.x3)
    && Plus(s.x7, r.x7, s.x4) && Plus(s.x8, r.x8, s.x5) && Plus(s.x9, r.x9, s.x6) && Plus(s.x10, r.x10, s.x7)
    && Plus(s.x11, r.x11, s.x8) && Plus(s.x12, r.x12, s.x9) && Plus(s.x13, r.x13, s.x10) && Plus(s.x14, r.x14, s.x11)
    && Plus(s.x15, r.x15, s.x12) && Plus(s.x16, r.x16, s.x13) && Plus(s.x17, r.x17, s.x14) && Plus(s.x18, r.x18, s.x15)
    && Plus(s.x19, r.x19, s.x16) && Plus(s.x20, r.x20, s.x17) && Plus(s.x21, r.x21, s.x18) && Plus(s.x22, r.x22, s.x19)
    && Plus(s.x23, r.x23, s.x20) && Plus(s.x24, r.x24, s.x21) && Plus(s.x25, r.x25, s.x22) && Plus(s.x26, r.x26, s.x23)
    && Plus(s.x27, r.x27, s.x24) && Plus(s.x28, r.x28, s.x25) && Plus(s.x29, r.x29, s.x26) && Plus(s.x30, r.x30, s.x27)
    && Plus(s.x0, r.x0, s.x28) && Plus(s.x1, r.x1, s.x29) && Plus(s.x2, r.x2, s.x30)
  }

  /** The words of r are congruential values, from 1. */
  predicate FromOne(r: Row) {
    && r.x0 == 1
    && Times(r.x1, r.x0) && Times(r.x2, r.x1) && Times(r.x3, r.x2) && Times(r.x4, r.x3) && Times(r.x5, r.x4)
    && Times(r.x6, r.x5) && Times(r.x7, r.x6) && Times(r.x8, r.x7) && Times(r.x9, r.x8) && Times(r.x10, r.x9)
    && Times(r.x11, r.x10) && Times(r.x12, r.x11) && Times(r.x13, r.x12) && Times(r.x14, r.x13) && Times(r.x15, r.x14)
    && Times(r.x16, r.x15) && Times(r.x17, r.x16) && Times(r.x18, r.x17) && Times(r.x19, r.x18) && Times(r.x20, r.x19)
    && Times(r.x21, r.x20) && Times(r.x22, r.x21) && Times(r.x23, r.x22) && Times(r.x24, r.x23) && Times(r.x25, r.x24)
    && Times(r.x26, r.x25) && Times(r.x27, r.x26) && Times(r.x28, r.x27) && Times(r.x29, r.x28) && Times(r.x30, r.x29)
  }

  /** What srandom(1) starts from, and the table after each of its ten rounds. */
  const SEEDS: Row := Row(
    0x00000001, 0x41c67ea6, 0x967eb0e7, 0x2781e494, 0xc46b9b3d, 0xf94bdf32, 0x95fb7483, 0xd9e2b600, 0x9cfbae39,
    0xbf54bc7e, 0x0ff6d5df, 0x0abd322c, 0x31dff4f5, 0x237c228a, 0xaf1cf0fb, 0x7de14518, 0xc487eb71, 0xe201dd56,
    0xd2bfa1d7, 0xe2319ac4, 0xe3decdad, 0xe95678e2, 0x93728473, 0x500f9f30, 0x284797a9, 0x2c67412e, 0x7566f4cf,
    0x42877e5c, 0xb3590565, 0x4daa423a, 0xe4880eeb)

  const ROUND1: Row := Row(
    0x2d741988, 0x0168615b, 0xce7f4033, 0x2781e495, 0x063219e3, 0x8fca9019, 0xbd7d5918, 0xe014cfe3, 0x2cc63e52,
    0x7cd21596, 0xf00ba5c2, 0x3783707e, 0xaeb20a8b, 0x1387c84c, 0xe6a06179, 0x2c934fa3, 0xd80fb3bd, 0xc8a23ecf,
    0xff52f17a, 0xba414e81, 0xac810c7c, 0xe8a96a5c, 0x4db3d2f4, 0xfc90abac, 0x10f10205, 0x7a1b1422, 0x71f7a07b,
    0x53788061, 0x2d741987, 0xbfa1e2b5, 0x38008f4c)

  const ROUND2: Row := Row(
    0xa04ad592, 0x4de9bc17, 0xbd7074b4, 0x54f5fe1d, 0x079a7b3e, 0x5e49d04c, 0x12735735, 0xe7af4b21, 0x8b100e9e,
    0x8f456ccb, 0xd7baf0e3, 0xc2937f1c, 0x3df77756, 0xeb42b92f, 0xa933e095, 0x6a8ac6f9, 0xc3526cec, 0x71d61f64,
    0x69ddb873, 0x7d93bb6d, 0x1e572be0, 0x528722cf, 0xcb478e61, 0x1ae7d78c, 0x637824d4, 0x4562a283, 0x8cdf7807,
    0xb6f0a535, 0x72d6bc0a, 0x4c815abc, 0xeef13481)

  const ROUND3: Row := Row(
    0x64e31761, 0xe4f164f9, 0xc2ab247e, 0xf540d3af, 0x55843755, 0x1bba4500, 0x07b42ae4, 0x3d338276, 0xa6ca539e,
    0x96f997af, 0x14ee7359, 0x695dd2ba, 0xd4f10f05, 0x00312c88, 0x1291b34f, 0x3f7bd5fe, 0xc3839974, 0x8467d2b3,
    0xa9598e71, 0x411754e1, 0xa2befe93, 0xfbe0b140, 0x0c5ee342, 0xbda6d61f, 0x5f58d614, 0x51c185c5, 0x4a864e26,
    0x16497b49, 0xc49841cf, 0x9707a8e2, 0x053aafca)

  const ROUND4: Row := Row(
    0x18ff6f31, 0xac6c468b, 0xf000f7fc, 0x5a23eb10, 0x3a759c4e, 0xde65697e, 0x61d815f4, 0x77a91ec4, 0x852fbd1c,
    0xf8d1ada3, 0x8c97921d, 0xee8d8fd6, 0xcdc2bca8, 0x8cc8bea5, 0x011f4325, 0x0d3e92a6, 0x504c5819, 0x858715d8,
    0xb6982117, 0x9163acfa, 0x2846146b, 0xb278d257, 0x9dc2903c, 0xe5ecea8a, 0x11d1a86b, 0xef841601, 0x307338b0,
    0x281b23b4, 0xb41c57d0, 0xc77ae192, 0x2d55d37e)

  const ROUND5: Row := Row(
    0xb3fdc4b0, 0x7b57672b, 0x6922f82d, 0x73235a41, 0xe6e1e2d9, 0xce66617a, 0xd4fb7035, 0x5e8b019d, 0x53961e96,
    0xcdcd1dd8, 0xeb2293ba, 0x4223ae6c, 0x9b8fda80, 0x77eb525f, 0x4342f191, 0xa8ce6d26, 0xc837aa78, 0xc8ca0769,
    0x5f668e3d, 0x599b5772, 0xf1101bd4, 0x11df6094, 0xf75de7ae, 0xd6fd065e, 0x23b108ff, 0xe6e1fdaf, 0x07703f0e,
    0x4bcc2cb3, 0x9afe557f, 0xceeb20a0, 0x79220031)

  const ROUND6: Row := Row(
    0x72e13330, 0xf31008ae, 0xd1501185, 0x27211ef1, 0x62394a04, 0x378959a7, 0xfc1c8f26, 0xc0c44ba1, 0x8b1f783d,
    0xc9e9acfe, 0xabe6df5b, 0xcd4326a9, 0x6579877e, 0x23d231ba, 0x1086183a, 0x0e47f4a4, 0xec09dc32, 0xd9501fa3,
    0x6dae82e1, 0x45a533a4, 0xca603b77, 0x7f8de375, 0x3d031b52, 0xa15d41d5, 0xa33eec74, 0x23e51901, 0xa8cd80e3,
    0xef0b1927, 0xbee36e80, 0x77b8a183, 0x682d1958)

  const ROUND7: Row := Row(
    0xaa229541, 0xca65ea4f, 0x8ccda135, 0x9a025221, 0x554952b2, 0x08d96b2c, 0x961ee147, 0x160d9e53, 0x93f8e369,
    0x60088e45, 0xc1f47dae, 0x613c0a12, 0xc58215c3, 0xe5c6af68, 0x71c2224c, 0xd3ca0a67, 0xd1d08b9a, 0x4b1241ef,
    0x41788d48, 0x1775bf3e, 0x15727d66, 0xc10670bd, 0x5478da90, 0xb6cfbf3b, 0x64455d31, 0x785df391, 0x5f9d401e,
    0x53507658, 0x37416211, 0xd755e1a1, 0xbb7d8fb0)

  const ROUND8: Row := Row(
    0x74f918b5, 0x154ba6c6, 0xd5f8798b, 0x4424e762, 0x1faf3d01, 0x95a70c61, 0xda43c8a9, 0x35bcdb54, 0x299fefca,
    0x3a4c56ee, 0xf7b15902, 0x8adbf9dc, 0xffce6cb1, 0xdd78086a, 0xfc9e1c28, 0xd3987718, 0xaf489404, 0x47b05e17,
    0x15110460, 0xc6be5342, 0x5d22db7d, 0xd617751d, 0x1b372dd2, 0x13f29ab8, 0x3a5cd24e, 0x93952163, 0x738fdad6,
    0x8dad48a6, 0xcad68374, 0x4ae5bc77, 0x492ad856)

  const ROUND9: Row := Row(
    0xa483f32b, 0xa9409e19, 0x736ae9c9, 0xb91e0017, 0x34fae3c7, 0x6b9f85ec, 0x9361c8c0, 0x6ab7bf1b, 0x953f75b6,
    0xcdae1fae, 0x6269181d, 0x201b6f92, 0xcd7c8c5f, 0x3fe12087, 0x1cb98bba, 0xa1150377, 0xef29b48b, 0x6469e9d1,
    0xb62607d7, 0xb5e807cd, 0xc18cc54e, 0x8c3d7cf4, 0xd11f359f, 0xd57f6006, 0xc69a4f42, 0x64b45702, 0x490f3adc,
    0x544797e8, 0x2f8ada76, 0x93f4f753, 0x9d72703e)

  /** randtbl, from its word 1 on. */
  const RANDTBL: Row := Row(
    0x9a319039, 0x32d9c024, 0x9b663182, 0x5da1f342, 0xde3b81e0, 0xdf0a6fb5, 0xf103bc02, 0x48f340fb, 0x7449e56b,
    0xbeb1dbb0, 0xab5c5918, 0x946554fd, 0x8c2e680f, 0xeb3d799f, 0xb11ee0b7, 0x2d436b86, 0xda672e2a, 0x1588ca88,
    0xe369735d, 0x904f35f7, 0xd7158fd6, 0x6fa6f051, 0x616e6b96, 0xac94efdc, 0x36413f93, 0xc622c298, 0xf5a42ab8,
    0x8a88d77b, 0xf5ad9d0e, 0x8999220b, 0x27fb47b9)

  lemma TheSeeds()
    ensures FromOne(SEEDS)
  {
  }

  lemma Rounds12()
    ensures Follows(ROUND1, SEEDS) && Follows(ROUND2, ROUND1)
  {
  }

  lemma Rounds34()
    ensures Follows(ROUND3, ROUND2) && Follows(ROUND4, ROUND3)
  {
  }

  lemma Rounds56()
    ensures Follows(ROUND5, ROUND4) && Follows(ROUND6, ROUND5)
  {
  }

  lemma Rounds78()
    ensures Follows(ROUND7, ROUND6) && Follows(ROUND8, ROUND7)
  {
  }

  lemma LastRounds()
    ensures Follows(ROUND9, ROUND8) && Follows(RANDTBL, ROUND9)
  {
  }

  // ---------- a round ----------

  lemma WrapLong(x: int)
    ensures ToLong(x % TWO32) == ToLong(x)
  {
    ModAdd(x, 0x8000_0000, TWO32);
  }

  lemma LongIs(x: int)
    ensures exists q: int :: ToLong(x) == x + q * TWO32
  {
    var q := (x + 0x8000_0000) / TWO32;
    assert ToLong(x) == x + (-q) * TWO32;
  }

  lemma ToLongMod(x: int, y: int, q: int)
    requires x == y + q * TWO32
    ensures ToLong(x) == ToLong(y)
  {
    var r := (y + 0x8000_0000) % TWO32;
    ModUnique(x + 0x8000_0000, TWO32, q + (y + 0x8000_0000) / TWO32, r);
  }

  lemma SumToLong(a: nat, b: nat)
    ensures ToLong((a + b) % TWO32) == Sum(ToLong(a), ToLong(b))
  {
    WrapLong(a + b);
    LongIs(a);
    LongIs(b);
    var p: int :| ToLong(a) == a + p * TWO32;
    var q: int :| ToLong(b) == b + q * TWO32;
    ToLongMod(ToLong(a) + ToLong(b), a + b, p + q);
  }

  lemma TimesToLong(a: nat)
    ensures ToLong((1103515245 * a + 12345) % TWO32) == Congruent(ToLong(a))
  {
    WrapLong(1103515245 * a + 12345);
    LongIs(a);
    var p: int :| ToLong(a) == a + p * TWO32;
    ToLongMod(1103515245 * ToLong(a) + 12345, 1103515245 * a + 12345, 1103515245 * p);
  }

  lemma PlusLong(y: nat, a: nat, b: nat)
    requires Plus(y, a, b)
    ensures ToLong(y) == Sum(ToLong(a), ToLong(b))
  {
    hide ToLong, Sum;
    SumToLong(a, b);
  }

  lemma PlusLongs()
    ensures forall y: nat, a: nat, b: nat :: Plus(y, a, b) ==> ToLong(y) == Sum(ToLong(a), ToLong(b))
  {
    hide ToLong, Sum, Plus;
    forall y: nat, a: nat, b: nat | Plus(y, a, b)
      ensures ToLong(y) == Sum(ToLong(a), ToLong(b))
    {
      PlusLong(y, a, b);
    }
  }

  lemma TimesLongs()
    ensures forall y: nat, a: nat :: Times(y, a) ==> ToLong(y) == Congruent(ToLong(a))
  {
    hide ToLong, Congruent;
    forall y: nat, a: nat | Times(y, a)
      ensures ToLong(y) == Congruent(ToLong(a))
    {
      TimesToLong(a);
    }
  }

  /** The value sep back from place i of the renewed register u: still in w, for the first few. */
  function Back(w: seq<Long>, u: seq<Long>, sep: nat, i: nat): Long
    requires 0 < sep <= |w| == |u| && i < |w|
  {
    if i < sep then w[|w| - sep + i] else u[i - sep]
  }

  /** Register u is register w after a round: each value is the sum of the old one and the one sep back. */
  ghost predicate Renewed(w: seq<Long>, u: seq<Long>, sep: nat) {
    && 0 < sep <= |w| == |u|
    && forall i :: 0 <= i < |w| ==> u[i] == Sum(w[i], Back(w, u, sep, i))
  }

  lemma RoundSlices(w: seq<Long>, u: seq<Long>, sep: nat, k: nat)
    requires 0 < sep <= |w| == |u| && k < |w|
    ensures (w[k..] + u[..k])[0] == w[k] && (w[k..] + u[..k])[|w| - sep] == Back(w, u, sep, k)
    ensures (w[k..] + u[..k])[1..] + [u[k]] == w[k + 1..] + u[..k + 1]
  {
  }

  lemma RenewedIs(w: seq<Long>, u: seq<Long>, sep: nat, k: nat)
    requires Renewed(w, u, sep) && k < |w|
    ensures 0 < sep <= |w| == |u| && u[k] == Sum(w[k], Back(w, u, sep, k))
  {
    hide Back, Sum;
  }

  lemma RoundStep(w: seq<Long>, u: seq<Long>, sep: nat, k: nat)
    requires Renewed(w, u, sep) && k < |w|
    ensures 0 < sep <= |w| == |u| && Shift(w[k..] + u[..k], sep) == w[k + 1..] + u[..k + 1]
  {
    hide Renewed, Back, Sum;
    RenewedIs(w, u, sep, k);
    RoundSlices(w, u, sep, k);
  }

  lemma {:induction false} RoundOf(w: seq<Long>, u: seq<Long>, sep: nat, k: nat)
    requires Renewed(w, u, sep) && k <= |w|
    ensures Run(w, sep, k) == w[k..] + u[..k]
  {
    hide Renewed, Shift;
    RenewedSizes(w, u, sep);
    if k > 0 {
      RoundOf(w, u, sep, k - 1);
      RoundStep(w, u, sep, k - 1);
    }
  }

  lemma RenewedSizes(w: seq<Long>, u: seq<Long>, sep: nat)
    requires Renewed(w, u, sep)
    ensures 0 < sep <= |w| == |u|
  {
  }

  lemma {:induction false} RunOn(w: seq<Long>, sep: nat, j: nat, k: nat)
    requires 0 < sep <= |w|
    ensures Run(Run(w, sep, j), sep, k) == Run(w, sep, j + k)
  {
    if k > 0 {
      RunOn(w, sep, j, k - 1);
    }
  }

  lemma RowStart(s: Row, r: Row)
    requires Follows(s, r)
    ensures StateOf(s)[0] == Sum(StateOf(r)[0], StateOf(s)[28])
    ensures StateOf(s)[1] == Sum(StateOf(r)[1], StateOf(s)[29])
    ensures StateOf(s)[2] == Sum(StateOf(r)[2], StateOf(s)[30])
  {
    hide ToLong, Sum, Plus;
    PlusLong(s.x0, r.x0, s.x28);
    PlusLong(s.x1, r.x1, s.x29);
    PlusLong(s.x2, r.x2, s.x30);
  }

  lemma RowNext(s: Row, r: Row)
    requires Follows(s, r)
    ensures StateOf(s)[3] == Sum(StateOf(r)[3], StateOf(r)[0])
    ensures StateOf(s)[4] == Sum(StateOf(r)[4], StateOf(r)[1])
    ensures StateOf(s)[5] == Sum(StateOf(r)[5], StateOf(r)[2])
  {
    hide ToLong, Sum, Plus;
    PlusLong(s.x3, r.x3, r.x0);
    PlusLong(s.x4, r.x4, r.x1);
    PlusLong(s.x5, r.x5, r.x2);
  }

  lemma RowMiddle(s: Row, r: Row, i: nat)
    requires Follows(s, r) && 6 <= i < 18
    ensures StateOf(s)[i] == Sum(StateOf(r)[i], StateOf(s)[i - 3])
  {
    PlusLongs();
    hide ToLong, Sum, Plus;
  }

  lemma RowEnd(s: Row, r: Row, i: nat)
    requires Follows(s, r) && 18 <= i < 31
    ensures StateOf(s)[i] == Sum(StateOf(r)[i], StateOf(s)[i - 3])
  {
    PlusLongs();
    hide ToLong, Sum, Plus;
  }

  lemma WindowAt(x: seq<Long>, i: nat)
    requires |x| == 31 && i < 31
    ensures |Window(x, 3)| == 31 && Window(x, 3)[i] == x[if i < 28 then i + 3 else i - 28]
  {
  }

  /** Place i of the registers of two successive rows. */
  lemma RenewedAt(s: Row, r: Row, i: nat)
    requires Follows(s, r) && i < 31
    ensures |Window(StateOf(s), 3)| == 31 && |Window(StateOf(r), 3)| == 31
    ensures Window(StateOf(s), 3)[i] ==
      Sum(Window(StateOf(r), 3)[i], Back(Window(StateOf(r), 3), Window(StateOf(s), 3), 3, i))
  {
    hide Follows, StateOf, Sum, Window;
    var x, y := StateOf(r), StateOf(s);
    WindowAt(x, i);
    WindowAt(y, i);
    if i < 3 {
      RowNext(s, r);
      WindowAt(x, 28 + i);
    } else {
      WindowAt(y, i - 3);
      if i < 15 { RowMiddle(s, r, i + 3); } else if i < 28 { RowEnd(s, r, i + 3); } else { RowStart(s, r); }
    }
  }

  lemma OneRound(s: Row, r: Row)
    requires Follows(s, r)
    ensures Run(Window(StateOf(r), 3), 3, 31) == Window(StateOf(s), 3)
  {
    hide Follows, StateOf, Sum, Window, Run, Back;
    var w, u := Window(StateOf(r), 3), Window(StateOf(s), 3);
    RenewedAt(s, r, 0);
    forall i | 0 <= i < 31
      ensures u[i] == Sum(w[i], Back(w, u, 3, i))
    {
      RenewedAt(s, r, i);
    }
    assert Renewed(w, u, 3);
    RoundOf(w, u, 3, 31);
    assert w[31..] + u[..31] == u;
  }

  // ---------- all rounds ----------

  lemma SeedLow(r: Row, i: nat)
    requires FromOne(r) && i < 15
    ensures StateOf(r)[0] == ToLong(1) && StateOf(r)[i + 1] == Congruent(StateOf(r)[i])
  {
    TimesLongs();
    hide ToLong, Congruent, Times;
  }

  lemma SeedHigh(r: Row, i: nat)
    requires FromOne(r) && 15 <= i < 30
    ensures StateOf(r)[i + 1] == Congruent(StateOf(r)[i])
  {
    TimesLongs();
    hide ToLong, Congruent, Times;
  }

  lemma {:induction false} SeedsAre(r: Row, n: nat)
    requires FromOne(r) && n <= 31
    ensures Congruential(ToLong(1), n) == StateOf(r)[..n]
  {
    hide FromOne, StateOf, ToLong, Congruent;
    SeedLow(r, 0);
    if n > 1 {
      SeedsAre(r, n - 1);
      if n < 17 { SeedLow(r, n - 2); } else { SeedHigh(r, n - 2); }
      assert StateOf(r)[..n] == StateOf(r)[..n - 1] + [StateOf(r)[n - 1]];
    }
  }

  /** One more round. */
  lemma Onward(w: seq<Long>, k: nat, r: Row, s: Row)
    requires |w| == 31 && Run(w, 3, k) == Window(StateOf(r), 3) && Follows(s, r)
    ensures Run(w, 3, k + 31) == Window(StateOf(s), 3)
  {
    hide Run, Window, StateOf, Follows;
    OneRound(s, r);
    RunOn(w, 3, k, 31);
  }

  /**
   * The comment on randtbl holds: ten rounds from the congruential values of seed 1 give exactly the words of the
   * default table.
   */
  lemma DefaultIsSeeded()
    ensures Run(Window(Congruential(ToLong(1), 31), 3), 3, 310) == Window(StateOf(RANDTBL), 3)
  {
    hide StateOf, Follows, FromOne, ToLong, Window, Run, Congruential;
    TheSeeds();
    Rounds12();
    Rounds34();
    Rounds56();
    Rounds78();
    LastRounds();
    SeedsAre(SEEDS, 31);
    assert StateOf(SEEDS)[..31] == StateOf(SEEDS);
    var w := Window(StateOf(SEEDS), 3);
    WindowAt(StateOf(SEEDS), 0);
    RunNone(w);
    Onward(w, 0, SEEDS, ROUND1);
    Onward(w, 31, ROUND1, ROUND2);
    Onward(w, 62, ROUND2, ROUND3);
    Onward(w, 93, ROUND3, ROUND4);
    Onward(w, 124, ROUND4, ROUND5);
    Onward(w, 155, ROUND5, ROUND6);
    Onward(w, 186, ROUND6, ROUND7);
    Onward(w, 217, ROUND7, ROUND8);
    Onward(w, 248, ROUND8, ROUND9);
    Onward(w, 279, ROUND9, RANDTBL);
  }

  lemma RunNone(w: seq<Long>)
    requires |w| == 31
    ensures Run(w, 3, 0) == w
  {
  }
}
