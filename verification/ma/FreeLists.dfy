/** Properties of the address-ordered free list and of the functions that edit it. */
module FreeLists {
  import opened Placement
  import opened Arena
  import opened Tilings

  ghost function Elems(l: seq<Piece>): set<Piece> {
    set p | p in l
  }

  /** In address order, without overlap. */
  ghost predicate Ascending(l: seq<Piece>) {
    && (forall p :: p in l ==> 0 < p.nbytes)
    && (forall i, j :: 0 <= i < j < |l| ==> l[i].End() <= l[j].addr)
  }

  /** In address order, and no two members touch: nothing is left to coalesce. */
  ghost predicate Gapped(l: seq<Piece>) {
    && (forall p :: p in l ==> 0 < p.nbytes)
    && (forall i, j :: 0 <= i < j < |l| ==> l[i].End() < l[j].addr)
  }

  /** Big enough for an AD and two guards, and aligned at both ends. */
  predicate SoundPiece(p: Piece) {
    Aligned(p.addr) && Aligned(p.nbytes) && BLOCK_OVERHEAD_FIXED <= p.nbytes
  }

  lemma AscendingCons(p: Piece, c: seq<Piece>)
    requires Ascending(c) && 0 < p.nbytes && forall q :: q in c ==> p.End() <= q.addr
    ensures Ascending([p] + c)
  {
  }

  lemma GappedCons(p: Piece, c: seq<Piece>)
    requires Gapped(c) && 0 < p.nbytes && forall q :: q in c ==> p.End() < q.addr
    ensures Gapped([p] + c)
  {
  }

  lemma GappedParts(l: seq<Piece>, r: seq<Piece>)
    requires Gapped(l + r)
    ensures Gapped(l) && Gapped(r)
    ensures forall p, q :: p in l && q in r ==> p.End() < q.addr
  {
    var w := l + r;
    assert forall i :: 0 <= i < |l| ==> w[i] == l[i];
    assert forall i :: 0 <= i < |r| ==> w[|l| + i] == r[i];
    assert forall p :: p in l ==> p in w;
    assert forall p :: p in r ==> p in w;
  }

  lemma GappedWhole(l: seq<Piece>, r: seq<Piece>)
    requires Gapped(l) && Gapped(r)
    requires forall p, q :: p in l && q in r ==> p.End() < q.addr
    ensures Gapped(l + r)
  {
  }

  lemma {:induction false} InsertOrderedSorted(p: Piece, l: seq<Piece>)
    requires Ascending(l) && 0 < p.nbytes && (forall q :: q in l ==> Apart(p, q) && p != q)
    ensures forall q :: q in InsertOrdered(p, l) <==> q == p || q in l
    ensures Ascending(InsertOrdered(p, l))
  {
    if l != [] {
      assert Apart(p, l[0]);
      AscendingTail(l);
      hide Ascending;
      if p.addr < l[0].addr {
        AscendingCons(p, l);
      } else {
        InsertOrderedSorted(p, l[1..]);
        AscendingCons(l[0], InsertOrdered(p, l[1..]));
      }
    } else {
      AscendingOne(p);
    }
  }

  lemma AscendingOne(p: Piece)
    requires 0 < p.nbytes
    ensures Ascending([p])
  {
  }

  /** The rest of an ascending list. */
  lemma AscendingTail(l: seq<Piece>)
    requires Ascending(l) && l != []
    ensures Ascending(l[1..]) && 0 < l[0].nbytes
    ensures forall q :: q in l <==> q == l[0] || q in l[1..]
    ensures forall q :: q in l[1..] ==> l[0].End() <= q.addr
  {
    assert l == [l[0]] + l[1..];
  }

  lemma {:induction false} UpToMembers(l: seq<Piece>, addr: nat)
    ensures forall p :: p in UpTo(l, addr) <==> p in l && p.addr <= addr
  {
    if l != [] {
      assert l == [l[0]] + l[1..];
      UpToMembers(l[1..], addr);
    }
  }

  lemma {:induction false} UpToGapped(l: seq<Piece>, addr: nat)
    requires Gapped(l)
    ensures Gapped(UpTo(l, addr))
  {
    if l != [] {
      UpToGapped(l[1..], addr);
      UpToMembers(l[1..], addr);
      if l[0].addr <= addr {
        GappedCons(l[0], UpTo(l[1..], addr));
      }
    }
  }

  /** Coalescing keeps an exact tiling exact, and leaves no two touching pieces. */
  lemma {:induction false} CoalesceTiling(l: seq<Piece>, T: set<Piece>, lo: nat, hi: nat)
    requires Ascending(l) && Elems(l) !! T && Tiling(Elems(l) + T, lo, hi)
    ensures Tiling(Elems(Coalesce(l)) + T, lo, hi) && Elems(Coalesce(l)) !! T
    ensures Gapped(Coalesce(l))
    ensures l != [] ==> Coalesce(l) != [] && Coalesce(l)[0].addr == l[0].addr
    decreases |l|
  {
    if |l| >= 2 {
      if l[0].End() == l[1].addr {
        CoalesceStep(l, T, lo, hi);
        CoalesceTiling([Piece(l[0].addr, l[0].nbytes + l[1].nbytes)] + l[2..], T, lo, hi);
      } else {
        var r := l[1..];
        assert l == [l[0]] + r;
        assert Elems(l) + T == Elems(r) + (T + {l[0]});
        assert l[0] !in r;
        CoalesceTiling(r, T + {l[0]}, lo, hi);
        var c := Coalesce(r);
        assert Elems([l[0]] + c) + T == Elems(c) + (T + {l[0]});
        GappedFirst(c);
        GappedCons(l[0], c);
      }
    }
  }

  /** The pieces after the first of a gapped list start at its first address or later. */
  lemma GappedFirst(c: seq<Piece>)
    requires Gapped(c) && c != []
    ensures forall q :: q in c ==> c[0].addr <= q.addr
  {
  }

  lemma AscendingParts(l: seq<Piece>, r: seq<Piece>)
    requires Ascending(l + r)
    ensures Ascending(l) && Ascending(r)
    ensures forall p, q :: p in l && q in r ==> p.End() <= q.addr
  {
    var w := l + r;
    assert forall i :: 0 <= i < |l| ==> w[i] == l[i];
    assert forall i :: 0 <= i < |r| ==> w[|l| + i] == r[i];
    assert forall p :: p in l ==> p in w;
    assert forall p :: p in r ==> p in w;
  }

  lemma AscendingStep(a: Piece, b: Piece, r: seq<Piece>)
    requires Ascending([a, b] + r) && a.End() == b.addr
    ensures Ascending([Piece(a.addr, a.nbytes + b.nbytes)] + r)
    ensures a !in r && b !in r
  {
    AscendingParts([a, b], r);
    assert a in [a, b] && b in [a, b];
    AscendingCons(Piece(a.addr, a.nbytes + b.nbytes), r);
  }

  /** Merging the first two pieces. */
  lemma CoalesceStep(l: seq<Piece>, T: set<Piece>, lo: nat, hi: nat)
    requires |l| >= 2 && l[0].End() == l[1].addr
    requires Ascending(l) && Elems(l) !! T && Tiling(Elems(l) + T, lo, hi)
    ensures var l' := [Piece(l[0].addr, l[0].nbytes + l[1].nbytes)] + l[2..];
      Ascending(l') && Elems(l') !! T && Tiling(Elems(l') + T, lo, hi)
  {
    var a, b, r := l[0], l[1], l[2..];
    var m := Piece(a.addr, a.nbytes + b.nbytes);
    assert l == [a, b] + r;
    AscendingStep(a, b, r);
    assert a in l && b in l && 0 < a.nbytes && 0 < b.nbytes;
    TilingDisjoint(Elems(l) + T, lo, hi);
    hide Ascending, Tiling, Disjoint;
    TilingMerge(Elems(l) + T, lo, hi, a, b);
    MergedNotIn(Elems(l), T, a, m);
    MergedElems(a, b, m, r, T);
  }

  lemma TilingDisjoint(S: set<Piece>, lo: nat, hi: nat)
    requires Tiling(S, lo, hi)
    ensures Disjoint(S)
  {
  }

  lemma MergedElems(a: Piece, b: Piece, m: Piece, r: seq<Piece>, T: set<Piece>)
    requires a !in r && b !in r && Elems([a, b] + r) !! T && m !in T
    ensures Elems([m] + r) !! T && Elems([m] + r) + T == Elems([a, b] + r) + T - {a, b} + {m}
  {
    assert Elems([a, b] + r) == {a, b} + Elems(r);
    assert Elems([m] + r) == {m} + Elems(r);
  }

  lemma MergedNotIn(S: set<Piece>, T: set<Piece>, a: Piece, m: Piece)
    requires S !! T && Disjoint(S + T) && a in S && m.addr == a.addr && 0 < a.nbytes < m.nbytes
    ensures m !in T
  {
    assert m in T ==> Apart(m, a);
  }

  lemma {:induction false} CoalesceSound(l: seq<Piece>)
    requires forall p :: p in l ==> SoundPiece(p)
    ensures forall p :: p in Coalesce(l) ==> SoundPiece(p)
    decreases |l|
  {
    if |l| >= 2 {
      if l[0].End() == l[1].addr {
        assert l[0] in l && l[1] in l;
        CoalesceSound([Piece(l[0].addr, l[0].nbytes + l[1].nbytes)] + l[2..]);
      } else {
        CoalesceSound(l[1..]);
      }
    }
  }

  /** Where insertion puts a piece, by position. */
  lemma {:induction false} InsertOrderedAt(p: Piece, l: seq<Piece>, i: nat)
    requires i <= |l|
    requires forall j :: 0 <= j < i ==> l[j].addr <= p.addr
    requires i < |l| ==> p.addr < l[i].addr
    ensures InsertOrdered(p, l) == l[..i] + [p] + l[i..]
  {
    if i > 0 {
      InsertOrderedAt(p, l[1..], i - 1);
      assert l == [l[0]] + l[1..];
      assert l[..i] == [l[0]] + l[1..][..i - 1];
      assert l[i..] == l[1..][i - 1..];
    }
  }
}
