/**
 * Tilings: sets of pieces that lie in a region without overlap and leave no byte of it out, and what taking out,
 * splitting, merging and adding pieces does to them.
 */
module Tilings {
  import opened Arena

  ghost predicate StartsAt(S: set<Piece>, x: int) {
    exists p :: p in S && p.addr == x
  }

  /** p is followed immediately by another piece, or it ends the region. */
  ghost predicate Followed(S: set<Piece>, p: Piece, hi: nat) {
    p.End() == hi || StartsAt(S, p.End())
  }

  predicate Apart(p: Piece, q: Piece) {
    p == q || p.End() <= q.addr || q.End() <= p.addr
  }

  ghost predicate Within(S: set<Piece>, lo: nat, hi: nat) {
    lo <= hi && forall p :: p in S ==> lo <= p.addr && 0 < p.nbytes && p.End() <= hi
  }

  ghost predicate Disjoint(S: set<Piece>) {
    forall p, q {:trigger Apart(p, q)} :: p in S && q in S ==> Apart(p, q)
  }

  ghost predicate NoHoles(S: set<Piece>, lo: nat, hi: nat) {
    && (lo == hi || StartsAt(S, lo))
    && forall p {:trigger Followed(S, p, hi)} :: p in S ==> Followed(S, p, hi)
  }

  /** The pieces are nonempty, disjoint, inside [lo, hi), and leave no hole. */
  ghost predicate Tiling(S: set<Piece>, lo: nat, hi: nat) {
    Within(S, lo, hi) && Disjoint(S) && NoHoles(S, lo, hi)
  }

  lemma SplitDisjoint(S: set<Piece>, T: set<Piece>, p: Piece, a: Piece, b: Piece)
    requires Disjoint(S) && p in S && T == S - {p} + {a, b}
    requires p.addr == a.addr && a.End() == b.addr && b.End() == p.End()
    ensures Disjoint(T)
  {
    forall q, r | q in T && r in T
      ensures Apart(q, r)
    {
      var q' := if q == a || q == b then p else q;
      var r' := if r == a || r == b then p else r;
      assert Apart(q', r');
    }
  }

  /** Splitting p into a and b starts pieces where there were some before, and one at b. */
  lemma SplitStarts(S: set<Piece>, T: set<Piece>, p: Piece, a: Piece, b: Piece)
    requires p in S && T == S - {p} + {a, b} && p.addr == a.addr
    ensures StartsAt(T, b.addr) && forall x :: StartsAt(S, x) ==> StartsAt(T, x)
  {
    assert a in T && b in T;
    forall x | StartsAt(S, x)
      ensures StartsAt(T, x)
    {
      var q :| q in S && q.addr == x;
      assert q != p ==> q in T;
    }
  }

  lemma TilingSplit(S: set<Piece>, lo: nat, hi: nat, p: Piece, k: nat)
    requires Tiling(S, lo, hi) && p in S && 0 < k < p.nbytes
    ensures Tiling(S - {p} + {Piece(p.addr, k), Piece(p.addr + k, p.nbytes - k)}, lo, hi)
  {
    var a, b := Piece(p.addr, k), Piece(p.addr + k, p.nbytes - k);
    var T := S - {p} + {a, b};
    SplitDisjoint(S, T, p, a, b);
    SplitStarts(S, T, p, a, b);
    hide Disjoint, StartsAt;
    forall q | q in T
      ensures Followed(T, q, hi)
    {
      if q != a {
        assert Followed(S, if q == b then p else q, hi);
      }
    }
  }

  lemma TilingMerge(S: set<Piece>, lo: nat, hi: nat, p: Piece, q: Piece)
    requires Tiling(S, lo, hi) && p in S && q in S && p.End() == q.addr
    ensures Tiling(S - {p, q} + {Piece(p.addr, p.nbytes + q.nbytes)}, lo, hi)
  {
    var m := Piece(p.addr, p.nbytes + q.nbytes);
    var T := S - {p, q} + {m};
    forall t, r | t in T && r in T
      ensures Apart(t, r)
    {
      if t == m && r != m {
        assert Apart(p, r) && Apart(q, r);
      } else if r == m && t != m {
        assert Apart(t, p) && Apart(t, q);
      } else {
        assert t == r || Apart(t, r);
      }
    }
    forall x | StartsAt(S, x) && x != q.addr
      ensures StartsAt(T, x)
    {
      var t :| t in S && t.addr == x;
      assert (if t == p then m else t) in T;
    }
    forall r | r in T
      ensures Followed(T, r, hi)
    {
      var o := if r == m then q else r;
      assert Followed(S, o, hi) && o.End() == r.End();
      assert o != q ==> Apart(o, p) && Apart(o, q);
    }
  }

  lemma TilingExtend(S: set<Piece>, lo: nat, hi: nat, n: nat)
    requires Tiling(S, lo, hi) && 0 < n
    ensures Tiling(S + {Piece(hi, n)}, lo, hi + n)
  {
    var e := Piece(hi, n);
    var T := S + {e};
    forall t, r | t in T && r in T
      ensures Apart(t, r)
    {
      assert t == e || r == e || Apart(t, r);
    }
    forall x | StartsAt(S, x) || x == hi
      ensures StartsAt(T, x)
    {
      if x == hi {
        assert e in T;
      } else {
        var q :| q in S && q.addr == x;
        assert q in T;
      }
    }
    forall q | q in T
      ensures Followed(T, q, hi + n)
    {
      assert q == e || Followed(S, q, hi);
    }
  }

  ghost function NotAbove(S: set<Piece>, addr: nat): set<Piece> {
    set p | p in S && p.addr <= addr
  }

  /** Dropping everything above one piece leaves a tiling that ends with it. */
  lemma TilingCut(S: set<Piece>, lo: nat, hi: nat, m: Piece)
    requires Tiling(S, lo, hi) && m in S
    ensures Tiling(NotAbove(S, m.addr), lo, m.End())
  {
    var T := NotAbove(S, m.addr);
    forall x | StartsAt(S, x) && x <= m.addr
      ensures StartsAt(T, x)
    {
      var t :| t in S && t.addr == x;
      assert t in T;
    }
    forall p | p in T
      ensures p.End() <= m.End() && Followed(T, p, m.End())
    {
      assert Apart(p, m) && Followed(S, p, hi);
    }
    forall t, r | t in T && r in T
      ensures Apart(t, r)
    {
    }
  }

  /** Every byte of [lo, hi) belongs to exactly one piece. */
  lemma TilingCovers(S: set<Piece>, lo: nat, hi: nat, x: nat) returns (p: Piece)
    requires Tiling(S, lo, hi) && lo <= x < hi
    ensures p in S && p.addr <= x < p.End()
    ensures forall q :: q in S && q.addr <= x < q.End() ==> q == p
  {
    p :| p in S && p.addr == lo;
    while p.End() <= x
      invariant p in S && p.addr <= x
      decreases x - p.addr
    {
      assert Followed(S, p, hi);
      var e := p.End();
      assert StartsAt(S, e);
      p :| p in S && p.addr == e;
    }
    forall q | q in S && q.addr <= x < q.End()
      ensures q == p
    {
      assert Apart(p, q);
    }
  }
}
