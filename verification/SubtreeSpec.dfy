/** Strict subtrees: the tree-shaped regions whose retained size is known without a cascade. */
module SubtreeSpec {
  import opened Sums
  import opened GraphTheory
  import opened CascadeSpec

  /** An object with at most one inbound source, all of whose referents are in `s`. */
  ghost predicate SubtreeReady(e: Edges, x: Address, s: set<Address>) {
    x in e && |Inbound(e, x)| <= 1 && e[x] <= s
  }

  ghost predicate SubtreeClosed(e: Edges, s: set<Address>) {
    forall x {:trigger SubtreeReady(e, x, s)} :: SubtreeReady(e, x, s) ==> x in s
  }

  /** The roots of strict subtrees: the least set closed under the rule. */
  ghost function StrictRoots(e: Edges): set<Address> {
    set x | x in e && forall s | SubtreeClosed(e, s) :: x in s
  }

  lemma StrictRootsLeast(e: Edges, s: set<Address>)
    requires SubtreeClosed(e, s)
    ensures StrictRoots(e) <= s
  {
  }

  lemma StrictRootsClosed(e: Edges)
    ensures SubtreeClosed(e, StrictRoots(e))
  {
    forall x | SubtreeReady(e, x, StrictRoots(e)) ensures x in StrictRoots(e) {
      forall s | SubtreeClosed(e, s) ensures x in s {
        StrictRootsLeast(e, s);
        assert SubtreeReady(e, x, s);
      }
    }
  }

  /** `roots` is closed downwards, and every edge inside it goes to a node of smaller rank. */
  ghost predicate Forest(e: Edges, roots: set<Address>, rank: map<Address, nat>) {
    && roots == rank.Keys
    && roots <= StrictRoots(e)
    && forall a | a in roots :: SubtreeReady(e, a, roots) && forall c | c in e[a] :: rank[c] < rank[a]
  }

  /** Such a set that may be stopped at: it is closed downwards and its members share no referent. */
  ghost predicate Stoppable(e: Edges, stop: set<Address>) {
    forall a | a in stop :: SubtreeReady(e, a, stop)
  }

  lemma SharedInbound(e: Edges, y: Address, p: Address, q: Address)
    requires |Inbound(e, y)| <= 1 && p in Inbound(e, y) && q in Inbound(e, y)
    ensures p == q
  {
    if p != q {
      SubsetCard({p, q}, Inbound(e, y));
    }
  }

  lemma ReachStaysInStop(e: Edges, stop: set<Address>, start: set<Address>)
    requires Stoppable(e, stop) && start <= stop
    ensures ReachFrom(e, start) <= stop
  {
    ReachLeast(e, start, stop);
  }

  /** Deleting a subtree root deletes exactly what is reachable from it. */
  lemma SubtreeRetainsReach(e: Edges, stop: set<Address>, r: Address)
    requires Stoppable(e, stop) && r in stop
    ensures Retained(e, r) == Reach(e, r)
  {
    var retained, reach := Retained(e, r), Reach(e, r);
    ReachClosed(e, {r});
    ReachStaysInStop(e, stop, {r});
    assert retained <= reach by {
      forall x | Inbound(e, x) != {} && Inbound(e, x) <= reach ensures x in reach {
        var p :| p in Inbound(e, x);
      }
      RetainedLeast(e, r, reach);
    }
    assert ClosedUnderRefs(e, retained * reach) by {
      forall x, y | x in retained * reach && x in e && y in e[x] ensures y in retained * reach {
        forall q | q in Inbound(e, y) ensures q in retained {
          SharedInbound(e, y, x, q);
        }
        assert x in Inbound(e, y);
        RetainedRule(e, r, y);
      }
    }
    RetainedSelf(e, r);
    ReachLeast(e, {r}, retained * reach);
  }

  lemma ForestRankBelow(e: Edges, roots: set<Address>, rank: map<Address, nat>, a: Address)
    requires Forest(e, roots, rank) && a in e && e[a] <= roots
    requires a in rank ==> forall c | c in e[a] :: rank[c] < rank[a]
    ensures a !in ReachFrom(e, e[a])
  {
    var below := set x | x in roots && (a in rank ==> rank[x] < rank[a]);
    assert ClosedUnderRefs(e, below);
    ReachLeast(e, e[a], below);
  }

  lemma SumOfRegions(e: Edges, sizes: map<Address, nat>, t: set<Address>, c: Address)
    requires ReachFrom(e, t) !! Reach(e, c)
    ensures SumOver(sizes, ReachFrom(e, t + {c})) == SumOver(sizes, ReachFrom(e, t)) + SumOver(sizes, Reach(e, c))
  {
    hide SumOver;
    ReachUnion(e, t, {c});
    SumUnion(sizes, ReachFrom(e, t), Reach(e, c));
  }

  lemma NothingReached(e: Edges)
    ensures ReachFrom(e, {}) == {}
  {
    ReachLeast(e, {}, {});
  }

  /** Reachable regions of a node's referents do not overlap when each is referenced only from it. */
  lemma {:induction false} ChildRegionsAddUp(e: Edges, sizes: map<Address, nat>, m: map<Address, nat>,
                                             stop: set<Address>, a: Address, s: set<Address>)
    requires Stoppable(e, stop) && a in e && s <= e[a] <= stop
    requires a !in ReachFrom(e, e[a])
    requires forall c | c in s :: Entry(m, c) == SumOver(sizes, Reach(e, c))
    ensures SumOver(sizes, ReachFrom(e, s)) == SumOver(m, s)
    decreases |s|
  {
    hide *;
    if s == {} {
      NothingReached(e);
      SumEmpty(sizes);
      SumEmpty(m);
    } else {
      var c :| c in s;
      var t := s - {c};
      ChildRegionsAddUp(e, sizes, m, stop, a, t);
      assert SumOver(m, s) == Entry(m, c) + SumOver(m, t) by { SumPick(m, s, c); }
      assert SumOver(sizes, ReachFrom(e, s)) == SumOver(sizes, ReachFrom(e, t)) + SumOver(sizes, Reach(e, c)) by {
        assert t + {c} == s;
        ChildRegionsDisjoint(e, stop, a, t, c);
        SumOfRegions(e, sizes, t, c);
      }
    }
  }

  lemma ChildRegionsDisjoint(e: Edges, stop: set<Address>, a: Address, t: set<Address>, c: Address)
    requires Stoppable(e, stop) && a in e && e[a] <= stop && t <= e[a] && c in e[a] && c !in t
    requires a !in ReachFrom(e, e[a])
    ensures ReachFrom(e, t) !! Reach(e, c)
  {
    var f, r := ReachFrom(e, t), Reach(e, c);
    ReachMonotone(e, t, e[a]);
    ReachMonotone(e, {c}, e[a]);
    ReachStaysInStop(e, stop, e[a]);
    ReachClosed(e, {c});
    // A node of both regions would have its only source in both, all the way up to `a`.
    forall x, y | (x in r - f || x == a) && y in e[x] && y !in t && x in e && y in r ensures y !in f {
      if y in f {
        ReachHasParent(e, t, y);
        var p :| p in f && p in Inbound(e, y);
        SharedInbound(e, y, p, x);
      }
    }
    assert ClosedUnderRefs(e, r - f) by {
      forall x, y | x in r - f && x in e && y in e[x] ensures y in r - f {
        if y in t {
          SharedInbound(e, y, a, x);
        }
      }
    }
    ReachLeast(e, {c}, r - f);
  }

  lemma ReachStep(e: Edges, a: Address)
    requires a in e
    ensures Reach(e, a) == ReachFrom(e, e[a]) + {a}
  {
    var below := ReachFrom(e, e[a]);
    ReachClosed(e, e[a]);
    ReachClosed(e, {a});
    hide ReachFrom;
    ReachLeast(e, {a}, below + {a});
    ReachLeast(e, e[a], Reach(e, a));
  }

  /** The recurrence for a stored subtree size is the sum over everything reachable. */
  lemma SubtreeSize(e: Edges, sizes: map<Address, nat>, m: map<Address, nat>, stop: set<Address>, a: Address)
    requires Stoppable(e, stop) && a in e && e[a] <= stop && a !in ReachFrom(e, e[a])
    requires forall c | c in e[a] :: Entry(m, c) == SumOver(sizes, Reach(e, c))
    ensures Entry(sizes, a) + SumOver(m, e[a]) == SumOver(sizes, Reach(e, a))
  {
    hide SumOver, Stoppable, ReachFrom;
    ChildRegionsAddUp(e, sizes, m, stop, a, e[a]);
    ReachStep(e, a);
    SumAdd(sizes, ReachFrom(e, e[a]), a);
  }

  /** No node of a finite set of roots can always have a referent in the same set. */
  lemma NoEndlessDescent(e: Edges, s: set<Address>)
    requires s <= StrictRoots(e)
    requires forall a | a in s :: a in e && e[a] * s != {}
    ensures s == {}
  {
    var rest := StrictRoots(e) - s;
    assert SubtreeClosed(e, rest) by {
      forall x | SubtreeReady(e, x, rest) ensures x in rest {
        StrictRootsClosed(e);
        assert SubtreeReady(e, x, StrictRoots(e));
      }
    }
    StrictRootsLeast(e, rest);
  }
}
