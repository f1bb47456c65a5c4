/** Object graphs: who references whom, and what is reachable. */
module GraphTheory {
  type Address = nat

  /** Each object's outgoing references. A referent need not be an object itself: it may dangle. */
  type Edges = map<Address, set<Address>>

  ghost function Inbound(e: Edges, a: Address): (sources: set<Address>)
    ensures sources <= e.Keys
  {
    set x | x in e && a in e[x]
  }

  ghost function Referenced(e: Edges): set<Address> {
    set x, r | x in e && r in e[x] :: r
  }

  ghost function Nodes(e: Edges): set<Address> {
    e.Keys + Referenced(e)
  }

  ghost predicate ClosedUnderRefs(e: Edges, s: set<Address>) {
    forall x | x in s && x in e :: e[x] <= s
  }

  /** Everything reachable from `start`: the least set holding `start` and closed under references. */
  ghost function ReachFrom(e: Edges, start: set<Address>): set<Address> {
    set x | x in Nodes(e) + start && forall s | ClosedUnderRefs(e, s) && start <= s :: x in s
  }

  ghost function Reach(e: Edges, a: Address): set<Address> {
    ReachFrom(e, {a})
  }

  lemma ReachLeast(e: Edges, start: set<Address>, s: set<Address>)
    requires ClosedUnderRefs(e, s) && start <= s
    ensures ReachFrom(e, start) <= s
  {
  }

  lemma ReachClosed(e: Edges, start: set<Address>)
    ensures start <= ReachFrom(e, start)
    ensures ClosedUnderRefs(e, ReachFrom(e, start))
  {
    var r := ReachFrom(e, start);
    forall x, y | x in r && x in e && y in e[x] ensures y in r {
      assert y in Referenced(e);
      forall s | ClosedUnderRefs(e, s) && start <= s ensures y in s {
        assert x in s;
      }
    }
  }

  lemma ReachMonotone(e: Edges, a: set<Address>, b: set<Address>)
    requires a <= b
    ensures ReachFrom(e, a) <= ReachFrom(e, b)
  {
    ReachClosed(e, b);
    ReachLeast(e, a, ReachFrom(e, b));
  }

  lemma ReachUnion(e: Edges, a: set<Address>, b: set<Address>)
    ensures ReachFrom(e, a + b) == ReachFrom(e, a) + ReachFrom(e, b)
  {
    ReachMonotone(e, a, a + b);
    ReachMonotone(e, b, a + b);
    ReachClosed(e, a);
    ReachClosed(e, b);
    ReachLeast(e, a + b, ReachFrom(e, a) + ReachFrom(e, b));
  }

  /** Whatever is reached, and is not a start, is referenced by something reached. */
  lemma ReachHasParent(e: Edges, start: set<Address>, y: Address)
    requires y in ReachFrom(e, start) && y !in start
    ensures exists p :: p in ReachFrom(e, start) && p in Inbound(e, y)
  {
    var r := ReachFrom(e, start);
    ReachClosed(e, start);
    if forall p | p in r :: p !in Inbound(e, y) {
      assert ClosedUnderRefs(e, r - {y}) by {
        forall x | x in r - {y} && x in e ensures e[x] <= r - {y} {
          assert x !in Inbound(e, y);
        }
      }
      ReachLeast(e, start, r - {y});
    }
  }

  lemma OrphanNotReached(e: Edges, start: set<Address>, y: Address)
    requires y !in start && forall p | p in ReachFrom(e, start) :: p !in Inbound(e, y)
    ensures y !in ReachFrom(e, start)
  {
    if y in ReachFrom(e, start) {
      ReachHasParent(e, start, y);
    }
  }

  /** A walk along references. */
  ghost predicate Path(e: Edges, p: seq<Address>) {
    && |p| > 0
    && forall i | 0 <= i < |p| - 1 :: p[i] in Inbound(e, p[i + 1])
  }
}
