/**
 * The documented meaning of retained sizes, the bytes made unreachable by deleting an object or the locals of a
 * thread, and exactly when the cascades find it. Reachable is what a root reaches: a local of any thread, or an
 * object that nothing references and that something outside the dump must therefore hold.
 */
module RetainedMeaning {
  import opened GraphTheory
  import opened CascadeSpec
  import opened HeapModel
  import opened ThreadSpec
  import opened RetainedStructure

  // ---------------------------------------------------------------- upstream

  ghost predicate SourcesClosed(e: Edges, s: set<Address>) {
    forall x | x in s :: Inbound(e, x) <= s
  }

  /** Everything that references lead from to `from`: the least set holding `from` and the sources of its members. */
  ghost function Upstream(e: Edges, from: set<Address>): set<Address> {
    set x | x in e.Keys + from && forall s | SourcesClosed(e, s) && from <= s :: x in s
  }

  lemma UpstreamLeast(e: Edges, from: set<Address>, s: set<Address>)
    requires SourcesClosed(e, s) && from <= s
    ensures Upstream(e, from) <= s
  {
  }

  lemma UpstreamClosed(e: Edges, from: set<Address>)
    ensures from <= Upstream(e, from) && SourcesClosed(e, Upstream(e, from))
  {
    var up := Upstream(e, from);
    forall x, y | x in up && y in Inbound(e, x) ensures y in up {
      forall s | SourcesClosed(e, s) && from <= s ensures y in s {
        assert x in s;
      }
    }
  }

  lemma AcyclicPart(e: Edges, s: set<Address>, part: set<Address>)
    requires Acyclic(e, s) && part <= s
    ensures Acyclic(e, part)
  {
    hide Inbound;
    forall c | c != {} && c <= part ensures exists x :: x in c && Inbound(e, x) !! c {
      assert c <= s;
    }
  }

  // ---------------------------------------------------------------- cascades from a set of addresses

  /** What goes when `start` is let go of, except where something that stays holds it directly. */
  ghost function Release(e: Edges, start: set<Address>, held: set<Address>): set<Address> {
    Least(e, ReleaseSeeds(e, start, held))
  }

  ghost function ReleaseSeeds(e: Edges, start: set<Address>, held: set<Address>): Seeds {
    map a | a in start :: |Inbound(e, a)| + if a in held then 1 else 0
  }

  ghost predicate Freed(e: Edges, start: set<Address>, held: set<Address>, x: Address, s: set<Address>) {
    && Inbound(e, x) <= s
    && if x in start then x !in held else Inbound(e, x) != {}
  }

  lemma ReadyIsFreed(e: Edges, start: set<Address>, held: set<Address>, x: Address, s: set<Address>)
    ensures Ready(e, ReleaseSeeds(e, start, held), x, s) <==> Freed(e, start, held, x, s)
  {
    hide Inbound;
    CountIsAll(Inbound(e, x), s);
  }

  lemma ReleaseRule(e: Edges, start: set<Address>, held: set<Address>, x: Address)
    ensures x in Release(e, start, held) <==> Freed(e, start, held, x, Release(e, start, held))
  {
    hide Freed, Ready, Least, ReleaseSeeds;
    LeastReady(e, ReleaseSeeds(e, start, held), x);
    ReadyIsFreed(e, start, held, x, Release(e, start, held));
  }

  lemma ReleaseLeast(e: Edges, start: set<Address>, held: set<Address>, s: set<Address>)
    requires forall x | Freed(e, start, held, x, s) :: x in s
    ensures Release(e, start, held) <= s
  {
    hide Freed, Ready, Least, ReleaseSeeds;
    forall x | Ready(e, ReleaseSeeds(e, start, held), x, s) ensures x in s {
      ReadyIsFreed(e, start, held, x, s);
    }
    LeastIsLeast(e, ReleaseSeeds(e, start, held), s);
  }

  lemma ReleaseSources(e: Edges, start: set<Address>, held: set<Address>)
    ensures SourcesClosed(e, Release(e, start, held)) && Acyclic(e, Release(e, start, held))
  {
    hide Release, Inbound;
    var gone := Release(e, start, held);
    forall x | x in gone ensures Inbound(e, x) <= gone {
      ReleaseRule(e, start, held, x);
    }
    forall c | c != {} && c <= gone ensures exists x :: x in c && Inbound(e, x) !! c {
      if forall x | x in c :: !(Inbound(e, x) !! c) {
        forall x | Freed(e, start, held, x, gone - c) ensures x in gone - c {
          ReleaseRule(e, start, held, x);
        }
        ReleaseLeast(e, start, held, gone - c);
      }
    }
  }

  lemma FirstOf(e: Edges, s: set<Address>, part: set<Address>) returns (x: Address)
    requires Acyclic(e, s) && part <= s && part != {}
    ensures x in part && Inbound(e, x) !! part
  {
    hide Inbound;
    x :| x in part && Inbound(e, x) !! part;
  }

  /** Whatever holds all its own sources, has no cycle, and ends upstream at `start` only, goes. */
  lemma SourcesRelease(e: Edges, start: set<Address>, held: set<Address>, s: set<Address>)
    requires SourcesClosed(e, s) && Acyclic(e, s)
    requires forall x | x in s :: if x in start then x !in held else Inbound(e, x) != {}
    ensures s <= Release(e, start, held)
  {
    hide Release, Inbound, Acyclic;
    var left := s - Release(e, start, held);
    if left != {} {
      var x := FirstOf(e, s, left);
      forall q | q in Inbound(e, x) ensures q in Release(e, start, held) {
        assert q in s && q !in left;
      }
      ReleaseRule(e, start, held, x);
    }
    forall x | x in s ensures x in Release(e, start, held) {
      assert x !in left;
    }
  }

  lemma ReleaseByAncestry(e: Edges, start: set<Address>, held: set<Address>, x: Address)
    ensures x in Release(e, start, held) <==>
            var up := Upstream(e, {x});
            && Acyclic(e, up)
            && forall y | y in up :: if y in start then y !in held else Inbound(e, y) != {}
  {
    hide Release, Inbound, Upstream, Acyclic, SourcesClosed;
    var up, gone := Upstream(e, {x}), Release(e, start, held);
    UpstreamClosed(e, {x});
    ReleaseSources(e, start, held);
    if x in gone {
      UpstreamLeast(e, {x}, gone);
      AcyclicPart(e, gone, up);
      forall y | y in up ensures if y in start then y !in held else Inbound(e, y) != {} {
        ReleaseRule(e, start, held, y);
      }
    }
    if Acyclic(e, up) && forall y | y in up :: if y in start then y !in held else Inbound(e, y) != {} {
      SourcesRelease(e, start, held, up);
    }
  }

  // ---------------------------------------------------------------- against reachability

  /** What the roots in `kept` do not reach once `start` is let go of. */
  ghost function Lost(e: Edges, start: set<Address>, kept: set<Address>): set<Address> {
    ReachFrom(e, kept + start) - ReachFrom(e, kept)
  }

  lemma ReleaseIsReached(e: Edges, start: set<Address>, held: set<Address>)
    ensures Release(e, start, held) <= ReachFrom(e, start)
  {
    hide Release, ReachFrom;
    var gone, reached := Release(e, start, held), ReachFrom(e, start);
    ReachClosed(e, start);
    forall x | Freed(e, start, held, x, gone * reached) ensures x in gone * reached {
      ReleaseRule(e, start, held, x);
      if x !in start {
        var q :| q in Inbound(e, x);
        assert q in reached;
      }
    }
    ReleaseLeast(e, start, held, gone * reached);
  }

  /** A set that contains the sources of its members and no root is not reached. */
  lemma SourcesUnreached(e: Edges, kept: set<Address>, s: set<Address>)
    requires SourcesClosed(e, s) && s !! kept
    ensures s !! ReachFrom(e, kept)
  {
    hide ReachFrom;
    var live := ReachFrom(e, kept);
    ReachClosed(e, kept);
    forall x | x in live - s && x in e ensures e[x] <= live - s {
      forall y | y in e[x] ensures y in live - s {
        assert x in Inbound(e, y);
      }
    }
    ReachLeast(e, kept, live - s);
  }

  lemma LostIsFarFromRoots(e: Edges, start: set<Address>, kept: set<Address>)
    ensures Upstream(e, Lost(e, start, kept)) !! ReachFrom(e, kept)
    ensures Upstream(e, Lost(e, start, kept)) <= Nodes(e) + start
  {
    hide Upstream, ReachFrom;
    var lost, live := Lost(e, start, kept), ReachFrom(e, kept);
    var up := Upstream(e, lost);
    UpstreamClosed(e, lost);
    ReachClosed(e, kept);
    forall x | x in up - live ensures Inbound(e, x) <= up - live {
      forall q | q in Inbound(e, x) ensures q in up - live {
        assert x in e[q];
      }
    }
    UpstreamLeast(e, lost, up - live);
    LostAreNodes(e, start, kept);
    UpstreamNodes(e, lost);
  }

  lemma LostAreNodes(e: Edges, start: set<Address>, kept: set<Address>)
    ensures Lost(e, start, kept) <= Nodes(e) + start
  {
    hide Nodes;
    ReachClosed(e, kept);
  }

  lemma UpstreamNodes(e: Edges, from: set<Address>)
    ensures Upstream(e, from) <= e.Keys + from
  {
  }

  /**
   * A cascade from `start` deletes nothing that a root still reaches if and only if it deletes no root; it
   * misses nothing if and only if no cycle lies upstream of what is lost.
   */
  lemma ReleaseMeaning(e: Edges, start: set<Address>, held: set<Address>, kept: set<Address>)
    requires held <= kept
    requires forall x | x in Nodes(e) - start && Inbound(e, x) == {} :: x in kept
    ensures Release(e, start, held) <= Lost(e, start, kept) <==> Release(e, start, held) !! kept
    ensures Lost(e, start, kept) <= Release(e, start, held) <==> Acyclic(e, Upstream(e, Lost(e, start, kept)))
  {
    hide Release, ReachFrom, Upstream, Inbound, Nodes, Acyclic, SourcesClosed;
    var gone, lost := Release(e, start, held), Lost(e, start, kept);
    var up := Upstream(e, lost);
    ReleaseSources(e, start, held);
    ReleaseIsReached(e, start, held);
    ReachMonotone(e, start, kept + start);
    ReachClosed(e, kept);
    UpstreamClosed(e, lost);
    if gone !! kept {
      SourcesUnreached(e, kept, gone);
    }
    if lost <= gone {
      UpstreamLeast(e, lost, gone);
      AcyclicPart(e, gone, up);
    }
    if Acyclic(e, up) {
      LostIsFarFromRoots(e, start, kept);
      forall x | x in up ensures if x in start then x !in held else Inbound(e, x) != {} {
        assert x !in kept;
      }
      SourcesRelease(e, start, held, up);
    }
  }

  // ---------------------------------------------------------------- deleting an object

  ghost function Unreferenced(e: Edges): set<Address> {
    set x | x in e && Inbound(e, x) == {}
  }

  /** The heap after `o` is gone. */
  ghost function Without(e: Edges, o: Address): Edges {
    map x | x in e && x != o :: e[x] - {o}
  }

  ghost function ReferentsOf(e: Edges, o: Address): set<Address> {
    (if o in e then e[o] else {}) - {o}
  }

  /** Reachable as long as `o` is there, and not once it is gone. */
  ghost function MadeUnreachable(e: Edges, locals: set<Address>, o: Address): set<Address> {
    var roots := locals + Unreferenced(e);
    ReachFrom(e, roots + {o}) - ReachFrom(Without(e, o), roots - {o})
  }

  /** `x` lives by `o` alone: with `o` gone, nothing upstream of it is on a cycle, and all there had been referenced. */
  ghost predicate OnlyThrough(e: Edges, o: Address, x: Address) {
    var rest, up := Without(e, o), Upstream(Without(e, o), {x});
    x != o && Acyclic(rest, up) && forall y | y in up :: Inbound(e, y) != {}
  }

  lemma InboundWithout(e: Edges, o: Address, x: Address)
    ensures Inbound(Without(e, o), x) == if x == o then {} else Inbound(e, x) - {o}
    ensures x != o ==> (o in Inbound(e, x) <==> x in ReferentsOf(e, o))
  {
  }

  lemma FreedIsRetained(e: Edges, o: Address, x: Address)
    requires Freed(Without(e, o), ReferentsOf(e, o), {}, x, Retained(e, o) - {o})
    ensures x in Retained(e, o) - {o}
  {
    hide Retained, Inbound, Without, ReferentsOf;
    NotOwnReferent(e, o);
    InboundWithout(e, o, x);
    RetainedRule(e, o, x);
    RetainedSelf(e, o);
    forall q | q in Inbound(e, x) ensures q in Retained(e, o) {
      assert q == o || q in Inbound(Without(e, o), x);
    }
  }

  /** Deleting an object is deleting it and then letting go of its referents. */
  lemma RetainedIsRelease(e: Edges, o: Address)
    ensures o !in Release(Without(e, o), ReferentsOf(e, o), {})
    ensures Retained(e, o) == {o} + Release(Without(e, o), ReferentsOf(e, o), {})
  {
    hide Release, Retained, Inbound, Without, ReferentsOf;
    var rest, start := Without(e, o), ReferentsOf(e, o);
    var gone := Release(rest, start, {});
    assert o !in start by {
      NotOwnReferent(e, o);
    }
    ReleaseRule(rest, start, {}, o);
    InboundWithout(e, o, o);
    forall x | Inbound(e, x) != {} && Inbound(e, x) <= {o} + gone ensures x in {o} + gone {
      InboundWithout(e, o, x);
      ReleaseRule(rest, start, {}, x);
    }
    RetainedLeast(e, o, {o} + gone);
    forall x | Freed(rest, start, {}, x, Retained(e, o) - {o}) ensures x in Retained(e, o) - {o} {
      FreedIsRetained(e, o, x);
    }
    ReleaseLeast(rest, start, {}, Retained(e, o) - {o});
    RetainedSelf(e, o);
  }

  lemma NotOwnReferent(e: Edges, o: Address)
    ensures o !in ReferentsOf(e, o)
  {
  }

  /** A retained set without any cascade: what lives by its owner alone. */
  lemma RetainedByAncestry(e: Edges, o: Address, x: Address)
    ensures x in Retained(e, o) <==> x == o || OnlyThrough(e, o, x)
  {
    hide Release, Retained, Inbound, Without, ReferentsOf, Upstream, Acyclic;
    RetainedIsRelease(e, o);
    if x != o {
      var rest, start, up := Without(e, o), ReferentsOf(e, o), Upstream(Without(e, o), {x});
      ReleaseByAncestry(rest, start, {}, x);
      assert o !in up by {
        UpstreamNodes(rest, {x});
        OwnerGone(e, o);
      }
      forall y | y in up ensures (y in start || Inbound(rest, y) != {}) <==> Inbound(e, y) != {} {
        InboundWithout(e, o, y);
      }
    }
  }

  lemma OwnerGone(e: Edges, o: Address)
    ensures o !in Without(e, o)
  {
  }

  lemma ReachedWithOwner(e: Edges, o: Address, kept: set<Address>)
    requires o !in kept
    ensures ReachFrom(e, kept + {o}) == {o} + ReachFrom(Without(e, o), kept + ReferentsOf(e, o))
    ensures o !in ReachFrom(Without(e, o), kept)
  {
    hide ReachFrom;
    var rest, start := Without(e, o), ReferentsOf(e, o);
    var with, without := ReachFrom(e, kept + {o}), ReachFrom(rest, kept + start);
    ReachClosed(e, kept + {o});
    ReachClosed(rest, kept + start);
    ReachLeast(e, kept + {o}, {o} + without);
    ReachLeast(rest, kept + start, with);
    OrphanNotReached(rest, kept, o);
  }

  lemma MadeUnreachableIsLost(e: Edges, locals: set<Address>, o: Address)
    ensures MadeUnreachable(e, locals, o) ==
            {o} + Lost(Without(e, o), ReferentsOf(e, o), locals + Unreferenced(e) - {o})
    ensures o !in Lost(Without(e, o), ReferentsOf(e, o), locals + Unreferenced(e) - {o})
  {
    hide ReachFrom, Without, ReferentsOf, Unreferenced;
    var kept := locals + Unreferenced(e) - {o};
    assert locals + Unreferenced(e) + {o} == kept + {o};
    ReachedWithOwner(e, o, kept);
    NotOwnReferent(e, o);
    OrphanNotLost(e, o, kept);
  }

  lemma OrphanNotLost(e: Edges, o: Address, kept: set<Address>)
    requires o !in kept
    ensures o !in Lost(Without(e, o), ReferentsOf(e, o), kept)
  {
    hide ReachFrom;
    OrphanNotReached(Without(e, o), kept + ReferentsOf(e, o), o);
  }

  lemma NodeWithoutSource(e: Edges, x: Address)
    requires x in Nodes(e)
    ensures x in e || Inbound(e, x) != {}
  {
    if x !in e {
      var p :| p in e && x in e[p];
      assert p in Inbound(e, x);
    }
  }

  lemma StillUnreferenced(e: Edges, o: Address, x: Address)
    requires x in Nodes(Without(e, o)) - ReferentsOf(e, o) && Inbound(Without(e, o), x) == {}
    ensures x in Unreferenced(e) && x != o
  {
    hide Inbound;
    InboundWithout(e, o, x);
    NodeWithoutSource(Without(e, o), x);
  }

  /**
   * The documented meaning of an object's retained size. The cascade takes nothing that stays reachable if and
   * only if no thread has a local that lives by the object alone, since it ignores what threads hold. It takes
   * all that becomes unreachable if and only if no cycle lies upstream of that, since a cycle keeps its counts.
   */
  lemma RetainedMeansUnreachable(e: Edges, locals: set<Address>, o: Address)
    ensures Retained(e, o) <= MadeUnreachable(e, locals, o) <==> forall x | x in locals :: !OnlyThrough(e, o, x)
    ensures MadeUnreachable(e, locals, o) <= Retained(e, o) <==>
            Acyclic(Without(e, o), Upstream(Without(e, o), MadeUnreachable(e, locals, o) - {o}))
  {
    hide Release, Retained, Inbound, Without, ReferentsOf, Upstream, Acyclic, Lost, Unreferenced, Nodes,
         MadeUnreachable, OnlyThrough;
    var rest, start, kept := Without(e, o), ReferentsOf(e, o), locals + Unreferenced(e) - {o};
    RetainedIsRelease(e, o);
    MadeUnreachableIsLost(e, locals, o);
    assert MadeUnreachable(e, locals, o) - {o} == Lost(rest, start, kept);
    forall x | x in Nodes(rest) - start && Inbound(rest, x) == {} ensures x in kept {
      StillUnreferenced(e, o, x);
    }
    ReleaseMeaning(rest, start, {}, kept);
    forall x | x in locals ensures x in Release(rest, start, {}) <==> OnlyThrough(e, o, x) {
      RetainedByAncestry(e, o, x);
      OwnerNotThroughItself(e, o);
    }
    forall x | x in Unreferenced(e) ensures x !in Release(rest, start, {}) {
      UnreferencedStays(e, o, x);
    }
  }

  lemma OwnerNotThroughItself(e: Edges, o: Address)
    ensures !OnlyThrough(e, o, o)
  {
  }

  lemma UnreferencedStays(e: Edges, o: Address, x: Address)
    requires x in Unreferenced(e)
    ensures x in Retained(e, o) ==> x == o
  {
    hide Retained;
    RetainedRule(e, o, x);
  }

  /** Without cycles in the heap, threads are all that can make the retained size differ from its documentation. */
  lemma RetainedOnAcyclicHeap(e: Edges, locals: set<Address>, o: Address)
    requires Acyclic(e, Nodes(e))
    ensures Retained(e, o) == MadeUnreachable(e, locals, o) <==> forall x | x in locals :: !OnlyThrough(e, o, x)
  {
    hide Retained, Inbound, Without, ReferentsOf, Upstream, Lost, Unreferenced, MadeUnreachable, OnlyThrough, Nodes;
    var rest, start, kept := Without(e, o), ReferentsOf(e, o), locals + Unreferenced(e) - {o};
    RetainedMeansUnreachable(e, locals, o);
    MadeUnreachableIsLost(e, locals, o);
    var lost := MadeUnreachable(e, locals, o) - {o};
    assert lost == Lost(rest, start, kept);
    var up := Upstream(rest, lost);
    assert up <= Nodes(e) by {
      LostAreNodes(rest, start, kept);
      UpstreamNodes(rest, lost);
      NodesWithout(e, o);
    }
    forall c | c != {} && c <= up ensures exists x :: x in c && Inbound(rest, x) !! c {
      assert c <= Nodes(e);
      var x := FirstOf(e, Nodes(e), c);
      InboundWithout(e, o, x);
    }
  }

  lemma NodesWithout(e: Edges, o: Address)
    ensures Nodes(Without(e, o)) + ReferentsOf(e, o) <= Nodes(e) && Without(e, o).Keys <= Nodes(e)
  {
    var rest := Without(e, o);
    forall r | r in Referenced(rest) + ReferentsOf(e, o) ensures r in Referenced(e) {
      if r in Referenced(rest) {
        var x :| x in rest && r in rest[x];
        assert x in e && r in e[x];
      }
    }
  }

  /** A thread that holds a referent keeps it reachable; the cascade of its only owner counts it all the same. */
  lemma HeldReferentIsCounted()
    ensures var e: Edges := map[1 := {2}, 2 := {}];
            Acyclic(e, Nodes(e)) && Retained(e, 1) == {1, 2} && MadeUnreachable(e, {2}, 1) == {1}
  {
    hide Retained, ReachFrom;
    var e: Edges := map[1 := {2}, 2 := {}];
    assert Inbound(e, 1) == {} && Inbound(e, 2) == {1};
    PairIsAcyclic(e);
    RetainedSelf(e, 1);
    RetainedRule(e, 1, 2);
    forall x | Inbound(e, x) != {} ensures x in {1, 2} {
      var p :| p in Inbound(e, x);
    }
    RetainedLeast(e, 1, {1, 2});
    var roots := {2} + Unreferenced(e);
    assert roots == {1, 2};
    ReachLeast(e, roots + {1}, {1, 2});
    ReachClosed(e, roots + {1});
    ReachClosed(Without(e, 1), roots - {1});
    OrphanNotReached(Without(e, 1), roots - {1}, 1);
  }

  lemma PairIsAcyclic(e: Edges)
    requires e == map[1 := {2}, 2 := {}]
    ensures Acyclic(e, Nodes(e))
  {
    assert Inbound(e, 1) == {} && Inbound(e, 2) == {1};
    forall c: set<Address> | c != {} && c <= Nodes(e) ensures exists x :: x in c && Inbound(e, x) !! c {
      if 1 in c {
        assert Inbound(e, 1) !! c;
      } else {
        var x :| x in c;
        assert x == 2;
        assert Inbound(e, 2) !! c;
      }
    }
  }

  /** Two objects that reference each other become unreachable with their only holder, and are not counted. */
  lemma LostCycleIsMissed()
    ensures var e: Edges := map[1 := {2}, 2 := {3}, 3 := {2}];
            Retained(e, 1) == {1} && MadeUnreachable(e, {}, 1) == {1, 2, 3}
  {
    hide Retained, ReachFrom;
    var e: Edges := map[1 := {2}, 2 := {3}, 3 := {2}];
    CycleSurvives();
    assert 3 in Inbound(e, 2) && 2 in Inbound(e, 3) && Inbound(e, 1) == {};
    var roots := {} + Unreferenced(e);
    assert roots == {1};
    ReachClosed(e, roots + {1});
    ReachLeast(e, roots + {1}, {1, 2, 3});
    ReachLeast(Without(e, 1), roots - {1}, {});
  }

  /** A cycle that nothing outside it references was unreachable before: it does not disturb other objects' sizes. */
  lemma DeadCycleDoesNotMatter()
    ensures var e: Edges := map[1 := {}, 2 := {3}, 3 := {2}];
            Retained(e, 1) == {1} && MadeUnreachable(e, {}, 1) == {1} && 2 in Dominated(e, 1)
  {
    hide Retained, ReachFrom;
    var e: Edges := map[1 := {}, 2 := {3}, 3 := {2}];
    assert Inbound(e, 1) == {} && Inbound(e, 2) == {3} && Inbound(e, 3) == {2};
    RetainedSelf(e, 1);
    forall x | Inbound(e, x) != {} ensures !(Inbound(e, x) <= {1}) {
      var p :| p in Inbound(e, x);
    }
    RetainedLeast(e, 1, {1});
    var roots := {} + Unreferenced(e);
    assert roots == {1};
    ReachClosed(e, roots + {1});
    ReachLeast(e, roots + {1}, {1});
    ReachLeast(Without(e, 1), roots - {1}, {});
    forall p | Path(e, p) && p[|p| - 1] == 2 && Inbound(e, p[0]) == {} ensures 1 in p {
      DeadCycleIsNotEntered(e, p);
    }
  }

  lemma DeadCycleIsNotEntered(e: Edges, p: seq<Address>)
    requires e == map[1 := {}, 2 := {3}, 3 := {2}] && Path(e, p) && Inbound(e, p[0]) == {}
    ensures p[|p| - 1] != 2 || 1 in p
  {
    assert 3 in Inbound(e, 2) && 2 in Inbound(e, 3);
    if |p| > 1 {
      assert p[0] in Inbound(e, p[0 + 1]);
    }
  }

  // ---------------------------------------------------------------- deleting a thread's locals

  /** What threads other than `removed` hold in their locals. */
  ghost function OtherLocals(threads: seq<Thread>, removed: Thread): set<Address> {
    set t, a | t in threads && t != removed && a in t.Locals() :: a
  }

  /** What the threads at other places hold in their locals, copies of the one at `i` included. */
  ghost function LocalsElsewhere(threads: seq<Thread>, i: nat): set<Address>
    requires i < |threads|
  {
    set j, a | 0 <= j < |threads| && j != i && a in threads[j].Locals() :: a
  }

  /** Reachable as long as the thread at `i` is there, and not once its locals are gone. */
  ghost function ThreadMadeUnreachable(e: Edges, threads: seq<Thread>, i: nat): set<Address>
    requires i < |threads|
  {
    var elsewhere, mine := LocalsElsewhere(threads, i), threads[i].Locals();
    ReachFrom(e, elsewhere + Unreferenced(e) + mine) - ReachFrom(e, elsewhere + (Unreferenced(e) - mine))
  }

  /** `x` lives by the locals of `removed` alone: nothing upstream is on a cycle, and it ends there at such locals. */
  ghost predicate OnlyFromLocals(e: Edges, threads: seq<Thread>, removed: Thread, x: Address) {
    var up := Upstream(e, {x});
    && Acyclic(e, up)
    && forall y | y in up ::
         if y in removed.Locals() then y !in OtherLocals(threads, removed) else Inbound(e, y) != {}
  }

  lemma ThreadReadyIsFreed(e: Edges, threads: seq<Thread>, removed: Thread, x: Address, s: set<Address>)
    ensures Ready(e, ThreadSeeds(e, threads, removed), x, s) <==>
            Freed(e, removed.Locals(), OtherLocals(threads, removed), x, s)
  {
    hide Inbound;
    CountIsAll(Inbound(e, x), s);
    OtherHoldersZero(threads, removed, x);
  }

  lemma ThreadRetainedIsRelease(e: Edges, threads: seq<Thread>, removed: Thread)
    ensures ThreadRetained(e, threads, removed) == Release(e, removed.Locals(), OtherLocals(threads, removed))
  {
    hide Ready, Freed, Least, ThreadSeeds, Release, OtherLocals;
    var v, start, held := ThreadSeeds(e, threads, removed), removed.Locals(), OtherLocals(threads, removed);
    var mine, gone := Least(e, v), Release(e, start, held);
    forall x | Ready(e, v, x, gone) ensures x in gone {
      ThreadReadyIsFreed(e, threads, removed, x, gone);
      ReleaseRule(e, start, held, x);
    }
    LeastIsLeast(e, v, gone);
    forall x | Freed(e, start, held, x, mine) ensures x in mine {
      ThreadReadyIsFreed(e, threads, removed, x, mine);
      LeastReady(e, v, x);
    }
    ReleaseLeast(e, start, held, mine);
  }

  /** A thread's retained set without any cascade: what lives by its locals alone. */
  lemma ThreadRetainedByAncestry(e: Edges, threads: seq<Thread>, removed: Thread, x: Address)
    ensures x in ThreadRetained(e, threads, removed) <==> OnlyFromLocals(e, threads, removed, x)
  {
    hide ThreadRetained, Release, OtherLocals, Upstream, Acyclic, Inbound;
    ThreadRetainedIsRelease(e, threads, removed);
    ReleaseByAncestry(e, removed.Locals(), OtherLocals(threads, removed), x);
  }

  lemma OthersAreElsewhere(threads: seq<Thread>, i: nat)
    requires i < |threads|
    ensures OtherLocals(threads, threads[i]) <= LocalsElsewhere(threads, i)
  {
    forall a | a in OtherLocals(threads, threads[i]) ensures a in LocalsElsewhere(threads, i) {
      var t :| t in threads && t != threads[i] && a in t.Locals();
      var j :| 0 <= j < |threads| && threads[j] == t;
      assert j != i;
    }
  }

  /**
   * The documented meaning of a thread's retained size. The cascade takes nothing that stays reachable if and
   * only if no thread elsewhere holds what lives by this thread's locals alone: it asks who else holds an address
   * only of those locals, and does not count a copy of the thread. It takes all that becomes unreachable if and
   * only if no cycle lies upstream of that.
   */
  lemma ThreadRetainedMeansUnreachable(e: Edges, threads: seq<Thread>, i: nat)
    requires i < |threads|
    ensures ThreadRetained(e, threads, threads[i]) <= ThreadMadeUnreachable(e, threads, i) <==>
            forall x | x in LocalsElsewhere(threads, i) :: !OnlyFromLocals(e, threads, threads[i], x)
    ensures ThreadMadeUnreachable(e, threads, i) <= ThreadRetained(e, threads, threads[i]) <==>
            Acyclic(e, Upstream(e, ThreadMadeUnreachable(e, threads, i)))
  {
    hide ThreadRetained, Release, OtherLocals, LocalsElsewhere, Upstream, Acyclic, Inbound, ReachFrom, OnlyFromLocals;
    var removed := threads[i];
    var start, others, elsewhere := removed.Locals(), OtherLocals(threads, removed), LocalsElsewhere(threads, i);
    var kept := elsewhere + (Unreferenced(e) - start);
    assert kept + start == elsewhere + Unreferenced(e) + start;
    ThreadRetainedIsRelease(e, threads, removed);
    OthersAreElsewhere(threads, i);
    forall x | x in Nodes(e) - start && Inbound(e, x) == {} ensures x in kept {
      NodeWithoutSource(e, x);
    }
    ReleaseMeaning(e, start, others, kept);
    forall x | x in elsewhere
      ensures x in ThreadRetained(e, threads, removed) <==> OnlyFromLocals(e, threads, removed, x)
    {
      ThreadRetainedByAncestry(e, threads, removed, x);
    }
    forall x | x in Unreferenced(e) - start ensures x !in ThreadRetained(e, threads, removed) {
      ReleaseRule(e, start, others, x);
    }
  }

  /** One thread holds an object, another its referent: the first thread's cascade counts the referent all the same. */
  lemma OtherThreadsReferentIsCounted()
    ensures var e: Edges, threads := map[1 := {2}, 2 := {}], [Holding(1), Holding(2)];
            && ThreadRetained(e, threads, threads[0]) == {1, 2}
            && ThreadMadeUnreachable(e, threads, 0) == {1}
  {
    hide ThreadRetained, ReachFrom;
    var e: Edges, threads, t := map[1 := {2}, 2 := {}], [Holding(1), Holding(2)], Holding(1);
    HoldingLocals(1);
    HoldingLocals(2);
    assert Inbound(e, 1) == {} && Inbound(e, 2) == {1};
    ThreadRule(e, threads, t, 1);
    ThreadRule(e, threads, t, 2);
    forall x | x in ThreadRetained(e, threads, t) ensures x in {1, 2} {
      ThreadRule(e, threads, t, x);
      if x != 1 {
        var p :| p in Inbound(e, x);
      }
    }
    var elsewhere := LocalsElsewhere(threads, 0);
    assert elsewhere == {2} by {
      assert 2 in threads[1].Locals();
    }
    assert Unreferenced(e) == {1};
    ReachClosed(e, elsewhere + {1} + {1});
    ReachLeast(e, elsewhere + {1} + {1}, {1, 2});
    ReachClosed(e, elsewhere + ({1} - {1}));
    OrphanNotReached(e, elsewhere + ({1} - {1}), 1);
  }

  /** Two equal threads hold an object: either cascade counts it, although the other thread still holds it. */
  lemma CopiedThreadsLocalIsCounted()
    ensures var e: Edges, threads := map[1 := {}], [Holding(1), Holding(1)];
            && ThreadRetained(e, threads, threads[0]) == {1}
            && ThreadMadeUnreachable(e, threads, 0) == {}
  {
    hide ThreadRetained, ReachFrom;
    var e: Edges, threads, t := map[1 := {}], [Holding(1), Holding(1)], Holding(1);
    HoldingLocals(1);
    forall x ensures Inbound(e, x) == {} {
    }
    ThreadRule(e, threads, t, 1);
    forall x | x in ThreadRetained(e, threads, t) ensures x == 1 {
      ThreadRule(e, threads, t, x);
    }
    var elsewhere := LocalsElsewhere(threads, 0);
    assert elsewhere == {1} by {
      assert 1 in threads[1].Locals();
    }
    assert Unreferenced(e) == {1};
    ReachLeast(e, elsewhere + {1} + {1}, {1});
    ReachClosed(e, elsewhere + ({1} - {1}));
  }
}
