/**
 * The search for strict subtree roots works in rounds over a front of candidate parents, and stops
 * when a round leaves the front as it was. These are the invariants of one round and of the search.
 */
module SubtreeSearch {
  import opened Sums
  import opened GraphTheory
  import opened CascadeSpec
  import opened SubtreeSpec

  ghost function Parents(e: Edges, s: set<Address>): set<Address> {
    set p | p in e && exists c :: c in s && p in Inbound(e, c)
  }

  ghost predicate LeavesFound(e: Edges, roots: set<Address>) {
    forall x {:trigger SubtreeReady(e, x, {})} :: SubtreeReady(e, x, {}) ==> x in roots
  }

  /** No candidate is forgotten: the parent of every root is a root itself, or waits, or has shared inbound. */
  ghost predicate Pending(e: Edges, roots: set<Address>, waiting: set<Address>) {
    || roots == StrictRoots(e)
    || forall c, p | c in roots && p in Inbound(e, c) && |Inbound(e, p)| <= 1 :: p in roots || p in waiting
  }

  lemma PendingGrows(e: Edges, roots: set<Address>, front: set<Address>, a: Address)
    requires Pending(e, roots, front) && a in StrictRoots(e)
    ensures Pending(e, roots + {a}, front + Inbound(e, a))
  {
    hide StrictRoots, Inbound;
    assert roots == StrictRoots(e) ==> roots + {a} == roots;
  }

  lemma RoundEnds(e: Edges, before: set<Address>, front: set<Address>, found: set<Address>, failed: set<Address>,
                  next: set<Address>, roots: set<Address>)
    requires Round(e, before, front, {}, found, failed, next, roots)
    ensures next <= e.Keys && LeavesFound(e, roots) && Pending(e, roots, next)
  {
    hide StrictRoots, Inbound;
    assert {} + next == next;
  }

  /** Ranks are handed out in the order in which roots are found. */
  ghost function Ranked(roots: set<Address>, rank: map<Address, nat>, x: Address): map<Address, nat> {
    if x in roots then rank else rank[x := |roots|]
  }

  ghost predicate RankedForest(e: Edges, roots: set<Address>, rank: map<Address, nat>) {
    Forest(e, roots, rank) && forall a | a in roots :: rank[a] < |roots|
  }

  lemma AddRoot(e: Edges, roots: set<Address>, rank: map<Address, nat>, x: Address)
    requires RankedForest(e, roots, rank) && SubtreeReady(e, x, roots)
    ensures RankedForest(e, roots + {x}, Ranked(roots, rank, x))
    ensures roots + {x} <= StrictRoots(e)
  {
    hide StrictRoots, Inbound;
    ReadyIsStrict(e, roots, x);
    if x in roots {
      assert roots + {x} == roots;
    } else {
      forall a | a in roots ensures SubtreeReady(e, a, roots + {x}) && x !in e[a] {
        assert SubtreeReady(e, a, roots);
      }
    }
  }

  lemma ReadyIsStrict(e: Edges, roots: set<Address>, x: Address)
    requires roots <= StrictRoots(e) && SubtreeReady(e, x, roots)
    ensures x in StrictRoots(e)
  {
    StrictRootsClosed(e);
    hide StrictRoots, Inbound;
    assert SubtreeReady(e, x, StrictRoots(e));
  }

  /** One round, part way: `todo` of the front is left; `found` passed, `failed` must wait, the rest is dropped. */
  ghost predicate Round(e: Edges, before: set<Address>, front: set<Address>, todo: set<Address>,
                        found: set<Address>, failed: set<Address>, next: set<Address>, roots: set<Address>) {
    && todo <= front <= e.Keys
    && found + failed <= front - todo
    && roots == before + found && failed !! roots
    && next == failed + Parents(e, found)
    && (forall x | x in front - todo :: x in found || x in failed || |Inbound(e, x)| > 1)
    && (forall x | x in failed :: !(e[x] <= before))
    && LeavesFound(e, roots)
    && Pending(e, roots, todo + next)
  }

  lemma RoundStart(e: Edges, front: set<Address>, roots: set<Address>)
    requires front <= e.Keys && LeavesFound(e, roots) && Pending(e, roots, front)
    ensures Round(e, roots, front, front, {}, {}, {}, roots)
  {
  }

  lemma RoundDrop(e: Edges, before: set<Address>, front: set<Address>, todo: set<Address>, found: set<Address>,
                  failed: set<Address>, next: set<Address>, roots: set<Address>, a: Address)
    requires Round(e, before, front, todo, found, failed, next, roots)
    requires a in todo && |Inbound(e, a)| > 1
    ensures Round(e, before, front, todo - {a}, found, failed, next, roots)
  {
    hide StrictRoots, Inbound, SubtreeReady;
  }

  lemma RoundFail(e: Edges, before: set<Address>, front: set<Address>, todo: set<Address>, found: set<Address>,
                  failed: set<Address>, next: set<Address>, roots: set<Address>, a: Address)
    requires Round(e, before, front, todo, found, failed, next, roots)
    requires a in todo && !(e[a] <= roots) && Stoppable(e, roots)
    ensures Round(e, before, front, todo - {a}, found, failed + {a}, next + {a}, roots)
  {
    hide StrictRoots, Inbound;
    assert todo + next == (todo - {a}) + (next + {a});
  }

  lemma RoundFound(e: Edges, before: set<Address>, front: set<Address>, todo: set<Address>, found: set<Address>,
                   failed: set<Address>, next: set<Address>, roots: set<Address>, a: Address)
    requires Round(e, before, front, todo, found, failed, next, roots)
    requires a in todo && SubtreeReady(e, a, roots) && roots + {a} <= StrictRoots(e)
    ensures Round(e, before, front, todo - {a}, found + {a}, failed, next + Inbound(e, a), roots + {a})
  {
    hide StrictRoots, Inbound, Parents, Pending, SubtreeReady;
    ParentsAdd(e, found, a);
    PendingMoves(e, roots, todo, next, a);
  }

  lemma ParentsAdd(e: Edges, s: set<Address>, a: Address)
    ensures Parents(e, s + {a}) == Parents(e, s) + Inbound(e, a)
  {
  }

  lemma PendingMoves(e: Edges, roots: set<Address>, todo: set<Address>, next: set<Address>, a: Address)
    requires Pending(e, roots, todo + next) && a in todo && roots + {a} <= StrictRoots(e)
    ensures Pending(e, roots + {a}, todo - {a} + (next + Inbound(e, a)))
  {
    hide StrictRoots, Inbound;
    assert roots == StrictRoots(e) ==> roots + {a} == roots;
    assert todo - {a} + (next + Inbound(e, a)) + {a} == todo + next + Inbound(e, a);
  }

  /** A round that leaves the front unchanged found nothing at all: otherwise its finds would descend for ever. */
  lemma UnchangedFrontFoundNothing(e: Edges, before: set<Address>, front: set<Address>, found: set<Address>,
                                   failed: set<Address>, roots: set<Address>)
    requires Round(e, before, front, {}, found, failed, front, roots) && roots <= StrictRoots(e)
    ensures found == {}
  {
    hide StrictRoots, LeavesFound, Pending, SubtreeReady;
    forall a | a in found ensures a in e && e[a] * found != {} {
      var c :| c in found && a in Inbound(e, c);
      assert c in e[a] * found;
    }
    NoEndlessDescent(e, found);
  }

  /** So the search stops exactly when every strict subtree root has been found. */
  lemma UnchangedFrontIsComplete(e: Edges, before: set<Address>, front: set<Address>, found: set<Address>,
                                 failed: set<Address>, roots: set<Address>)
    requires Round(e, before, front, {}, found, failed, front, roots) && roots <= StrictRoots(e)
    ensures roots == StrictRoots(e)
  {
    hide StrictRoots;
    UnchangedFrontFoundNothing(e, before, front, found, failed, roots);
    if roots != StrictRoots(e) {
      forall x | SubtreeReady(e, x, roots) ensures x in roots {
        NothingFoundNothingReady(e, before, front, failed, roots, x);
      }
      StrictRootsLeast(e, roots);
    }
  }

  lemma NothingFoundNothingReady(e: Edges, before: set<Address>, front: set<Address>, failed: set<Address>,
                                 roots: set<Address>, x: Address)
    requires Round(e, before, front, {}, {}, failed, front, roots) && roots != StrictRoots(e)
    requires SubtreeReady(e, x, roots)
    ensures x in roots
  {
    hide StrictRoots;
    assert Parents(e, {}) == {};
    if e[x] == {} {
      assert SubtreeReady(e, x, {});
    } else {
      var c :| c in e[x];
      assert c in roots && x in Inbound(e, c);
    }
  }

  /** No root waiting in the front ranks below `level`. */
  ghost predicate AtLevel(front: set<Address>, roots: set<Address>, rank: map<Address, nat>, level: nat) {
    forall a | a in front && a in roots && a in rank :: level <= rank[a]
  }

  lemma AtLevelZero(front: set<Address>, roots: set<Address>, rank: map<Address, nat>)
    ensures AtLevel(front, roots, rank, 0)
  {
  }

  /** A round that finds nothing new moves every waiting root one level up. */
  lemma LevelRises(e: Edges, rank: map<Address, nat>, before: set<Address>, front: set<Address>,
                   found: set<Address>, failed: set<Address>, next: set<Address>, level: nat)
    requires Round(e, before, front, {}, found, failed, next, before) && Forest(e, before, rank)
    requires AtLevel(front, before, rank, level)
    ensures AtLevel(next, before, rank, level + 1)
  {
    hide StrictRoots, LeavesFound, Pending;
    forall a | a in next && a in before && a in rank ensures level + 1 <= rank[a] {
      var c :| c in found && a in Inbound(e, c);
      assert c in e[a];
    }
  }

  /** The rounds still possible at a given level, while roots wait in the front. */
  ghost function Climb(e: Edges, front: set<Address>, roots: set<Address>, level: nat): int {
    if front * roots == {} then 0 else |StrictRoots(e)| + 1 - level
  }

  /** Every round that changes the front makes progress: finds a root, climbs, or drops a candidate. */
  lemma RoundProgress(e: Edges, rank: map<Address, nat>, rank': map<Address, nat>, before: set<Address>,
                      front: set<Address>, found: set<Address>, failed: set<Address>, next: set<Address>,
                      roots: set<Address>, level: nat)
    requires Round(e, before, front, {}, found, failed, next, roots) && next != front
    requires RankedForest(e, before, rank) && RankedForest(e, roots, rank') && AtLevel(front, before, rank, level)
    requires roots == before ==> rank' == rank
    ensures before <= roots <= StrictRoots(e)
    ensures roots == before ==> AtLevel(next, roots, rank', level + 1)
    ensures roots == before ==>
              || 0 <= Climb(e, next, roots, level + 1) < Climb(e, front, before, level)
              || (Climb(e, next, roots, level + 1) == Climb(e, front, before, level) && |next| < |front|)
    ensures 0 <= Climb(e, front, before, level)
  {
    ClimbBounded(e, rank, before, front, level);
    if roots == before {
      LevelRises(e, rank, before, front, found, failed, next, level);
      ClimbBounded(e, rank, before, next, level + 1);
      if front * before == {} {
        assert found == {};
        assert Parents(e, found) == {};
        SubsetCard(next, front);
      }
    }
  }

  lemma ClimbBounded(e: Edges, rank: map<Address, nat>, roots: set<Address>, front: set<Address>, level: nat)
    requires RankedForest(e, roots, rank) && AtLevel(front, roots, rank, level)
    ensures if front * roots == {} then Climb(e, front, roots, level) == 0 else 1 < Climb(e, front, roots, level)
  {
    hide StrictRoots;
    if a :| a in front * roots {
      SubsetCard(roots, StrictRoots(e));
      assert level <= rank[a];
    }
  }

  /** The stored size of every subtree root is the sum over everything reachable from it. */
  ghost predicate SizesStored(e: Edges, sizes: map<Address, nat>, roots: set<Address>, stored: map<Address, nat>) {
    forall r | r in roots :: r in stored && stored[r] == SumOver(sizes, Reach(e, r))
  }

  lemma NothingStored(e: Edges, sizes: map<Address, nat>, stored: map<Address, nat>)
    ensures RankedForest(e, {}, map[]) && SizesStored(e, sizes, {}, stored)
  {
  }

  lemma ForestStoppable(e: Edges, roots: set<Address>, rank: map<Address, nat>)
    requires Forest(e, roots, rank)
    ensures Stoppable(e, roots)
  {
    hide StrictRoots, Inbound;
  }

  lemma StoreSubtree(e: Edges, sizes: map<Address, nat>, roots: set<Address>, rank: map<Address, nat>,
                     stored: map<Address, nat>, a: Address, size: nat)
    requires RankedForest(e, roots, rank) && SizesStored(e, sizes, roots, stored) && SubtreeReady(e, a, roots)
    requires size == Entry(sizes, a) + SumOver(stored, e[a])
    ensures SizesStored(e, sizes, roots + {a}, stored[a := size])
  {
    hide StrictRoots, Inbound, ReachFrom, SumOver;
    ForestStoppable(e, roots, rank);
    ForestRankBelow(e, roots, rank, a);
    SubtreeSize(e, sizes, stored, roots, a);
  }

  lemma ReferentsStored(e: Edges, sizes: map<Address, nat>, roots: set<Address>, stored: map<Address, nat>, a: Address)
    requires SizesStored(e, sizes, roots, stored) && SubtreeReady(e, a, roots)
    ensures a in e && e[a] <= stored.Keys
  {
  }

  /** Overwriting a root's stored size with its retained size changes nothing. */
  lemma RestoreSize(e: Edges, sizes: map<Address, nat>, roots: set<Address>, stored: map<Address, nat>,
                    a: Address, size: nat)
    requires SizesStored(e, sizes, roots, stored) && Stoppable(e, roots)
    requires size == SumOver(sizes, Retained(e, a))
    ensures SizesStored(e, sizes, roots, stored[a := size])
  {
    hide SumOver, Stoppable, Reach;
    if a in roots {
      SubtreeRetainsReach(e, roots, a);
    }
  }
}
