/** What a cascade has accounted for: each deletion adds a disjoint region, and at the end it is the least set. */
module CascadeOutcome {
  import opened Sums
  import opened GraphTheory
  import opened CascadeSpec
  import opened SubtreeSpec
  import opened SubtreeSearch
  import opened CascadeInvariant
  import opened ViewSort

  /** Deleting an address that is no subtree root accounts for that address, once. */
  lemma AccountOne(e: Edges, sizes: map<Address, nat>, stop: set<Address>, deleted: set<Address>, cur: Address)
    requires Stoppable(e, stop) && cur !in stop && cur !in deleted
    ensures SumOver(sizes, Accounted(e, stop, deleted + {cur})) ==
            SumOver(sizes, Accounted(e, stop, deleted)) + Entry(sizes, cur)
  {
    hide SumOver, ReachFrom;
    var before := Accounted(e, stop, deleted);
    assert (deleted + {cur}) * stop == deleted * stop;
    ReachStaysInStop(e, stop, deleted * stop);
    assert Accounted(e, stop, deleted + {cur}) == before + {cur};
    SumAdd(sizes, before, cur);
  }

  /** Deleting a subtree root accounts for its whole region, none of which was accounted for before. */
  lemma AccountSubtree(e: Edges, v: Seeds, sizes: map<Address, nat>, stop: set<Address>,
                       deleted: set<Address>, cur: Address)
    requires Stoppable(e, stop) && SeedsFit(v, stop) && DeletionsSound(e, v, stop, deleted)
    requires cur in stop && cur !in deleted && Ready(e, v, cur, Expanded(e, stop, deleted))
    ensures SumOver(sizes, Accounted(e, stop, deleted + {cur})) ==
            SumOver(sizes, Accounted(e, stop, deleted)) + SumOver(sizes, Reach(e, cur))
  {
    hide SumOver, ReachFrom, DeletionsSound, SeedsFit, Stoppable, Ready, Expanded;
    RegionIsNew(e, v, stop, deleted, cur);
    assert (deleted + {cur}) * stop == deleted * stop + {cur};
    assert (deleted + {cur}) - stop == deleted - stop;
    ReachUnion(e, deleted * stop, {cur});
    assert Accounted(e, stop, deleted + {cur}) == Accounted(e, stop, deleted) + Reach(e, cur);
    SumUnion(sizes, Accounted(e, stop, deleted), Reach(e, cur));
  }

  lemma RegionIsNew(e: Edges, v: Seeds, stop: set<Address>, deleted: set<Address>, cur: Address)
    requires Stoppable(e, stop) && SeedsFit(v, stop) && DeletionsSound(e, v, stop, deleted)
    requires cur in stop && cur !in deleted && Ready(e, v, cur, Expanded(e, stop, deleted))
    ensures Accounted(e, stop, deleted) !! Reach(e, cur)
  {
    hide ReachFrom, Inbound, Ready, Least, Expanded;
    if v.Keys * stop != {} {
      OnlyTheSeed(e, v, stop, deleted, cur);
      OnlySeedMeansNothingDeleted(v, deleted, cur);
      assert deleted * stop == {};
      NothingReached(e);
    } else {
      RegionRootIsNew(e, v, stop, deleted, cur);
      RegionIsDisjoint(e, v, stop, deleted, cur);
      ReachStaysInStop(e, stop, {cur});
    }
  }

  lemma OnlySeedMeansNothingDeleted(v: Seeds, deleted: set<Address>, cur: Address)
    requires cur in v && deleted <= v.Keys && cur !in deleted && exists o :: v == map[o := 0]
    ensures deleted == {}
  {
    var o :| v == map[o := 0];
    assert v.Keys == {o};
  }

  lemma RegionRootIsNew(e: Edges, v: Seeds, stop: set<Address>, deleted: set<Address>, cur: Address)
    requires Stoppable(e, stop) && v.Keys * stop == {}
    requires cur in stop && cur !in deleted && Ready(e, v, cur, Expanded(e, stop, deleted))
    ensures cur !in ReachFrom(e, deleted * stop)
  {
    hide ReachFrom;
    ReachStaysInStop(e, stop, deleted * stop);
    assert cur !in v.Keys * stop;
    OrphanNotReached(e, deleted * stop, cur);
  }

  lemma RegionIsDisjoint(e: Edges, v: Seeds, stop: set<Address>, deleted: set<Address>, cur: Address)
    requires Stoppable(e, stop) && v.Keys * stop == {} && DeletionsSound(e, v, stop, deleted)
    requires cur in stop && cur !in ReachFrom(e, deleted * stop)
    ensures ReachFrom(e, deleted * stop) !! Reach(e, cur)
  {
    hide DeletionsSound, ReachFrom, Inbound;
    var below, region := ReachFrom(e, deleted * stop), Reach(e, cur);
    ReachStaysInStop(e, stop, {cur});
    ReachClosed(e, {cur});
    forall x, y | x in region - below && x in e && y in e[x] ensures y in region - below {
      InboundHas(e, x, y);
      if y in below {
        BelowSources(e, v, stop, deleted, y, x);
      }
    }
    ReachLeast(e, {cur}, region - below);
    assert region <= region - below;
  }

  lemma InboundHas(e: Edges, x: Address, y: Address)
    requires x in e && y in e[x]
    ensures x in Inbound(e, y)
  {
  }

  /** A region below deleted roots is entered only from an expanded object, never from another subtree node. */
  lemma BelowSources(e: Edges, v: Seeds, stop: set<Address>, deleted: set<Address>, y: Address, q: Address)
    requires Stoppable(e, stop) && v.Keys * stop == {} && DeletionsSound(e, v, stop, deleted)
    requires y in ReachFrom(e, deleted * stop) && q in Inbound(e, y)
    ensures q in ReachFrom(e, deleted * stop) || q !in stop
  {
    hide Least, ReachFrom;
    ReachStaysInStop(e, stop, deleted * stop);
    if y in deleted {
      assert y in stop && y !in v.Keys * stop;
      assert Ready(e, v, y, Expanded(e, stop, deleted));
    } else {
      ReachHasParent(e, deleted * stop, y);
      var p :| p in ReachFrom(e, deleted * stop) && p in Inbound(e, y);
      SharedInbound(e, y, p, q);
    }
  }

  /** When nothing more is ready, exactly the least closed set is accounted for. */
  lemma AccountedIsLeast(e: Edges, v: Seeds, stop: set<Address>, front: seq<Address>,
                         view: map<Address, int>, deleted: set<Address>)
    requires Stoppable(e, stop) && SeedsFit(v, stop)
    requires Inv(e, v, stop, front, view, deleted) && Stuck(front, view, deleted)
    ensures Accounted(e, stop, deleted) == Least(e, v)
  {
    AccountedWithinLeast(e, v, stop, deleted);
    assert Closed(e, v, Accounted(e, stop, deleted)) by {
      forall x | Ready(e, v, x, Accounted(e, stop, deleted)) ensures x in Accounted(e, stop, deleted) {
        ReadyThroughExpanded(e, v, stop, deleted, x);
        StuckMeansDone(e, v, stop, front, view, deleted, x);
        ReachClosed(e, deleted * stop);
      }
    }
    LeastIsLeast(e, v, Accounted(e, stop, deleted));
  }

  lemma AccountedWithinLeast(e: Edges, v: Seeds, stop: set<Address>, deleted: set<Address>)
    requires Stoppable(e, stop) && SeedsFit(v, stop) && deleted <= Least(e, v)
    ensures Accounted(e, stop, deleted) <= Least(e, v)
  {
    var least := Least(e, v);
    forall x, y | x in least * stop && x in e && y in e[x] ensures y in least * stop {
      ChildFollows(e, v, stop, x, y);
    }
    assert ClosedUnderRefs(e, least * stop);
    ReachLeast(e, deleted * stop, least * stop);
  }

  /** A node of a subtree goes with its only source. */
  lemma ChildFollows(e: Edges, v: Seeds, stop: set<Address>, x: Address, y: Address)
    requires Stoppable(e, stop) && SeedsFit(v, stop)
    requires x in Least(e, v) && x in stop && x in e && y in e[x]
    ensures y in Least(e, v) && y in stop
  {
    assert SubtreeReady(e, x, stop) && SubtreeReady(e, y, stop);
    forall q | q in Inbound(e, y) ensures q in Least(e, v) {
      SharedInbound(e, y, x, q);
    }
    assert x in Inbound(e, y);
    assert Ready(e, v, y, Least(e, v));
    LeastReady(e, v, y);
  }

  lemma ReadyThroughExpanded(e: Edges, v: Seeds, stop: set<Address>, deleted: set<Address>, x: Address)
    requires SeedsFit(v, stop) && Ready(e, v, x, Accounted(e, stop, deleted))
    ensures x in ReachFrom(e, deleted * stop) || Ready(e, v, x, Expanded(e, stop, deleted))
  {
    var below, expanded := ReachFrom(e, deleted * stop), Expanded(e, stop, deleted);
    ReachClosed(e, deleted * stop);
    if stop == {} {
      assert deleted * stop == {};
      NothingReached(e);
      assert Inbound(e, x) * Accounted(e, stop, deleted) == Inbound(e, x) * expanded;
    } else if x !in v && x !in below {
      assert Inbound(e, x) <= expanded;
    }
  }

  lemma InvViews(e: Edges, v: Seeds, stop: set<Address>, front: seq<Address>, view: map<Address, int>,
                 deleted: set<Address>)
    requires Inv(e, v, stop, front, view, deleted)
    ensures Viewed(front, view)
  {
  }

  lemma InvBounds(e: Edges, v: Seeds, stop: set<Address>, front: seq<Address>, view: map<Address, int>,
                  deleted: set<Address>)
    requires Inv(e, v, stop, front, view, deleted)
    ensures deleted <= Least(e, v)
  {
  }

  lemma ResortKeepsInv(e: Edges, v: Seeds, stop: set<Address>, front: seq<Address>, sorted: seq<Address>,
                       view: map<Address, int>, deleted: set<Address>)
    requires Inv(e, v, stop, front, view, deleted) && multiset(sorted) == multiset(front)
    ensures Inv(e, v, stop, sorted, view, deleted)
  {
    hide ViewsExact, DeletionsSound;
    forall x ensures x in front <==> x in sorted {
      assert x in front <==> x in multiset(front);
      assert x in sorted <==> x in multiset(sorted);
    }
  }

  /** One step of a cascade that stops at a subtree root and adds its stored size. */
  lemma StepSubtree(e: Edges, sizes: map<Address, nat>, stored: map<Address, nat>, v: Seeds, stop: set<Address>,
                    front: seq<Address>, front': seq<Address>, view: map<Address, int>, deleted: set<Address>,
                    cur: Address)
    requires Stoppable(e, stop) && SizesStored(e, sizes, stop, stored) && SeedsFit(v, stop) && cur in stop
    requires Inv(e, v, stop, front, view, deleted)
    requires cur in view && view[cur] <= 0 && cur !in deleted
    requires forall x | x in front' :: x in front
    requires forall x | x in front && x != cur :: x in front'
    ensures Inv(e, v, stop, front', view, deleted + {cur})
    ensures cur in stored
    ensures SumOver(sizes, Accounted(e, stop, deleted + {cur})) ==
            SumOver(sizes, Accounted(e, stop, deleted)) + stored[cur]
  {
    hide SumOver, ReachFrom, Accounted, Ready, ViewExact, Stoppable;
    DeletableIsReady(e, v, Expanded(e, stop, deleted), view, cur);
    AccountSubtree(e, v, sizes, stop, deleted, cur);
    DeleteUnexpanded(e, v, stop, front, front', view, deleted, cur);
  }
}
