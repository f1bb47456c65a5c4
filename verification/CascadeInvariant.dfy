/**
 * What every step of a deletion cascade keeps. The state of a cascade is its front, its view of the
 * remaining inbound counts and the set of deleted addresses; `stop` holds the subtree roots that are
 * deleted without being expanded.
 */
module CascadeInvariant {
  import opened Sums
  import opened GraphTheory
  import opened CascadeSpec
  import opened SubtreeSpec

  /** The deleted objects whose references have been released one by one. */
  ghost function Expanded(e: Edges, stop: set<Address>, deleted: set<Address>): set<Address> {
    deleted * e.Keys - stop
  }

  /** Everything accounted for: deleted addresses, and all that hangs below a deleted subtree root. */
  ghost function Accounted(e: Edges, stop: set<Address>, deleted: set<Address>): set<Address> {
    (deleted - stop) + ReachFrom(e, deleted * stop)
  }

  ghost function Start(e: Edges, v: Seeds, x: Address): int {
    if x in v then v[x] else |Inbound(e, x)|
  }

  /** Only the cascade of a single object stops at subtree roots. */
  ghost predicate SeedsFit(v: Seeds, stop: set<Address>) {
    stop == {} || exists o :: v == map[o := 0]
  }

  ghost predicate Touched(e: Edges, v: Seeds, expanded: set<Address>, x: Address) {
    x in v || Inbound(e, x) * expanded != {}
  }

  /** The view of one address that is not deleted: it is known once touched, and then exact. */
  ghost predicate ViewExact(e: Edges, v: Seeds, expanded: set<Address>, view: map<Address, int>, x: Address) {
    && (x in view <==> Touched(e, v, expanded, x))
    && (x in view ==> view[x] == Start(e, v, x) - |Inbound(e, x) * expanded|)
  }

  ghost predicate ViewsExact(e: Edges, v: Seeds, stop: set<Address>, view: map<Address, int>, deleted: set<Address>) {
    var expanded := Expanded(e, stop, deleted);
    forall x {:trigger ViewExact(e, v, expanded, view, x)} | x !in deleted :: ViewExact(e, v, expanded, view, x)
  }

  /** Every known address that is not deleted waits in the front; the front may hold stale entries too. */
  ghost predicate FrontCovers(front: seq<Address>, view: map<Address, int>, deleted: set<Address>) {
    && (forall x | x in front :: x in view)
    && (forall x | x in view && x !in deleted :: x in front)
  }

  /** No address was deleted before its turn. */
  ghost predicate DeletionsSound(e: Edges, v: Seeds, stop: set<Address>, deleted: set<Address>) {
    && (forall x {:trigger Ready(e, v, x, Expanded(e, stop, deleted))} | x in deleted ::
          Ready(e, v, x, Expanded(e, stop, deleted)))
    && deleted <= Least(e, v)
    && (v.Keys * stop != {} ==> deleted <= v.Keys)
  }

  ghost predicate Inv(e: Edges, v: Seeds, stop: set<Address>, front: seq<Address>,
                      view: map<Address, int>, deleted: set<Address>) {
    && FrontCovers(front, view, deleted)
    && ViewsExact(e, v, stop, view, deleted)
    && DeletionsSound(e, v, stop, deleted)
    && view.Keys <= Nodes(e) + v.Keys
  }

  lemma InvInitially(e: Edges, v: Seeds, stop: set<Address>, front: seq<Address>)
    requires forall x :: x in front <==> x in v
    ensures Inv(e, v, stop, front, v, {})
    ensures Accounted(e, stop, {}) == {}
  {
    NothingReached(e);
    assert {} * stop == {};
    assert Expanded(e, stop, {}) == {};
    forall x ensures ViewExact(e, v, {}, v, x) {
      assert Inbound(e, x) * {} == {};
    }
  }

  /** An undeleted address with a view of 0 or less may be deleted: the rule demands it. */
  lemma DeletableIsReady(e: Edges, v: Seeds, expanded: set<Address>, view: map<Address, int>, x: Address)
    requires ViewExact(e, v, expanded, view, x) && x in view && view[x] <= 0
    ensures Ready(e, v, x, expanded)
  {
    if x !in v && !(Inbound(e, x) <= expanded) {
      SubsetCard(Inbound(e, x) * expanded, Inbound(e, x));
    }
  }

  /** What an expansion of `cur` does to one address: it counts one source less if `cur` is one. */
  lemma ExpansionEffect(e: Edges, v: Seeds, expanded: set<Address>, view: map<Address, int>, view': map<Address, int>,
                        cur: Address, x: Address)
    requires cur !in expanded && cur in e
    requires ViewExact(e, v, expanded, view, x)
    requires x in view' <==> x in view || x in e[cur]
    requires x in e[cur] ==> view'[x] == (if x in view then view[x] else |Inbound(e, x)|) - 1
    requires x !in e[cur] && x in view ==> view'[x] == view[x]
    ensures ViewExact(e, v, expanded + {cur}, view', x)
  {
    CountOneMore(Inbound(e, x), expanded, cur);
  }

  lemma ExpandedMonotone(e: Edges, stop: set<Address>, s: set<Address>, t: set<Address>)
    requires s <= t
    ensures Expanded(e, stop, s) <= Expanded(e, stop, t) <= t
  {
  }

  lemma DeletionStaysSound(e: Edges, v: Seeds, stop: set<Address>, view: map<Address, int>,
                           deleted: set<Address>, cur: Address)
    requires DeletionsSound(e, v, stop, deleted) && SeedsFit(v, stop)
    requires ViewExact(e, v, Expanded(e, stop, deleted), view, cur) && cur in view && view[cur] <= 0
    ensures DeletionsSound(e, v, stop, deleted + {cur})
  {
    hide Least, Ready, Expanded, ViewExact, SeedsFit;
    var before, after := Expanded(e, stop, deleted), Expanded(e, stop, deleted + {cur});
    ExpandedMonotone(e, stop, deleted, deleted + {cur});
    ExpandedMonotone(e, stop, deleted, deleted);
    DeletableIsReady(e, v, before, view, cur);
    forall x | x in deleted + {cur} ensures Ready(e, v, x, after) {
      ReadyMonotone(e, v, x, before, after);
    }
    LeastClosed(e, v);
    ReadyMonotone(e, v, cur, before, Least(e, v));
    if v.Keys * stop != {} {
      OnlyTheSeed(e, v, stop, deleted, cur);
    }
  }

  /** In the cascade of a subtree root, only that root is ever deleted. */
  lemma OnlyTheSeed(e: Edges, v: Seeds, stop: set<Address>, deleted: set<Address>, cur: Address)
    requires SeedsFit(v, stop) && v.Keys * stop != {} && deleted <= v.Keys
    requires Ready(e, v, cur, Expanded(e, stop, deleted))
    ensures cur in v
  {
    assert Expanded(e, stop, deleted) == {};
  }

  lemma ViewsUnchanged(e: Edges, v: Seeds, stop: set<Address>, view: map<Address, int>,
                       deleted: set<Address>, cur: Address)
    requires ViewsExact(e, v, stop, view, deleted) && (cur in stop || cur !in e)
    ensures ViewsExact(e, v, stop, view, deleted + {cur})
  {
    hide ViewExact;
    assert Expanded(e, stop, deleted + {cur}) == Expanded(e, stop, deleted);
  }

  /** Deleting `cur` without expanding it: a subtree root, or an address that is no object. */
  lemma DeleteUnexpanded(e: Edges, v: Seeds, stop: set<Address>, front: seq<Address>, front': seq<Address>,
                         view: map<Address, int>, deleted: set<Address>, cur: Address)
    requires Inv(e, v, stop, front, view, deleted) && SeedsFit(v, stop)
    requires cur in view && view[cur] <= 0 && cur !in deleted && (cur in stop || cur !in e)
    requires forall x | x in front' :: x in front
    requires forall x | x in front && x != cur :: x in front'
    ensures Inv(e, v, stop, front', view, deleted + {cur})
  {
    hide ViewExact, DeletionsSound, Nodes, SeedsFit;
    DeletionStaysSound(e, v, stop, view, deleted, cur);
    ViewsUnchanged(e, v, stop, view, deleted, cur);
  }

  lemma ReferentsAreNodes(e: Edges, cur: Address)
    requires cur in e
    ensures e[cur] <= Nodes(e)
  {
    forall x | x in e[cur] ensures x in Nodes(e) {
      assert x in Referenced(e);
    }
  }

  /** Deleting and expanding `cur`: every undeleted referent loses one inbound count and joins the front. */
  lemma DeleteExpanded(e: Edges, v: Seeds, stop: set<Address>, front: seq<Address>, front': seq<Address>,
                       view: map<Address, int>, view': map<Address, int>, deleted: set<Address>, cur: Address)
    requires Inv(e, v, stop, front, view, deleted) && SeedsFit(v, stop)
    requires cur in view && view[cur] <= 0 && cur !in deleted && cur !in stop && cur in e
    requires var released := e[cur] - (deleted + {cur});
             && view'.Keys == view.Keys + released
             && (forall x | x in released :: view'[x] == (if x in view then view[x] else |Inbound(e, x)|) - 1)
             && (forall x | x in view && x !in released :: view'[x] == view[x])
             && (forall x | x in front' :: x in front || x in released)
             && (forall x | (x in front && x != cur) || x in released :: x in front')
    ensures Inv(e, v, stop, front', view', deleted + {cur})
  {
    hide ViewExact, DeletionsSound, Nodes, SeedsFit;
    DeletionStaysSound(e, v, stop, view, deleted, cur);
    var expanded := Expanded(e, stop, deleted);
    assert Expanded(e, stop, deleted + {cur}) == expanded + {cur};
    forall x | x !in deleted + {cur} ensures ViewExact(e, v, expanded + {cur}, view', x) {
      ExpansionEffect(e, v, expanded, view, view', cur, x);
    }
    ReferentsAreNodes(e, cur);
  }

  /** When no undeleted address of the front has a view of 0 or less, nothing more is ready. */
  ghost predicate Stuck(front: seq<Address>, view: map<Address, int>, deleted: set<Address>) {
    forall x | x in front && x in view :: x in deleted || view[x] > 0
  }

  lemma StuckMeansDone(e: Edges, v: Seeds, stop: set<Address>, front: seq<Address>,
                       view: map<Address, int>, deleted: set<Address>, x: Address)
    requires Inv(e, v, stop, front, view, deleted) && Stuck(front, view, deleted)
    ensures x in deleted <==> Ready(e, v, x, Expanded(e, stop, deleted))
  {
    hide Least, Inbound;
    if x !in deleted {
      var in_, expanded := Inbound(e, x), Expanded(e, stop, deleted);
      assert ViewExact(e, v, expanded, view, x);
      if in_ <= expanded {
        assert in_ * expanded == in_;
      }
    }
  }
}
