/** The Go retained-heap calculator over the compact graph. */
module GoRetained {
  import opened Sums
  import opened GraphTheory
  import opened CascadeSpec
  import opened SubtreeSpec
  import opened SubtreeSearch
  import opened CascadeInvariant
  import opened CascadeOutcome
  import opened HeapModel
  import opened ViewSort
  import opened GoGraph
  import opened GraphRename

  ghost function RowSet(row: seq<nat>): set<nat> {
    set t | t in row
  }

  /** The graph's references as edges between indexes. */
  ghost function IndexEdges(rows: Rows): Edges {
    map i: nat | 0 <= i < |rows| :: RowSet(rows[i])
  }

  ghost function IndexSizes(objects: seq<GoObject>): map<Address, nat> {
    map i: nat | 0 <= i < |objects| :: objects[i].size
  }

  lemma SourcesAreInbound(rows: Rows, n: nat)
    ensures RowSet(Sources(rows, n, |rows|)) == Inbound(IndexEdges(rows), n)
    ensures |Sources(rows, n, |rows|)| == |Inbound(IndexEdges(rows), n)|
  {
    SourcesExact(rows, n, |rows|);
    var sources := Sources(rows, n, |rows|);
    forall s: nat ensures s in RowSet(sources) <==> s in Inbound(IndexEdges(rows), n) {
    }
    assert Distinct(sources);
    DistinctCard(sources);
  }

  /** No sum of object sizes reaches 2^64. */
  lemma {:induction false} SizesFit(objects: seq<GoObject>, s: set<Address>)
    requires |objects| < UINT32 && forall i | 0 <= i < |objects| :: objects[i].size < UINT32
    ensures SumOver(IndexSizes(objects), s) < UINT64
  {
    hide SumOver;
    var sizes := IndexSizes(objects);
    SumKnown(sizes, s);
    SumBounded(sizes, s * sizes.Keys, UINT32 - 1);
    SubsetCard(s * sizes.Keys, Below(|objects|));
    MulMonotone(|s * sizes.Keys|, UINT32 - 1, UINT32 - 1);
  }

  lemma {:induction false} SumBounded(m: map<Address, nat>, s: set<Address>, bound: nat)
    requires forall x | x in s :: Entry(m, x) <= bound
    ensures SumOver(m, s) <= |s| * bound
    decreases |s|
  {
    hide SumOver;
    if s == {} {
      SumEmpty(m);
    } else {
      var x :| x in s;
      SumPick(m, s, x);
      SumBounded(m, s - {x}, bound);
      assert |s| == |s - {x}| + 1;
      assert |s| * bound == |s - {x}| * bound + bound;
    }
  }

  /** The references that deleting one object releases, in row order: each loses one count and joins the front. */
  ghost predicate Released(e: Edges, row: set<Address>, deleted: set<Address>,
                           front0: seq<Address>, view0: map<Address, int>,
                           front: seq<Address>, view: map<Address, int>) {
    var released := row - deleted;
    && view.Keys == view0.Keys + released
    && (forall x | x in released :: view[x] == (if x in view0 then view0[x] else |Inbound(e, x)|) - 1)
    && (forall x | x in view0 && x !in released :: view[x] == view0[x])
    && (forall x | x in front :: x in front0 || x in released)
    && (forall x | x in front0 || x in released :: x in front)
    && |front| >= |front0| && forall j | 0 <= j < |front0| :: front[j] == front0[j]
  }

  lemma ReleaseNext(e: Edges, row: set<Address>, deleted: set<Address>, front0: seq<Address>, view0: map<Address, int>,
                    front: seq<Address>, view: map<Address, int>, r: Address)
    requires Released(e, row, deleted, front0, view0, front, view) && r !in row
    ensures r in deleted ==> Released(e, row + {r}, deleted, front0, view0, front, view)
    ensures r !in deleted ==>
              Released(e, row + {r}, deleted, front0, view0, front + [r],
                       view[r := (if r in view then view[r] else |Inbound(e, r)|) - 1])
  {
    hide Inbound;
    if r in deleted {
      assert row + {r} - deleted == row - deleted;
    } else {
      assert row + {r} - deleted == row - deleted + {r};
    }
  }

  lemma ReleasedKeepsFront(e: Edges, row: set<Address>, deleted: set<Address>, front0: seq<Address>,
                           view0: map<Address, int>, front: seq<Address>, view: map<Address, int>)
    requires Released(e, row, deleted, front0, view0, front, view)
    ensures |front| >= |front0| && forall j | 0 <= j < |front0| :: front[j] == front0[j]
  {
  }

  lemma ReleasedFits(e: Edges, v: Seeds, stop: set<Address>, front: seq<Address>, front1: seq<Address>,
                     front': seq<Address>, view: map<Address, int>, view': map<Address, int>,
                     deleted: set<Address>, cur: Address)
    requires Inv(e, v, stop, front, view, deleted) && SeedsFit(v, stop)
    requires cur in view && view[cur] <= 0 && cur !in deleted && cur !in stop && cur in e
    requires forall x | x in front1 :: x in front
    requires forall x | x in front && x != cur :: x in front1
    requires Released(e, e[cur], deleted + {cur}, front1, view, front', view')
    ensures Inv(e, v, stop, front', view', deleted + {cur})
  {
    hide Inv, SeedsFit, Inbound;
    DeleteExpanded(e, v, stop, front, front', view, view', deleted, cur);
  }

  lemma RowEmpty(row: seq<nat>)
    ensures |row| == 0 <==> RowSet(row) == {}
  {
    if row != [] {
      assert row[0] in RowSet(row);
    }
  }

  function SetOf(row: seq<nat>): (s: set<nat>)
    ensures s == RowSet(row)
  {
    set t | t in row
  }

  /** Same size, and nothing on the left missing on the right. */
  method EqualNodeSets(left: set<nat>, right: set<nat>) returns (equal: bool)
    ensures equal <==> left == right
  {
    if |left| != |right| {
      return false;
    }
    var todo := left;
    while todo != {}
      invariant todo <= left && left - todo <= right
    {
      var item :| item in todo;
      if item !in right {
        return false;
      }
      todo := todo - {item};
    }
    SubsetCard(left, right);
    return true;
  }

  /** How many of the first `n` threads, leaving out the one at index `skip`, hold `a` in a local. */
  ghost function HoldersByIndex(threads: seq<Thread>, n: nat, skip: nat, a: Address): nat
    requires n <= |threads|
  {
    if n == 0 then 0
    else HoldersByIndex(threads, n - 1, skip, a) + if n - 1 != skip && a in threads[n - 1].Locals() then 1 else 0
  }

  /** The counts a thread's cascade starts from, for its local addresses. */
  ghost function SeedsByIndex(e: Edges, index: map<Address, nat>, threads: seq<Thread>, removed: nat): Seeds
    requires removed < |threads| && threads[removed].Locals() <= index.Keys
  {
    map a | a in threads[removed].Locals() ::
      |Inbound(e, index[a])| + HoldersByIndex(threads, |threads|, removed, a)
  }

  lemma SeedsHere(e: Edges, index: map<Address, nat>, threads: seq<Thread>, removed: nat)
    requires removed < |threads| && threads[removed].Locals() <= index.Keys
    ensures SeedsByIndex(e, index, threads, removed).Keys == threads[removed].Locals()
  {
  }

  lemma SeedAt(e: Edges, index: map<Address, nat>, threads: seq<Thread>, removed: nat, a: Address)
    requires removed < |threads| && threads[removed].Locals() <= index.Keys && a in threads[removed].Locals()
    ensures a in SeedsByIndex(e, index, threads, removed)
    ensures SeedsByIndex(e, index, threads, removed)[a] ==
            |Inbound(e, index[a])| + HoldersByIndex(threads, |threads|, removed, a)
  {
  }

  ghost function Restrict(seeds: Seeds, done: set<Address>): (part: Seeds)
    requires done <= seeds.Keys
    ensures part.Keys == done
  {
    map a | a in done :: seeds[a]
  }

  /** The addresses in `done` are viewed under their indexes, with the counts `seeds` gives them. */
  ghost predicate Viewing(index: map<Address, nat>, seeds: Seeds, done: set<Address>,
                          front: seq<nat>, view: map<Address, int>) {
    && done <= seeds.Keys <= index.Keys
    && RenamedSeeds(index, Restrict(seeds, done), view)
    && Lists(front, view)
  }

  lemma NothingViewed(index: map<Address, nat>, seeds: Seeds)
    requires seeds.Keys <= index.Keys
    ensures Viewing(index, seeds, {}, [], map[])
  {
    assert Restrict(seeds, {}) == map[];
    NamedNothing(index);
  }

  lemma ViewNext(index: map<Address, nat>, seeds: Seeds, done: set<Address>, front: seq<nat>, view: map<Address, int>,
                 a: Address)
    requires OneToOne(index) && Viewing(index, seeds, done, front, view) && a in seeds && a !in done
    ensures Viewing(index, seeds, done + {a}, front + [index[a]], view[index[a] := seeds[a]])
  {
    hide RenamedSeeds;
    NamedNext(index, Restrict(seeds, done), view, a, seeds[a]);
    ListsNext(front, view, index[a], seeds[a]);
    assert Restrict(seeds, done)[a := seeds[a]] == Restrict(seeds, done + {a});
  }

  lemma AllViewed(index: map<Address, nat>, seeds: Seeds, front: seq<nat>, view: map<Address, int>)
    requires Viewing(index, seeds, seeds.Keys, front, view)
    ensures RenamedSeeds(index, seeds, view) && Lists(front, view)
  {
    assert seeds == Restrict(seeds, seeds.Keys);
  }

  lemma SeedsUnique(index: map<Address, nat>, v: Seeds, v': Seeds)
    requires Interned(index) && v.Keys <= index.Keys && RenamedSeeds(index, v, v')
    ensures OneToOne(index) && v' == Named(index, v)
  {
    forall n | n in v' ensures v'[n] == Named(index, v)[n] {
      var a :| a in v && index[a] == n;
    }
  }

  lemma IndexFacts(index: map<Address, nat>)
    requires Interned(index)
    ensures OneToOne(index)
    ensures forall a, b | a in index && b in index && index[a] == index[b] :: a == b
  {
  }

  ghost function SizesByIndex(e: Edges, sizes: map<Address, nat>, index: map<Address, nat>, threads: seq<Thread>,
                              n: nat): map<Text, nat>
    requires Interned(index) && LocalAddresses(threads) <= index.Keys && n <= |threads|
  {
    if n == 0 then map[]
    else
      IndexFacts(index);
      LocalsKnownAt(threads, n - 1);
      SizesByIndex(e, sizes, index, threads, n - 1)[threads[n - 1].name :=
        SumOver(sizes, Least(e, Named(index, SeedsByIndex(e, index, threads, n - 1))))]
  }

  lemma LocalsKnownAt(threads: seq<Thread>, i: nat)
    requires i < |threads|
    ensures threads[i].Locals() <= LocalAddresses(threads)
  {
    LocalsGrow(threads, i);
  }

  lemma ObjectsAreNodes(h: GoHeap, g: Graph)
    requires GraphFor(h, g) && FromReader(h)
    ensures |h.objects| <= g.NodeCount()
  {
    if h.objects != [] {
      var last := |h.objects| - 1;
      assert g.addressIndex[h.objects[last].address] == last;
    }
  }

  lemma SmallSizes(h: GoHeap)
    requires FromReader(h)
    ensures forall i | 0 <= i < |h.objects| :: h.objects[i].size < UINT32
  {
  }

  lemma SameCount(g: Graph, rows: Rows)
    requires Represents(g, rows)
    ensures g.objectCount == |rows|
  {
  }

  class RetainedCalculator {
    const heap: GoHeap
    const graph: Graph
    const subtreeRoots: array<bool>
    const objectRetained: array<nat>
    var threadRetained: map<Text, nat>
    ghost var rank: map<Address, nat>
    ghost const rows: Rows

    ghost function E(): Edges {
      IndexEdges(rows)
    }

    ghost function Sizes(): map<Address, nat> {
      IndexSizes(heap.objects)
    }

    ghost function Roots(): set<Address>
      reads subtreeRoots
    {
      set i: nat | 0 <= i < subtreeRoots.Length && subtreeRoots[i]
    }

    ghost function Stored(): map<Address, nat>
      reads objectRetained
    {
      map i: nat | 0 <= i < objectRetained.Length :: objectRetained[i]
    }

    /** What never changes once the calculator is set up. */
    ghost predicate Setup() {
      && |heap.objects| == |rows| == graph.objectCount < UINT32
      && subtreeRoots.Length == |rows| == objectRetained.Length
      && (forall i | 0 <= i < |heap.objects| :: heap.objects[i].size < UINT32)
      && RowsIn(rows, graph.NodeCount()) && |rows| <= graph.NodeCount()
      && Represents(graph, rows)
    }

    ghost predicate Sound()
      reads subtreeRoots, objectRetained, this`rank
    {
      && Setup()
      && RankedForest(E(), Roots(), rank)
      && SizesStored(E(), Sizes(), Roots(), Stored())
    }

    lemma InboundFacts(n: nat)
      requires Setup() && n < graph.NodeCount()
      ensures graph.HasInbound(n)
      ensures graph.InboundCount(n) == |Inbound(E(), n)|
      ensures RowSet(graph.InboundReferences(n)) == Inbound(E(), n)
    {
      SourcesAreInbound(rows, n);
    }

    lemma ReferentFacts(i: nat)
      requires Setup() && i < |rows|
      ensures i in E() && graph.HasReferents(i) && graph.ObjectReferents(i) == rows[i]
      ensures E()[i] == RowSet(rows[i]) && Distinct(rows[i]) && forall t | t in rows[i] :: t < graph.NodeCount()
    {
    }

    ghost function Stop(useSubtrees: bool): set<Address>
      reads subtreeRoots
    {
      if useSubtrees then Roots() else {}
    }

    lemma StopIsStoppable(useSubtrees: bool)
      requires Sound()
      ensures Stoppable(E(), Stop(useSubtrees))
    {
      hide StrictRoots, Inbound, SizesStored;
    }

    lemma TotalFits(s: set<Address>)
      requires Setup()
      ensures SumOver(Sizes(), s) < UINT64
    {
      SizesFit(heap.objects, s);
    }

    /** A sum that grows by one part of the heap stays below 2^64, so adding it does not wrap. */
    lemma NoWrap(sum: nat, s: set<Address>)
      requires Setup() && sum <= SumOver(Sizes(), s)
      ensures Wrap64(sum) == sum
    {
      hide SumOver;
      TotalFits(s);
      WrapSmall(sum);
    }

    /** Releases the referents of one object, in row order. */
    method Release(row: seq<nat>, deleted: set<Address>, front0: seq<Address>, view0: map<Address, int>)
      returns (front: seq<Address>, view: map<Address, int>)
      requires Setup() && Distinct(row) && forall t | t in row :: t < graph.NodeCount()
      ensures Released(E(), RowSet(row), deleted, front0, view0, front, view)
    {
      hide Graph.NodeCount;
      front, view := front0, view0;
      assert RowSet(row[..0]) == {};
      for k := 0 to |row|
        invariant Released(E(), RowSet(row[..k]), deleted, front0, view0, front, view)
      {
        hide Released, Setup, Graph.NodeCount;
        var referent := row[k];
        assert referent in row;
        assert RowSet(row[..k + 1]) == RowSet(row[..k]) + {referent} && referent !in RowSet(row[..k]);
        ReleaseNext(E(), RowSet(row[..k]), deleted, front0, view0, front, view, referent);
        if referent in deleted {
          continue;
        }
        InboundFacts(referent);
        if referent in view {
          view := view[referent := view[referent] - 1];
        } else {
          view := view[referent := graph.InboundCount(referent) - 1];
        }
        front := front + [referent];
      }
      assert row[..|row|] == row;
    }

    method DeleteUnreferenced(front0: seq<Address>, view0: map<Address, int>, deleted0: set<Address>,
                              useSubtrees: bool, ghost v: Seeds)
      returns (front: seq<Address>, view: map<Address, int>, deleted: set<Address>, retained: nat, happened: bool)
      requires Sound() && SeedsFit(v, Stop(useSubtrees))
      requires Inv(E(), v, Stop(useSubtrees), front0, view0, deleted0)
      requires SortedByView(front0, view0)
      ensures Inv(E(), v, Stop(useSubtrees), front, view, deleted)
      ensures SumOver(Sizes(), Accounted(E(), Stop(useSubtrees), deleted)) ==
              SumOver(Sizes(), Accounted(E(), Stop(useSubtrees), deleted0)) + retained
      ensures happened ==> deleted0 < deleted
      ensures !happened ==> deleted == deleted0 && Stuck(front, view, deleted)
    {
      ghost var e, sizes, stop := E(), Sizes(), Stop(useSubtrees);
      ghost var accounted := SumOver(sizes, Accounted(e, stop, deleted0));
      hide SumOver, Accounted, Inv, RankedForest, SizesStored, Pop, Setup, Released, Wrap64;
      StopIsStoppable(useSubtrees);
      front, view, deleted, retained, happened := front0, view0, deleted0, 0, false;
      for index := |front| downto 0
        invariant index <= |front| && index <= |front0| && forall j | 0 <= j < index :: front[j] == front0[j]
        invariant Inv(e, v, stop, front, view, deleted)
        invariant SumOver(sizes, Accounted(e, stop, deleted)) == accounted + retained
        invariant happened ==> deleted0 < deleted
        invariant !happened ==> front == front0 && view == view0 && deleted == deleted0
        invariant !happened ==> forall j | index <= j < |front| :: front[j] in deleted
      {
        InvViews(e, v, stop, front, view, deleted);
        SetupFacts();
        var current := front[index];
        if view[current] > 0 {
          return;
        }
        if current in deleted {
          continue;
        }
        PopEffect(front, index);
        ghost var frontBefore := front;
        front := Pop(front, index);
        happened := true;
        if useSubtrees && current < graph.objectCount && subtreeRoots[current] {
          StepSubtree(e, sizes, Stored(), v, stop, frontBefore, front, view, deleted, current);
          NoWrap(retained + objectRetained[current], Accounted(e, stop, deleted + {current}));
          retained := Wrap64(retained + objectRetained[current]);
          deleted := deleted + {current};
          continue;
        }
        AccountOne(e, sizes, stop, deleted, current);
        if current >= graph.objectCount {
          DeleteUnexpanded(e, v, stop, frontBefore, front, view, deleted, current);
          deleted := deleted + {current};
          continue;
        }
        NoWrap(retained + heap.objects[current].size, Accounted(e, stop, deleted + {current}));
        retained := Wrap64(retained + heap.objects[current].size);
        ReferentFacts(current);
        var front', view' := Release(graph.ObjectReferents(current), deleted + {current}, front, view);
        ReleasedFits(e, v, stop, frontBefore, front, front', view, view', deleted, current);
        ReleasedKeepsFront(e, RowSet(rows[current]), deleted + {current}, front, view, front', view');
        deleted := deleted + {current};
        view := view';
        front := front';
      }
    }

    lemma SetupFacts()
      requires Setup()
      ensures |heap.objects| == |rows| == graph.objectCount
      ensures subtreeRoots.Length == |rows| == objectRetained.Length
    {
    }

    method RetainedFrom(inboundView: map<Address, int>, front0: seq<Address>, useSubtrees: bool)
      returns (result: nat)
      requires Sound() && Lists(front0, inboundView)
      requires useSubtrees ==> exists o :: inboundView == map[o := 0]
      ensures result == SumOver(Sizes(), Least(E(), inboundView))
    {
      ghost var e, v, stop := E(), inboundView, Stop(useSubtrees);
      hide SumOver, Accounted, Inv, RankedForest, SizesStored, Least, Stuck, Setup, Wrap64;
      StopIsStoppable(useSubtrees);
      InvInitially(e, v, stop, front0);
      SumEmpty(Sizes());
      var front, view, deleted := front0, inboundView, {};
      result := 0;
      while true
        invariant Inv(e, v, stop, front, view, deleted)
        invariant SumOver(Sizes(), Accounted(e, stop, deleted)) == result
        decreases Least(e, v) - deleted
      {
        InvViews(e, v, stop, front, view, deleted);
        var sorted := Sort(front, view);
        ResortKeepsInv(e, v, stop, front, sorted, view, deleted);
        var front', view', deleted', retained, happened := DeleteUnreferenced(sorted, view, deleted, useSubtrees, v);
        if !happened {
          AccountedIsLeast(e, v, stop, front', view', deleted');
          return;
        }
        InvBounds(e, v, stop, front', view', deleted');
        front, view, deleted := front', view', deleted';
        NoWrap(result + retained, Accounted(e, stop, deleted));
        result := Wrap64(result + retained);
      }
    }

    method RetainedForObject(source: nat) returns (retained: nat)
      requires Sound()
      ensures retained == SumOver(Sizes(), Retained(E(), source))
    {
      retained := RetainedFrom(map[source := 0], [source], true);
    }

    // -------------------------------------------------------------- strict subtrees

    method AllSubtrees(row: seq<nat>) returns (all: bool)
      requires Setup()
      ensures all <==> RowSet(row) <= Roots()
    {
      all := true;
      for k := 0 to |row|
        invariant forall j | 0 <= j < k :: row[j] in Roots()
      {
        if row[k] >= graph.objectCount || !subtreeRoots[row[k]] {
          assert row[k] in RowSet(row) && row[k] !in Roots();
          return false;
        }
      }
    }

    method SumStored(size: nat, row: seq<nat>, ghost s: set<Address>) returns (retained: nat)
      requires Setup() && Distinct(row) && RowSet(row) <= Stored().Keys
      requires size + SumOver(Stored(), RowSet(row)) <= SumOver(Sizes(), s)
      ensures retained == size + SumOver(Stored(), RowSet(row))
    {
      hide SumOver, Setup, Wrap64;
      retained := size;
      assert RowSet(row[..0]) == {};
      SumEmpty(Stored());
      for k := 0 to |row|
        invariant retained == size + SumOver(Stored(), RowSet(row[..k]))
      {
        assert row[k] in RowSet(row);
        assert RowSet(row[..k + 1]) == RowSet(row[..k]) + {row[k]} && row[k] !in RowSet(row[..k]);
        SumAdd(Stored(), RowSet(row[..k]), row[k]);
        assert RowSet(row[..k + 1]) <= RowSet(row);
        SumMonotone(Stored(), RowSet(row[..k + 1]), RowSet(row));
        NoWrap(retained + objectRetained[row[k]], s);
        retained := Wrap64(retained + objectRetained[row[k]]);
      }
      assert row[..|row|] == row;
    }

    /** The stored size of a new root is a part of the heap, so computing it does not wrap. */
    lemma RegionFits(a: nat)
      requires Sound() && SubtreeReady(E(), a, Roots())
      ensures Entry(Sizes(), a) + SumOver(Stored(), E()[a]) == SumOver(Sizes(), Reach(E(), a))
      ensures E()[a] <= Stored().Keys
    {
      hide StrictRoots, Inbound, ReachFrom, SumOver;
      ForestStoppable(E(), Roots(), rank);
      ForestRankBelow(E(), Roots(), rank, a);
      SubtreeSize(E(), Sizes(), Stored(), Roots(), a);
    }

    method AddSubtree(a: nat)
      requires Sound() && SubtreeReady(E(), a, Roots()) && a < graph.objectCount
      modifies subtreeRoots, objectRetained, this`rank
      ensures Sound()
      ensures Roots() == old(Roots()) + {a} && Roots() <= StrictRoots(E())
      ensures rank == Ranked(old(Roots()), old(rank), a)
    {
      hide SumOver, SizesStored, RankedForest, SubtreeReady, Setup, Reach;
      SetupFacts();
      ReferentFacts(a);
      RegionFits(a);
      var retained := SumStored(heap.objects[a].size, graph.ObjectReferents(a), Reach(E(), a));
      StoreSubtree(E(), Sizes(), Roots(), rank, Stored(), a, retained);
      AddRoot(E(), Roots(), rank, a);
      ghost var roots, stored := Roots(), Stored();
      rank := Ranked(Roots(), rank, a);
      subtreeRoots[a] := true;
      objectRetained[a] := retained;
      assert Roots() == roots + {a};
      assert Stored() == stored[a := retained];
    }

    lemma SoundRoots()
      requires Sound()
      ensures Roots() <= StrictRoots(E()) && Stoppable(E(), Roots())
    {
      ForestStoppable(E(), Roots(), rank);
    }

    lemma EdgesAre()
      requires Setup()
      ensures forall i: nat :: i in E() <==> i < graph.objectCount
    {
    }

    method CollectLeaves() returns (front: set<nat>)
      requires Sound() && Roots() == {}
      modifies subtreeRoots, objectRetained, this`rank
      ensures Sound() && Roots() <= StrictRoots(E()) && front <= E().Keys
      ensures LeavesFound(E(), Roots()) && Pending(E(), Roots(), front)
    {
      ghost var e := E();
      hide StrictRoots, SizesStored, RankedForest, Forest, Inbound, Setup;
      SetupFacts();
      EdgesAre();
      front := {};
      for index := 0 to graph.objectCount
        invariant front <= e.Keys && Sound() && Roots() <= StrictRoots(e)
        invariant forall x: nat | SubtreeReady(e, x, {}) && x < index :: x in Roots()
        invariant Pending(e, Roots(), front)
      {
        ReferentFacts(index);
        KnownNode(index);
        InboundFacts(index);
        RowEmpty(rows[index]);
        if |graph.ObjectReferents(index)| == 0 && graph.InboundCount(index) < 2 {
          ghost var roots := Roots();
          AddSubtree(index);
          PendingGrows(e, roots, front, index);
          front := front + SetOf(graph.InboundReferences(index));
        }
      }
    }

    lemma KnownNode(i: nat)
      requires Setup() && i < graph.objectCount
      ensures i < graph.NodeCount()
    {
    }

    method FindStrictSubtrees()
      requires Sound() && Roots() == {}
      modifies subtreeRoots, objectRetained, this`rank
      ensures Sound() && Roots() == StrictRoots(E())
    {
      hide StrictRoots, SizesStored, RankedForest, Round, Forest, Pending, LeavesFound, AtLevel, Climb, Inbound, Setup,
           Roots, Stored, IndexEdges;
      var front := CollectLeaves();
      ghost var e := E();
      SetupFacts();
      EdgesAre();
      ghost var level := 0;
      AtLevelZero(front, Roots(), rank);
      while true
        invariant Sound() && Roots() <= StrictRoots(e)
        invariant front <= e.Keys && LeavesFound(e, Roots()) && Pending(e, Roots(), front)
        invariant AtLevel(front, Roots(), rank, level)
        decreases StrictRoots(e) - Roots(), Climb(e, front, Roots(), level), |front|
      {
        ghost var before, rankBefore := Roots(), rank;
        RoundStart(e, front, Roots());
        var next: set<nat> := {};
        var todo := front;
        ghost var found: set<nat>, failed: set<nat> := {}, {};
        while todo != {}
          invariant todo <= front
          invariant Sound() && before <= Roots() <= StrictRoots(e)
          invariant Roots() == before ==> rank == rankBefore
          invariant Round(e, before, front, todo, found, failed, next, Roots())
        {
          var current :| current in todo;
          KnownNode(current);
          InboundFacts(current);
          ReferentFacts(current);
          if graph.InboundCount(current) > 1 {
            RoundDrop(e, before, front, todo, found, failed, next, Roots(), current);
          } else {
            var allSubtrees := AllSubtrees(graph.ObjectReferents(current));
            if !allSubtrees {
              SoundRoots();
              RoundFail(e, before, front, todo, found, failed, next, Roots(), current);
              failed := failed + {current};
              next := next + {current};
            } else {
              ghost var roots := Roots();
              AddSubtree(current);
              RoundFound(e, before, front, todo, found, failed, next, roots, current);
              found := found + {current};
              next := next + SetOf(graph.InboundReferences(current));
            }
          }
          todo := todo - {current};
        }
        var equal := EqualNodeSets(front, next);
        if equal {
          UnchangedFrontIsComplete(e, before, front, found, failed, Roots());
          return;
        }
        RoundProgress(e, rankBefore, rank, before, front, found, failed, next, Roots(), level);
        RoundEnds(e, before, front, found, failed, next, Roots());
        AtLevelZero(next, Roots(), rank);
        level := if Roots() == before then level + 1 else 0;
        front := next;
      }
    }

    // -------------------------------------------------------------- threads

    /** How many threads before `n`, other than the one at index `skip`, hold `address`. */
    method CountHolders(skip: nat, address: Address) returns (count: nat)
      ensures count == HoldersByIndex(heap.threads, |heap.threads|, skip, address)
    {
      hide InSomeFrame;
      count := 0;
      for i := 0 to |heap.threads|
        invariant count == HoldersByIndex(heap.threads, i, skip, address)
      {
        var locals := GatherLocals(heap.threads[i]);
        if i != skip && address in locals {
          count := count + 1;
        }
      }
    }

    method ThreadView(removed: nat) returns (view: map<Address, int>, front: seq<nat>)
      requires Setup() && removed < |heap.threads| && Interned(graph.addressIndex)
      requires heap.threads[removed].Locals() <= graph.addressIndex.Keys
      ensures RenamedSeeds(graph.addressIndex, SeedsByIndex(E(), graph.addressIndex, heap.threads, removed), view)
      ensures Lists(front, view)
    {
      hide HoldersByIndex, Setup, Interned, Inbound, Graph.NodeCount, RenamedSeeds, OneToOne, SeedsByIndex, Lists, Viewing,
           InSomeFrame;
      var locals := GatherLocals(heap.threads[removed]);
      view, front := map[], [];
      var todo := locals;
      ghost var index := graph.addressIndex;
      ghost var seeds := SeedsByIndex(E(), index, heap.threads, removed);
      IndexFacts(index);
      SeedsHere(E(), index, heap.threads, removed);
      NothingViewed(index, seeds);
      assert locals - todo == {};
      while todo != {}
        invariant todo <= locals
        invariant Viewing(index, seeds, locals - todo, front, view)
      {
        var address :| address in todo;
        var node := graph.addressIndex[address];
        NodeBelow(address);
        InboundFacts(node);
        var count := CountHolders(removed, address);
        SeedAt(E(), index, heap.threads, removed, address);
        ViewNext(index, seeds, locals - todo, front, view, address);
        assert locals - (todo - {address}) == locals - todo + {address};
        todo := todo - {address};
        view := view[node := graph.InboundCount(node) + count];
        front := front + [node];
      }
      assert locals - todo == locals;
      AllViewed(index, seeds, front, view);
    }

    lemma NodeBelow(a: Address)
      requires Interned(graph.addressIndex) && a in graph.addressIndex
      ensures graph.addressIndex[a] < graph.NodeCount()
    {
    }

    method CalculateThreads()
      requires Sound() && Interned(graph.addressIndex) && threadRetained == map[]
      requires LocalAddresses(heap.threads) <= graph.addressIndex.Keys
      modifies this`threadRetained
      ensures threadRetained == SizesByIndex(E(), Sizes(), graph.addressIndex, heap.threads, |heap.threads|)
    {
      hide Sound, SumOver, Interned, Inbound, HoldersByIndex, Named, Least;
      for i := 0 to |heap.threads|
        invariant threadRetained == SizesByIndex(E(), Sizes(), graph.addressIndex, heap.threads, i)
      {
        SoundSetup();
        ghost var seeds := SeedsByIndex(E(), graph.addressIndex, heap.threads, i);
        var view, front := ThreadView(i);
        var retained := RetainedFrom(view, front, false);
        SeedsUnique(graph.addressIndex, seeds, view);
        threadRetained := threadRetained[heap.threads[i].name := retained];
      }
    }

    lemma SoundSetup()
      requires Sound()
      ensures Setup()
    {
    }

    // -------------------------------------------------------------- the whole calculation

    constructor (heap: GoHeap, graph: Graph)
      requires FromReader(heap) && GraphFor(heap, graph) && |heap.objects| < UINT32
      ensures fresh(subtreeRoots) && fresh(objectRetained)
      ensures this.heap == heap && this.graph == graph && threadRetained == map[]
      ensures rows == RowsOf(heap.objects, graph.addressIndex)
      ensures Sound() && Roots() == {}
    {
      this.heap := heap;
      this.graph := graph;
      subtreeRoots := new bool[graph.objectCount](_ => false);
      objectRetained := new nat[graph.objectCount](_ => 0);
      threadRetained, rank := map[], map[];
      rows := RowsOf(heap.objects, graph.addressIndex);
      new;
      EstablishSound();
    }

    lemma EstablishSound()
      requires FromReader(heap) && GraphFor(heap, graph) && |heap.objects| < UINT32
      requires rows == RowsOf(heap.objects, graph.addressIndex)
      requires subtreeRoots.Length == graph.objectCount == objectRetained.Length
      requires (forall i | 0 <= i < subtreeRoots.Length :: !subtreeRoots[i]) && rank == map[]
      ensures Sound() && Roots() == {}
    {
      hide FromReader, Represents, RowsIn, StrictRoots, RankedForest, SizesStored, Placed, Indexed,
           KnownAddresses, IndexEdges, IndexSizes;
      RowsDistinct(heap, graph.addressIndex, rows);
      ObjectsAreNodes(heap, graph);
      SmallSizes(heap);
      SameCount(graph, rows);
      assert Roots() == {};
      NothingStored(E(), Sizes(), Stored());
    }

    method CalculateObjects()
      requires Sound() && Roots() == StrictRoots(E())
      modifies objectRetained
      ensures Sound() && Roots() == old(Roots())
      ensures forall i | 0 <= i < |heap.objects| :: objectRetained[i] == SumOver(Sizes(), Retained(E(), i))
    {
      hide SumOver, StrictRoots, RankedForest, SizesStored, Retained, Setup;
      SetupFacts();
      for i := 0 to graph.objectCount
        invariant Sound()
        invariant forall j: nat | j < i :: objectRetained[j] == SumOver(Sizes(), Retained(E(), j))
      {
        var retained := RetainedForObject(i);
        StopIsStoppable(true);
        RestoreSize(E(), Sizes(), Roots(), Stored(), i, retained);
        ghost var stored := Stored();
        objectRetained[i] := retained;
        assert Stored() == stored[i := retained];
      }
    }
  }
}
