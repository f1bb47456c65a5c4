/** The Python retained-heap calculator. */
module RetainedHeap {
  import opened Sums
  import opened GraphTheory
  import opened CascadeSpec
  import opened SubtreeSpec
  import opened SubtreeSearch
  import opened CascadeInvariant
  import opened CascadeOutcome
  import opened HeapModel
  import opened ThreadSpec
  import opened ViewSort

  datatype Retained = Retained(objects: map<Address, nat>, threads: map<Text, nat>)

  /** Python's exceptions: a second run, or a local address that nothing in the heap knows. */
  datatype Outcome<+T> = Ok(value: T) | AlreadyCalculated | UnknownAddress(address: Address)

  ghost predicate Table(e: Edges, inbound: map<Address, set<Address>>) {
    inbound.Keys == Nodes(e) && forall a | a in inbound :: inbound[a] == Inbound(e, a)
  }

  lemma InboundMeansKnown(e: Edges, a: Address)
    ensures Inbound(e, a) != {} ==> a in Nodes(e)
  {
    if y :| y in Inbound(e, a) {
      assert a in Referenced(e);
    }
  }

  lemma TableEmpty()
    ensures Table(map[], map[])
  {
  }

  lemma TableAddObject(e: Edges, inbound: map<Address, set<Address>>, x: Address)
    requires Table(e, inbound) && x !in e
    ensures Table(e[x := {}], if x in inbound then inbound else inbound[x := {}])
  {
    var e' := e[x := {}];
    assert Referenced(e') == Referenced(e) by {
      forall a, r | a in e && r in e[a] ensures r in Referenced(e') {
        assert a in e' && r in e'[a];
      }
    }
    forall a ensures Inbound(e', a) == Inbound(e, a) {
    }
    InboundMeansKnown(e, x);
  }

  lemma TableAddReference(e: Edges, inbound: map<Address, set<Address>>, x: Address, r: Address)
    requires Table(e, inbound) && x in e
    ensures Table(e[x := e[x] + {r}], inbound[r := (if r in inbound then inbound[r] else {}) + {x}])
  {
    hide Inbound, Referenced;
    ReferenceAdds(e, x, r);
    InboundMeansKnown(e, r);
  }

  lemma ReferenceAdds(e: Edges, x: Address, r: Address)
    requires x in e
    ensures var e' := e[x := e[x] + {r}];
            && Referenced(e') == Referenced(e) + {r}
            && forall a :: Inbound(e', a) == if a == r then Inbound(e, a) + {x} else Inbound(e, a)
  {
    var e' := e[x := e[x] + {r}];
    assert r in e'[x];
    forall a, b | a in e && b in e[a] ensures b in Referenced(e') {
      assert a in e' && b in e'[a];
    }
    forall a ensures Inbound(e', a) == if a == r then Inbound(e, a) + {x} else Inbound(e, a) {
    }
  }

  class InboundReferences {
    const inbound: map<Address, set<Address>>

    /** Turns outgoing references into inbound ones: every known address maps to exactly its sources. */
    constructor (heap: Heap)
      ensures Table(heap.Refs(), inbound)
    {
      hide Table, Inbound, Nodes;
      TableEmpty();
      var table: map<Address, set<Address>> := map[];
      var todo := heap.objects.Keys;
      ghost var part: Edges := map[];
      while todo != {}
        invariant todo <= heap.objects.Keys
        invariant part.Keys == heap.objects.Keys - todo
        invariant forall a | a in part :: part[a] == heap.objects[a].referents
        invariant Table(part, table)
      {
        var address :| address in todo;
        TableAddObject(part, table, address);
        todo := todo - {address};
        if address !in table {
          table := table[address := {}];
        }
        ghost var others := part;
        part := part[address := {}];
        var referents := heap.objects[address].referents;
        assert heap.objects[address].referents - referents == {};
        while referents != {}
          invariant referents <= heap.objects[address].referents
          invariant part == others[address := heap.objects[address].referents - referents]
          invariant Table(part, table)
        {
          var referent :| referent in referents;
          TableAddReference(part, table, address, referent);
          part := part[address := part[address] + {referent}];
          assert heap.objects[address].referents - (referents - {referent}) ==
                 heap.objects[address].referents - referents + {referent};
          referents := referents - {referent};
          table := table[referent := (if referent in table then table[referent] else {}) + {address}];
        }
      }
      assert part == heap.Refs();
      inbound := table;
    }
  }

  lemma KnownObject(e: Edges, inbound: map<Address, set<Address>>, a: Address)
    requires Table(e, inbound) && a in e
    ensures a in inbound && inbound[a] == Inbound(e, a)
  {
  }

  ghost predicate LocalsKnown(heap: Heap) {
    forall t | t in heap.threads :: t.Locals() <= Nodes(heap.Refs())
  }

  /** What the calculator is for: the bytes deleted with each object, and with each thread. */
  ghost function RetainedSizes(heap: Heap): Retained {
    Retained(map a | a in heap.objects :: SumOver(heap.Sizes(), CascadeSpec.Retained(heap.Refs(), a)),
             ThreadSizes(heap.Refs(), heap.Sizes(), heap.threads, |heap.threads|))
  }

  class RetainedHeapCalculator {
    const heap: Heap
    const inbound: map<Address, set<Address>>
    var subtreeRoots: set<Address>
    var objectRetained: map<Address, nat>
    var threadRetained: map<Text, nat>
    var calculated: bool
    ghost var rank: map<Address, nat>

    /** What holds even while subtree roots are being collected. */
    ghost predicate Sound()
      reads this`subtreeRoots, this`objectRetained, this`rank
    {
      && Table(heap.Refs(), inbound)
      && RankedForest(heap.Refs(), subtreeRoots, rank)
      && SizesStored(heap.Refs(), heap.Sizes(), subtreeRoots, objectRetained)
      && objectRetained.Keys <= heap.objects.Keys
    }

    ghost predicate Valid()
      reads this
    {
      && Sound()
      && (subtreeRoots == {} || subtreeRoots == StrictRoots(heap.Refs()))
      && threadRetained.Keys <= Names(heap.threads)
    }

    constructor (heap: Heap, inbound: InboundReferences)
      requires Table(heap.Refs(), inbound.inbound)
      ensures Valid() && this.heap == heap && !calculated
    {
      this.heap := heap;
      this.inbound := inbound.inbound;
      subtreeRoots, objectRetained, threadRetained, calculated := {}, map[], map[], false;
      rank := map[];
    }

    ghost function Stop(useSubtrees: bool): set<Address>
      reads this
    {
      if useSubtrees then subtreeRoots else {}
    }

    /** Every address loses one inbound count; one seen for the first time starts from its full count. */
    method DecrementInbound(addresses: set<Address>, view0: map<Address, int>) returns (view: map<Address, int>)
      requires Table(heap.Refs(), inbound) && addresses <= inbound.Keys
      ensures view.Keys == view0.Keys + addresses
      ensures forall x | x in addresses ::
                view[x] == (if x in view0 then view0[x] else |Inbound(heap.Refs(), x)|) - 1
      ensures forall x | x in view0 && x !in addresses :: view[x] == view0[x]
    {
      view := view0;
      var todo := addresses;
      while todo != {}
        invariant todo <= addresses
        invariant view.Keys == view0.Keys + (addresses - todo)
        invariant forall x | x in addresses - todo ::
                    view[x] == (if x in view0 then view0[x] else |Inbound(heap.Refs(), x)|) - 1
        invariant forall x | x in view0 && x !in addresses - todo :: view[x] == view0[x]
      {
        var address :| address in todo;
        todo := todo - {address};
        if address in view {
          view := view[address := view[address] - 1];
        } else {
          view := view[address := |inbound[address]| - 1];
        }
      }
    }

    lemma StopIsStoppable(useSubtrees: bool)
      requires Valid()
      ensures Stoppable(heap.Refs(), Stop(useSubtrees))
    {
      ForestStoppable(heap.Refs(), subtreeRoots, rank);
    }

    /** One pass over the sorted front, from its end. */
    method DeleteUnreferenced(front0: seq<Address>, view0: map<Address, int>, deleted0: set<Address>,
                              useSubtrees: bool, ghost v: Seeds)
      returns (front: seq<Address>, view: map<Address, int>, deleted: set<Address>, retained: nat, happened: bool)
      requires Valid() && SeedsFit(v, Stop(useSubtrees))
      requires Inv(heap.Refs(), v, Stop(useSubtrees), front0, view0, deleted0)
      requires SortedByView(front0, view0)
      ensures Inv(heap.Refs(), v, Stop(useSubtrees), front, view, deleted)
      ensures SumOver(heap.Sizes(), Accounted(heap.Refs(), Stop(useSubtrees), deleted)) ==
              SumOver(heap.Sizes(), Accounted(heap.Refs(), Stop(useSubtrees), deleted0)) + retained
      ensures happened ==> deleted0 < deleted
      ensures !happened ==> deleted == deleted0 && Stuck(front, view, deleted)
    {
      ghost var e, sizes, stop := heap.Refs(), heap.Sizes(), Stop(useSubtrees);
      ghost var accounted := SumOver(sizes, Accounted(e, stop, deleted0));
      hide SumOver, Accounted, Inv, RankedForest, SizesStored, Pop;
      StopIsStoppable(useSubtrees);
      front, view, deleted, retained, happened := front0, view0, deleted0, 0, false;
      for index := |front| downto 0
        invariant index <= |front| && index <= |front0| && forall j | 0 <= j < index :: front[j] == front0[j]
        invariant Inv(e, v, stop, front, view, deleted)
        invariant SumOver(sizes, Accounted(e, stop, deleted)) == accounted + retained
        invariant happened ==> deleted0 < deleted
        invariant !happened ==> front == front0 && view == view0 && deleted == deleted0
        invariant !happened ==> forall j | index <= j < |front| :: front[j] in deleted
      {
        InvViews(e, v, stop, front, view, deleted);
        var current := front[index];
        if view[current] > 0 {
          return;
        }
        if current in deleted {
          continue;
        }
        ghost var frontBefore := front;
        PopEffect(front, index);
        front := Pop(front, index);
        happened := true;
        if useSubtrees && current in subtreeRoots {
          SoundStored();
          StepSubtree(e, sizes, objectRetained, v, stop, frontBefore, front, view, deleted, current);
          retained := retained + objectRetained[current];
          deleted := deleted + {current};
          continue;
        }
        AccountOne(e, sizes, stop, deleted, current);
        if current !in heap.objects {
          DeleteUnexpanded(e, v, stop, frontBefore, front, view, deleted, current);
          deleted := deleted + {current};
          continue;
        }
        var obj := heap.objects[current];
        retained := retained + obj.size;
        var newFront := obj.referents - (deleted + {current});
        ReferentsAreNodes(e, current);
        var view' := DecrementInbound(newFront, view);
        var released := ListOf(newFront);
        DeleteExpanded(e, v, stop, frontBefore, front + released, view, view', deleted, current);
        deleted := deleted + {current};
        view := view';
        front := front + released;
      }
    }

    /** The whole cascade: it retains exactly the least set closed under the reference-counting rule. */
    method RetainedFrom(inboundView: map<Address, int>, front0: seq<Address>, useSubtrees: bool)
      returns (retained: nat)
      requires Valid() && Lists(front0, inboundView)
      requires useSubtrees ==> exists o :: inboundView == map[o := 0]
      ensures retained == SumOver(heap.Sizes(), Least(heap.Refs(), inboundView))
    {
      ghost var e, v, stop := heap.Refs(), inboundView, Stop(useSubtrees);
      hide SumOver, Accounted, Inv, RankedForest, SizesStored, Least, Stuck;
      StopIsStoppable(useSubtrees);
      InvInitially(e, v, stop, front0);
      SumEmpty(heap.Sizes());
      var front, view, deleted := front0, inboundView, {};
      retained := 0;
      while true
        invariant Inv(e, v, stop, front, view, deleted)
        invariant SumOver(heap.Sizes(), Accounted(e, stop, deleted)) == retained
        decreases Least(e, v) - deleted
      {
        InvViews(e, v, stop, front, view, deleted);
        var sorted := Sort(front, view);
        ResortKeepsInv(e, v, stop, front, sorted, view, deleted);
        var front', view', deleted', iterationRetained, happened :=
          DeleteUnreferenced(sorted, view, deleted, useSubtrees, v);
        if !happened {
          AccountedIsLeast(e, v, stop, front', view', deleted');
          return;
        }
        InvBounds(e, v, stop, front', view', deleted');
        front, view, deleted := front', view', deleted';
        retained := retained + iterationRetained;
      }
    }

    method RetainedForObject(address: Address) returns (retained: nat)
      requires Valid()
      ensures retained == SumOver(heap.Sizes(), CascadeSpec.Retained(heap.Refs(), address))
    {
      retained := RetainedFrom(map[address := 0], [address], true);
    }

    method SumStored(referents: set<Address>) returns (total: nat)
      requires referents <= objectRetained.Keys
      ensures total == SumOver(objectRetained, referents)
    {
      hide SumOver;
      total := 0;
      var todo := referents;
      SumEmpty(objectRetained);
      assert referents - todo == {};
      while todo != {}
        invariant todo <= referents
        invariant total == SumOver(objectRetained, referents - todo)
      {
        var referent :| referent in todo;
        SumAdd(objectRetained, referents - todo, referent);
        assert referents - (todo - {referent}) == referents - todo + {referent};
        todo := todo - {referent};
        total := total + objectRetained[referent];
      }
      assert referents - todo == referents;
    }

    /** Records `a` as a subtree root with the size of its region. */
    method AddSubtree(a: Address)
      requires Sound() && SubtreeReady(heap.Refs(), a, subtreeRoots)
      modifies this`subtreeRoots, this`objectRetained, this`rank
      ensures Sound()
      ensures subtreeRoots == old(subtreeRoots) + {a} && subtreeRoots <= StrictRoots(heap.Refs())
      ensures rank == Ranked(old(subtreeRoots), old(rank), a)
    {
      hide SumOver, SizesStored, RankedForest, Table, SubtreeReady;
      ghost var e, sizes := heap.Refs(), heap.Sizes();
      ReferentsStored(e, sizes, subtreeRoots, objectRetained, a);
      var below := SumStored(heap.objects[a].referents);
      StoreSubtree(e, sizes, subtreeRoots, rank, objectRetained, a, heap.objects[a].size + below);
      AddRoot(e, subtreeRoots, rank, a);
      subtreeRoots, rank := subtreeRoots + {a}, Ranked(subtreeRoots, rank, a);
      objectRetained := objectRetained[a := heap.objects[a].size + below];
    }

    lemma SoundStoppable()
      requires Sound()
      ensures Stoppable(heap.Refs(), subtreeRoots)
    {
      ForestStoppable(heap.Refs(), subtreeRoots, rank);
    }

    /** Every object without referents and with fewer than two inbound sources is a subtree root; its sources are next. */
    method CollectLeaves() returns (front: set<Address>)
      requires Valid()
      modifies this`subtreeRoots, this`objectRetained, this`rank
      ensures Sound() && subtreeRoots <= StrictRoots(heap.Refs()) && front <= heap.Refs().Keys
      ensures LeavesFound(heap.Refs(), subtreeRoots) && Pending(heap.Refs(), subtreeRoots, front)
    {
      ghost var e := heap.Refs();
      hide StrictRoots, SizesStored, RankedForest, Forest;
      SoundRoots();
      front := {};
      var todo := heap.objects.Keys;
      while todo != {}
        invariant todo <= heap.objects.Keys && front <= e.Keys
        invariant Sound() && subtreeRoots <= StrictRoots(e)
        invariant forall x | SubtreeReady(e, x, {}) && x !in todo :: x in subtreeRoots
        invariant Pending(e, subtreeRoots, front)
      {
        var address :| address in todo;
        KnownObject(e, inbound, address);
        var obj := heap.objects[address];
        if obj.referents == {} && |inbound[address]| < 2 {
          ghost var roots := subtreeRoots;
          AddSubtree(address);
          PendingGrows(e, roots, front, address);
          front := front + inbound[address];
        }
        todo := todo - {address};
      }
    }

    lemma SoundStored()
      requires Sound()
      ensures SizesStored(heap.Refs(), heap.Sizes(), subtreeRoots, objectRetained)
    {
    }

    lemma SoundRoots()
      requires Sound()
      ensures subtreeRoots <= StrictRoots(heap.Refs())
    {
    }

    /** The rounds of the search; on return exactly the strict subtree roots are recorded. */
    method FindStrictSubtrees()
      requires Valid()
      modifies this`subtreeRoots, this`objectRetained, this`rank
      ensures Valid() && subtreeRoots == StrictRoots(heap.Refs())
    {
      hide StrictRoots, SizesStored, RankedForest, Round, Forest, Table, Pending, LeavesFound, AtLevel, Climb, Inbound;
      var front := CollectLeaves();
      ghost var e := heap.Refs();
      ghost var level := 0;
      AtLevelZero(front, subtreeRoots, rank);
      while true
        invariant Sound() && subtreeRoots <= StrictRoots(e)
        invariant front <= e.Keys && LeavesFound(e, subtreeRoots) && Pending(e, subtreeRoots, front)
        invariant AtLevel(front, subtreeRoots, rank, level)
        decreases StrictRoots(e) - subtreeRoots, Climb(e, front, subtreeRoots, level), |front|
      {
        ghost var before, rankBefore := subtreeRoots, rank;
        RoundStart(e, front, subtreeRoots);
        var next: set<Address> := {};
        var todo := front;
        ghost var found: set<Address>, failed: set<Address> := {}, {};
        while todo != {}
          invariant todo <= front
          invariant Sound() && before <= subtreeRoots <= StrictRoots(e)
          invariant subtreeRoots == before ==> rank == rankBefore
          invariant Round(e, before, front, todo, found, failed, next, subtreeRoots)
        {
          var address :| address in todo;
          var obj := heap.objects[address];
          KnownObject(e, inbound, address);
          if |inbound[address]| > 1 {
            RoundDrop(e, before, front, todo, found, failed, next, subtreeRoots, address);
          } else if obj.referents - subtreeRoots != {} {
            SoundStoppable();
            RoundFail(e, before, front, todo, found, failed, next, subtreeRoots, address);
            failed := failed + {address};
            next := next + {address};
          } else {
            ghost var roots := subtreeRoots;
            AddSubtree(address);
            RoundFound(e, before, front, todo, found, failed, next, roots, address);
            found := found + {address};
            next := next + inbound[address];
          }
          todo := todo - {address};
        }
        if next == front {
          UnchangedFrontIsComplete(e, before, front, found, failed, subtreeRoots);
          return;
        }
        RoundProgress(e, rankBefore, rank, before, front, found, failed, next, subtreeRoots, level);
        RoundEnds(e, before, front, found, failed, next, subtreeRoots);
        AtLevelZero(next, subtreeRoots, rank);
        level := if subtreeRoots == before then level + 1 else 0;
        front := next;
      }
    }

    method CountOtherHolders(removed: Thread, address: Address) returns (holders: nat)
      ensures holders == OtherHolders(heap.threads, removed, address)
    {
      hide InSomeFrame;
      holders := 0;
      for i := 0 to |heap.threads|
        invariant holders == OtherHolders(heap.threads[..i], removed, address)
      {
        var locals := GatherLocals(heap.threads[i]);
        assert heap.threads[..i + 1][..i] == heap.threads[..i];
        if heap.threads[i] != removed && address in locals {
          holders := holders + 1;
        }
      }
      assert heap.threads[..|heap.threads|] == heap.threads;
    }

    /** The counts a thread's cascade starts from, or the first local found that nothing in the heap knows. */
    method ThreadView(removed: Thread) returns (r: Outcome<map<Address, int>>)
      requires Table(heap.Refs(), inbound)
      ensures r.Ok? <==> removed.Locals() <= Nodes(heap.Refs())
      ensures r.Ok? ==> r.value == ThreadSeeds(heap.Refs(), heap.threads, removed)
      ensures !r.Ok? ==> r.UnknownAddress? && r.address in removed.Locals() && r.address !in Nodes(heap.Refs())
    {
      hide Nodes, Inbound, OtherHolders, InSomeFrame;
      var locals := GatherLocals(removed);
      var view: map<Address, int> := map[];
      var todo := locals;
      while todo != {}
        invariant todo <= locals && view.Keys == locals - todo && view.Keys <= inbound.Keys
        invariant forall a | a in view :: view[a] == |inbound[a]| + OtherHolders(heap.threads, removed, a)
      {
        var address :| address in todo;
        todo := todo - {address};
        if address !in inbound {
          return UnknownAddress(address);
        }
        var holders := CountOtherHolders(removed, address);
        view := view[address := |inbound[address]| + holders];
      }
      return Ok(view);
    }

    method CalculateThreads() returns (r: Outcome<()>)
      requires Valid()
      modifies this`threadRetained
      ensures Valid()
      ensures r.Ok? <==> LocalsKnown(heap)
      ensures r.Ok? ==> threadRetained == ThreadSizes(heap.Refs(), heap.Sizes(), heap.threads, |heap.threads|)
      ensures !r.Ok? ==> r.UnknownAddress? && r.address !in Nodes(heap.Refs()) &&
                         exists t :: t in heap.threads && r.address in t.Locals()
    {
      ghost var e, sizes := heap.Refs(), heap.Sizes();
      hide Sound, SumOver, StrictRoots, Nodes, ThreadRetained;
      for i := 0 to |heap.threads|
        invariant Valid()
        invariant forall t | t in heap.threads[..i] :: t.Locals() <= Nodes(e)
        invariant var done := ThreadSizes(e, sizes, heap.threads, i);
                  forall n | n in done :: n in threadRetained && threadRetained[n] == done[n]
      {
        var removedThread := heap.threads[i];
        assert removedThread in heap.threads;
        SoundTable();
        var view := ThreadView(removedThread);
        if !view.Ok? {
          return UnknownAddress(view.address);
        }
        var locals := GatherLocals(removedThread);
        var front := ListOf(locals);
        var retained := RetainedFrom(view.value, front, false);
        ThreadRetainedIs(e, heap.threads, removedThread);
        assert removedThread.name in Names(heap.threads);
        threadRetained := threadRetained[removedThread.name := retained];
        assert heap.threads[..i + 1] == heap.threads[..i] + [removedThread];
      }
      assert heap.threads[..|heap.threads|] == heap.threads;
      ThreadSizesKeys(e, sizes, heap.threads, |heap.threads|);
      return Ok(());
    }

    lemma SoundTable()
      requires Sound()
      ensures Table(heap.Refs(), inbound)
    {
    }

    /**
     * The retained size of every object and thread. It fails on a second run, and, as a lookup of an
     * unknown key does, exactly when some thread holds a local that is neither an object nor a referent.
     */
    method Calculate() returns (r: Outcome<Retained>)
      requires Valid()
      modifies this
      ensures Valid()
      ensures old(calculated) ==> r.AlreadyCalculated? && calculated
      ensures !old(calculated) ==> calculated == r.Ok? == LocalsKnown(heap)
      ensures r.Ok? ==> r.value == RetainedSizes(heap)
      ensures !old(calculated) && !r.Ok? ==> r.UnknownAddress? && r.address !in Nodes(heap.Refs()) &&
                                             exists t :: t in heap.threads && r.address in t.Locals()
    {
      if calculated {
        return AlreadyCalculated;
      }
      FindStrictSubtrees();
      CalculateObjects();
      var threads := CalculateThreads();
      if !threads.Ok? {
        return UnknownAddress(threads.address);
      }
      calculated := true;
      return Ok(Retained(objectRetained, threadRetained));
    }

    /** Each object's cascade reads the table of stored sizes that this loop overwrites. */
    method CalculateObjects()
      requires Valid()
      modifies this`objectRetained
      ensures Valid() && objectRetained == RetainedSizes(heap).objects
    {
      ghost var e, sizes := heap.Refs(), heap.Sizes();
      hide SumOver, StrictRoots, RankedForest, Table, SizesStored, CascadeSpec.Retained, ThreadSizes;
      var todo := heap.objects.Keys;
      while todo != {}
        invariant todo <= heap.objects.Keys && Valid()
        invariant forall a | a in heap.objects.Keys - todo ::
                    a in objectRetained && objectRetained[a] == SumOver(sizes, CascadeSpec.Retained(e, a))
      {
        var address :| address in todo;
        todo := todo - {address};
        var retained := RetainedForObject(address);
        SoundStoppable();
        RestoreSize(e, sizes, subtreeRoots, objectRetained, address, retained);
        objectRetained := objectRetained[address := retained];
      }
    }
  }
}
