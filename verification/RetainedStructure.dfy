/** How retained sets lie in the graph: dominance, nesting, and sizes that never exceed the heap. */
module RetainedStructure {
  import opened Sums
  import opened GraphTheory
  import opened CascadeSpec
  import opened HeapModel
  import opened ThreadSpec

  /** Every walk into the retained set of `o` from outside passes through `o`. */
  lemma {:induction false} RetainedIsEnteredThroughOwner(e: Edges, o: Address, p: seq<Address>)
    requires Path(e, p) && p[0] !in Retained(e, o) && p[|p| - 1] in Retained(e, o)
    ensures o in p
  {
    RetainedRule(e, o, p[1]);
    assert p[0] in Inbound(e, p[1]);
    if p[1] !in Retained(e, o) {
      assert Path(e, p[1..]) by {
        forall i | 0 <= i < |p[1..]| - 1 ensures p[1..][i] in Inbound(e, p[1..][i + 1]) {
          assert p[i + 1] in Inbound(e, p[i + 1 + 1]);
        }
      }
      RetainedIsEnteredThroughOwner(e, o, p[1..]);
    }
  }

  /** `x` can be reached from the unreferenced nodes only through `o`. */
  ghost predicate DominatedBy(e: Edges, o: Address, x: Address) {
    forall p | Path(e, p) && p[|p| - 1] == x && Inbound(e, p[0]) == {} :: o in p
  }

  ghost function Dominated(e: Edges, o: Address): set<Address> {
    set x | x in Nodes(e) + {o} && DominatedBy(e, o, x)
  }

  /** No cycle inside `s`: every non-empty part of it has a node without a source in that part. */
  ghost predicate Acyclic(e: Edges, s: set<Address>) {
    forall c | c != {} && c <= s :: exists x :: x in c && Inbound(e, x) !! c
  }

  lemma RetainedIsDominated(e: Edges, o: Address, x: Address)
    requires x in Retained(e, o)
    ensures DominatedBy(e, o, x)
  {
    hide Retained, Inbound;
    forall p | Path(e, p) && p[|p| - 1] == x && Inbound(e, p[0]) == {} ensures o in p {
      RetainedRule(e, o, p[0]);
      if p[0] !in Retained(e, o) {
        RetainedIsEnteredThroughOwner(e, o, p);
      }
    }
  }

  lemma RetainedNodes(e: Edges, o: Address)
    ensures Retained(e, o) <= Nodes(e) + {o}
  {
  }

  /** A retained set never holds a cycle that avoids its owner: such a cycle keeps itself alive. */
  lemma RetainedIsAcyclic(e: Edges, o: Address)
    ensures Acyclic(e, Retained(e, o) - {o})
  {
    hide Retained, Inbound;
    forall c | c != {} && c <= Retained(e, o) - {o} ensures exists x :: x in c && Inbound(e, x) !! c {
      if forall x | x in c :: !(Inbound(e, x) !! c) {
        var rest := Retained(e, o) - c;
        forall x | Inbound(e, x) != {} && Inbound(e, x) <= rest ensures x in rest {
          RetainedRule(e, o, x);
        }
        RetainedSelf(e, o);
        RetainedLeast(e, o, rest);
      }
    }
  }

  lemma SourcesOfDominated(e: Edges, o: Address, x: Address, q: Address)
    requires DominatedBy(e, o, x) && x != o && q in Inbound(e, x)
    ensures DominatedBy(e, o, q)
  {
    hide Inbound;
    forall p | Path(e, p) && p[|p| - 1] == q && Inbound(e, p[0]) == {} ensures o in p {
      assert Path(e, p + [x]);
      assert o in p + [x];
    }
  }

  lemma DominatedHasSource(e: Edges, o: Address, x: Address)
    requires DominatedBy(e, o, x) && x != o
    ensures Inbound(e, x) != {}
  {
    assert Path(e, [x]);
    assert o !in [x];
  }

  /**
   * Retained sets as dominance, all threads left aside: deleting `o` deletes only what unreferenced nodes reach
   * through `o` alone, and all of that if and only if no cycle hides in there.
   */
  lemma RetainedMeansDominated(e: Edges, o: Address)
    ensures Retained(e, o) <= Dominated(e, o)
    ensures Retained(e, o) == Dominated(e, o) <==> Acyclic(e, Dominated(e, o) - {o})
  {
    hide Retained, Inbound, DominatedBy;
    RetainedNodes(e, o);
    forall x | x in Retained(e, o) ensures x in Dominated(e, o) {
      RetainedIsDominated(e, o, x);
    }
    RetainedIsAcyclic(e, o);
    if Acyclic(e, Dominated(e, o) - {o}) {
      NothingMissed(e, o);
    }
  }

  lemma NothingMissed(e: Edges, o: Address)
    requires Acyclic(e, Dominated(e, o) - {o})
    ensures Dominated(e, o) <= Retained(e, o)
  {
    hide Retained, Inbound, DominatedBy;
    RetainedSelf(e, o);
    var missed := Dominated(e, o) - Retained(e, o);
    assert missed <= Dominated(e, o) - {o};
    if missed != {} {
      var x :| x in missed && Inbound(e, x) !! missed;
      FirstMissedIsRetained(e, o, x);
    }
    forall x | x in Dominated(e, o) ensures x in Retained(e, o) {
      assert x !in missed;
    }
  }

  /** On a graph without cycles, retaining is dominating. */
  lemma RetainedOnAcyclicGraph(e: Edges, o: Address)
    requires Acyclic(e, Nodes(e))
    ensures Retained(e, o) == Dominated(e, o)
  {
    hide Retained, Inbound, DominatedBy;
    assert Acyclic(e, Dominated(e, o) - {o}) by {
      forall c | c != {} && c <= Dominated(e, o) - {o} ensures exists x :: x in c && Inbound(e, x) !! c {
        assert c <= Nodes(e);
      }
    }
    RetainedMeansDominated(e, o);
  }

  ghost predicate CycleIn(e: Edges, s: set<Address>, p: seq<Address>) {
    Path(e, p) && |p| > 1 && p[0] == p[|p| - 1] && forall x | x in p :: x in s
  }

  /** `Acyclic` says what its name says: no walk inside `s` returns to where it began. */
  lemma AcyclicMeansNoCycle(e: Edges, s: set<Address>)
    ensures Acyclic(e, s) <==> forall p :: !CycleIn(e, s, p)
  {
    hide Inbound;
    forall p | CycleIn(e, s, p) ensures !Acyclic(e, s) {
      CycleHasNoFirst(e, s, p);
    }
    if c :| c != {} && c <= s && forall x | x in c :: !(Inbound(e, x) !! c) {
      var p := WalkBack(e, c, |c|);
      var i, j := Repeats(p, c);
      assert CycleIn(e, s, p[i..j + 1]);
    }
  }

  lemma CycleHasNoFirst(e: Edges, s: set<Address>, p: seq<Address>)
    requires CycleIn(e, s, p)
    ensures !Acyclic(e, s)
  {
    var c := set x | x in p;
    assert p[0] in c;
    forall x | x in c ensures !(Inbound(e, x) !! c) {
      var k :| 0 <= k < |p| && p[k] == x;
      var i := if k == 0 then |p| - 2 else k - 1;
      assert p[i] in Inbound(e, p[i + 1]);
    }
    assert c <= s;
  }

  lemma {:induction false} WalkBack(e: Edges, c: set<Address>, n: nat) returns (p: seq<Address>)
    requires c != {} && forall x | x in c :: !(Inbound(e, x) !! c)
    ensures Path(e, p) && |p| == n + 1 && forall x | x in p :: x in c
  {
    if n == 0 {
      var x :| x in c;
      p := [x];
    } else {
      var rest := WalkBack(e, c, n - 1);
      assert rest[0] in c;
      var x :| x in Inbound(e, rest[0]) && x in c;
      p := [x] + rest;
    }
  }

  lemma {:induction false} Repeats(p: seq<Address>, c: set<Address>) returns (i: nat, j: nat)
    requires |p| > |c| && forall x | x in p :: x in c
    ensures i < j < |p| && p[i] == p[j]
    decreases |p|
  {
    var last := |p| - 1;
    if p[last] in p[..last] {
      i :| 0 <= i < last && p[i] == p[last];
      j := last;
    } else {
      i, j := Repeats(p[..last], c - {p[last]});
    }
  }

  lemma FirstMissedIsRetained(e: Edges, o: Address, x: Address)
    requires DominatedBy(e, o, x) && x != o
    requires Inbound(e, x) !! Dominated(e, o) - Retained(e, o)
    ensures x in Retained(e, o)
  {
    hide Retained, DominatedBy;
    DominatedHasSource(e, o, x);
    forall q | q in Inbound(e, x) ensures q in Retained(e, o) {
      SourcesOfDominated(e, o, x, q);
    }
    RetainedRule(e, o, x);
  }

  /** Two objects referencing each other keep each other alive after their only outside holder is gone. */
  lemma CycleSurvives()
    ensures var e: Edges := map[1 := {2}, 2 := {3}, 3 := {2}];
            Retained(e, 1) == {1} && DominatedBy(e, 1, 2) && DominatedBy(e, 1, 3)
  {
    var e: Edges := map[1 := {2}, 2 := {3}, 3 := {2}];
    hide Retained;
    assert Inbound(e, 2) == {1, 3} && Inbound(e, 3) == {2} && Inbound(e, 1) == {};
    RetainedSelf(e, 1);
    forall x ensures Inbound(e, x) != {} ==> !(Inbound(e, x) <= {1}) {
      OnlyTheCycleIsReferenced(e, x);
    }
    RetainedLeast(e, 1, {1});
    forall p | Path(e, p) && (p[|p| - 1] == 2 || p[|p| - 1] == 3) && Inbound(e, p[0]) == {} ensures 1 in p {
      CycleIsEnteredFromOne(e, p);
    }
  }

  lemma OnlyTheCycleIsReferenced(e: Edges, x: Address)
    requires e == map[1 := {2}, 2 := {3}, 3 := {2}]
    ensures Inbound(e, x) != {} ==> !(Inbound(e, x) <= {1})
  {
    if x == 2 {
      assert 3 in Inbound(e, x);
    } else if x == 3 {
      assert 2 in Inbound(e, x);
    }
  }

  lemma CycleIsEnteredFromOne(e: Edges, p: seq<Address>)
    requires e == map[1 := {2}, 2 := {3}, 3 := {2}] && Path(e, p) && (p[|p| - 1] == 2 || p[|p| - 1] == 3)
    requires Inbound(e, p[0]) == {}
    ensures 1 in p
  {
    assert 1 in Inbound(e, 2) && 2 in Inbound(e, 3);
    assert p[0] in Inbound(e, p[1]);
    assert p[0] == 1;
  }

  /** Whatever `b` retains goes with `a` once `b` does. */
  lemma RetainedNests(e: Edges, a: Address, b: Address)
    requires b in Retained(e, a)
    ensures Retained(e, b) <= Retained(e, a)
  {
    hide Retained, Inbound;
    forall x | Inbound(e, x) != {} && Inbound(e, x) <= Retained(e, a) ensures x in Retained(e, a) {
      RetainedRule(e, a, x);
    }
    RetainedLeast(e, b, Retained(e, a));
  }

  lemma RetainedApart(e: Edges, a: Address, b: Address)
    requires a !in Retained(e, b) && b !in Retained(e, a)
    ensures Retained(e, a) !! Retained(e, b)
  {
    hide Retained, Inbound;
    var rest := Retained(e, a) - Retained(e, b);
    RetainedSelf(e, a);
    forall x | Inbound(e, x) != {} && Inbound(e, x) <= rest ensures x in rest {
      RetainedRule(e, a, x);
      RetainedRule(e, b, x);
      if q :| q in Inbound(e, x) {
        assert !(q in rest && q in Retained(e, b));
      }
    }
    RetainedLeast(e, a, rest);
  }

  /** Retained sets form a laminar family, and a nested one never retains more bytes. */
  lemma RetainedIsLaminar(e: Edges, sizes: map<Address, nat>, a: Address, b: Address)
    ensures b in Retained(e, a) ==>
              Retained(e, b) <= Retained(e, a) &&
              SumOver(sizes, Retained(e, b)) <= SumOver(sizes, Retained(e, a))
    ensures || Retained(e, a) <= Retained(e, b)
            || Retained(e, b) <= Retained(e, a)
            || Retained(e, a) !! Retained(e, b)
  {
    hide Retained, SumOver;
    if b in Retained(e, a) {
      RetainedNests(e, a, b);
      SumMonotone(sizes, Retained(e, b), Retained(e, a));
    } else if a in Retained(e, b) {
      RetainedNests(e, b, a);
    } else {
      RetainedApart(e, a, b);
    }
  }

  ghost function TotalHeapSize(heap: Heap): nat {
    SumOver(heap.Sizes(), heap.objects.Keys)
  }

  lemma PartOfHeap(heap: Heap, s: set<Address>)
    ensures SumOver(heap.Sizes(), s) <= TotalHeapSize(heap)
  {
    hide SumOver;
    SumKnown(heap.Sizes(), s);
    SumMonotone(heap.Sizes(), s * heap.Sizes().Keys, heap.objects.Keys);
  }

  /** The bytes retained by objects none of which retains another add up to no more than the heap. */
  lemma {:induction false} ApartObjectsFitTheHeap(heap: Heap, owners: set<Address>, sizes: map<Address, nat>)
    returns (union: set<Address>)
    requires forall a, b | a in owners && b in owners && a != b :: a !in Retained(heap.Refs(), b)
    requires forall a | a in owners :: Entry(sizes, a) == SumOver(heap.Sizes(), Retained(heap.Refs(), a))
    ensures SumOver(sizes, owners) == SumOver(heap.Sizes(), union)
    ensures forall x | x in union :: exists a :: a in owners && x in Retained(heap.Refs(), a)
    ensures SumOver(sizes, owners) <= TotalHeapSize(heap)
    decreases |owners|
  {
    hide SumOver, Retained, TotalHeapSize;
    if owners == {} {
      union := {};
      SumEmpty(sizes);
      SumEmpty(heap.Sizes());
    } else {
      var a :| a in owners;
      var others := ApartObjectsFitTheHeap(heap, owners - {a}, sizes);
      forall b | b in owners && b != a ensures Retained(heap.Refs(), a) !! Retained(heap.Refs(), b) {
        RetainedApart(heap.Refs(), a, b);
      }
      SumPick(sizes, owners, a);
      SumUnion(heap.Sizes(), others, Retained(heap.Refs(), a));
      union := others + Retained(heap.Refs(), a);
    }
    PartOfHeap(heap, union);
  }

  /** The thread whose size is kept under a name. */
  ghost function Owner(threads: seq<Thread>, n: nat, name: Text): (t: Thread)
    requires n <= |threads| && name in Names(threads[..n])
    ensures t in threads && t.name == name
  {
    assert threads[..n] == threads[..n - 1] + [threads[n - 1]];
    if threads[n - 1].name == name then threads[n - 1] else Owner(threads, n - 1, name)
  }

  lemma {:induction false} SizeOfOwner(heap: Heap, n: nat, name: Text)
    requires n <= |heap.threads| && name in Names(heap.threads[..n])
    ensures Entry(ThreadSizes(heap.Refs(), heap.Sizes(), heap.threads, n), name) ==
            SumOver(heap.Sizes(), ThreadRetained(heap.Refs(), heap.threads, Owner(heap.threads, n, name)))
  {
    hide SumOver, ThreadRetained;
    assert heap.threads[..n] == heap.threads[..n - 1] + [heap.threads[n - 1]];
    if heap.threads[n - 1].name != name {
      SizeOfOwner(heap, n - 1, name);
    }
  }

  /** The retained sizes of all threads add up to no more than the heap, whatever their names. */
  lemma {:induction false} ThreadSizesFitTheHeap(heap: Heap, names: set<Text>) returns (union: set<Address>)
    requires names <= Names(heap.threads)
    ensures SumOver(ThreadSizes(heap.Refs(), heap.Sizes(), heap.threads, |heap.threads|), names) ==
            SumOver(heap.Sizes(), union)
    ensures heap.threads[..|heap.threads|] == heap.threads
    ensures forall x | x in union :: exists n :: (
              n in names && x in ThreadRetained(heap.Refs(), heap.threads, Owner(heap.threads, |heap.threads|, n)))
    ensures SumOver(ThreadSizes(heap.Refs(), heap.Sizes(), heap.threads, |heap.threads|), names) <=
            TotalHeapSize(heap)
    decreases |names|
  {
    hide SumOver, ThreadRetained, ThreadSizes, TotalHeapSize, Owner;
    var e, threads := heap.Refs(), heap.threads;
    var kept := ThreadSizes(e, heap.Sizes(), threads, |threads|);
    assert threads[..|threads|] == threads;
    if names == {} {
      union := {};
      SumEmpty(kept);
      SumEmpty(heap.Sizes());
    } else {
      var name :| name in names;
      var others := ThreadSizesFitTheHeap(heap, names - {name});
      var mine := ThreadRetained(e, threads, Owner(threads, |threads|, name));
      forall n | n in names - {name} ensures ThreadRetained(e, threads, Owner(threads, |threads|, n)) !! mine {
        ThreadsRetainDisjoint(e, threads, Owner(threads, |threads|, n), Owner(threads, |threads|, name));
      }
      SumPick(kept, names, name);
      SizeOfOwner(heap, |threads|, name);
      SumUnion(heap.Sizes(), others, mine);
      union := others + mine;
    }
    PartOfHeap(heap, union);
  }
}
