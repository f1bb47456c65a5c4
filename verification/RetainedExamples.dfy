/** A small heap with its retained sizes, computed by hand. */
module RetainedExamples {
  import opened Sums
  import opened GraphTheory
  import opened CascadeSpec
  import opened HeapModel
  import opened ThreadSpec
  import RetainedHeap

  /** The object 1 references 2, which references 3; 4 and 5 stand alone. */
  function Objects(): map<Address, HeapObject> {
    map[1 := HeapObject(1, 9, 10, {2}, NoContent, None), 2 := HeapObject(2, 9, 20, {3}, NoContent, None),
        3 := HeapObject(3, 9, 40, {}, NoContent, None), 4 := HeapObject(4, 9, 5, {}, NoContent, None),
        5 := HeapObject(5, 9, 7, {}, NoContent, None)]
  }

  /** One thread of two frames, the first with a local at 1, the second with a local at 4. */
  function Worker(): Thread {
    Thread([119], true, false, [Frame([102], 1, [103], map[[97] := 1]), Frame([102], 2, [104], map[[98] := 4])])
  }

  function Example(): Heap {
    Heap(Header(1, [], false, map[]), [Worker()], Objects(), map[])
  }

  lemma ExampleSources(e: Edges)
    requires e == Example().Refs()
    ensures Inbound(e, 1) == {} && Inbound(e, 2) == {1} && Inbound(e, 3) == {2} && Inbound(e, 4) == {}
    ensures forall x | x !in {2, 3} :: Inbound(e, x) == {}
  {
  }

  lemma ExampleRetained(e: Edges)
    requires e == Example().Refs()
    ensures Retained(e, 1) == {1, 2, 3} && Retained(e, 2) == {2, 3} && Retained(e, 3) == {3} && Retained(e, 5) == {5}
  {
    hide Retained, Inbound, Example;
    ExampleSources(e);
    OwnAndBelow(e, 1);
    OwnAndBelow(e, 2);
    OwnAndBelow(e, 3);
    OwnAndBelow(e, 5);
    RetainedLeast(e, 1, {1, 2, 3});
    RetainedLeast(e, 2, {2, 3});
    RetainedLeast(e, 3, {3});
    RetainedLeast(e, 5, {5});
  }

  lemma OwnAndBelow(e: Edges, o: Address)
    ensures o in Retained(e, o)
    ensures 2 in Retained(e, o) <==> o == 2 || (Inbound(e, 2) != {} && Inbound(e, 2) <= Retained(e, o))
    ensures 3 in Retained(e, o) <==> o == 3 || (Inbound(e, 3) != {} && Inbound(e, 3) <= Retained(e, o))
  {
    hide Retained, Inbound;
    RetainedSelf(e, o);
    RetainedRule(e, o, 2);
    RetainedRule(e, o, 3);
  }

  lemma ExampleLocals()
    ensures Worker().Locals() == {1, 4}
  {
    forall a ensures a in Worker().Locals() <==> a in {1, 4} {
      LocalsAreNamed(Worker(), a);
      var first, second := Worker().stackTrace[0], Worker().stackTrace[1];
      assert first.locals[[97]] == 1 && second.locals[[98]] == 4;
    }
  }

  lemma ExampleThread(e: Edges)
    requires e == Example().Refs()
    ensures ThreadRetained(e, [Worker()], Worker()) == {1, 2, 3, 4}
  {
    hide ThreadRetained, Inbound, Worker, Example;
    ExampleSources(e);
    ExampleLocals();
    var gone := ThreadRetained(e, [Worker()], Worker());
    ThreadRule(e, [Worker()], Worker(), 1);
    ThreadRule(e, [Worker()], Worker(), 2);
    ThreadRule(e, [Worker()], Worker(), 3);
    ThreadRule(e, [Worker()], Worker(), 4);
    forall x | x in gone ensures x in {1, 2, 3, 4} {
      ThreadRule(e, [Worker()], Worker(), x);
    }
  }

  lemma SumSingle(sizes: map<Address, nat>, x: Address)
    requires x in sizes
    ensures SumOver(sizes, {x}) == sizes[x]
  {
    hide SumOver;
    SumEmpty(sizes);
    SumAdd(sizes, {}, x);
    assert {} + {x} == {x};
  }

  lemma ExampleSums(sizes: map<Address, nat>)
    requires sizes == Example().Sizes()
    ensures SumOver(sizes, {3}) == 40 && SumOver(sizes, {2, 3}) == 60 && SumOver(sizes, {1, 2, 3}) == 70
    ensures SumOver(sizes, {1, 2, 3, 4}) == 75 && SumOver(sizes, {5}) == 7
  {
    hide SumOver;
    SumSingle(sizes, 3);
    SumSingle(sizes, 5);
    SumAdd(sizes, {3}, 2);
    SumAdd(sizes, {2, 3}, 1);
    SumAdd(sizes, {1, 2, 3}, 4);
    assert {3} + {2} == {2, 3} && {2, 3} + {1} == {1, 2, 3} && {1, 2, 3} + {4} == {1, 2, 3, 4};
  }

  /** What the calculator finds: 70, 60, 40 bytes along the chain, 7 for an object alone, 75 for the thread. */
  lemma ExampleSizes()
    ensures var r := RetainedHeap.RetainedSizes(Example());
            && r.objects[1] == 70 && r.objects[2] == 60 && r.objects[3] == 40 && r.objects[5] == 7
            && r.threads == map[[119] := 75]
  {
    hide SumOver, Retained, ThreadRetained;
    var h := Example();
    ExampleRetained(h.Refs());
    ExampleThread(h.Refs());
    ExampleSums(h.Sizes());
    assert h.threads == [Worker()];
    assert ThreadSizes(h.Refs(), h.Sizes(), h.threads, 0) == map[];
  }
}
