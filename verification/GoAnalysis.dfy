/** From artifact bytes to retained sizes: the Go analyzer against the Python one. */
module GoAnalysis {
  import opened GraphTheory
  import opened HeapModel
  import opened Bytes
  import opened ArtifactEncoding
  import opened GoReader
  import Parsing
  import opened CaptureModel
  import Artifact
  import ArtifactRoundTrip
  import G = GoGraph
  import GoRefinement
  import RetainedHeap
  import UniqueSorted

  function GraphObject(record: Record): G.GoObject {
    G.GoObject(record.address, record.size, record.referents)
  }

  /** What the graph is built from. */
  function HeapOf(artifact: GoArtifact): (h: G.GoHeap)
    ensures |h.objects| == |artifact.records|
  {
    G.GoHeap(seq(|artifact.records|, i requires 0 <= i < |artifact.records| => GraphObject(artifact.records[i])),
             artifact.threads)
  }

  ghost predicate SmallSizes(objects: map<Address, HeapObject>) {
    forall a | a in objects :: objects[a].size < G.UINT32
  }

  lemma ObjectIsSmall(c: Artifact.Context, s: Octets, o: nat)
    requires c.Valid() && Artifact.ReadObject(c, s, o).Ok?
    ensures Artifact.ReadObject(c, s, o).value.size < G.UINT32
  {
    hide Parsing.Counted, Artifact.ReadContent, Artifact.ReadObjectTail, FromBe;
    Powers();
    BeFromBe(s[o + 16..o + 20]);
  }

  lemma {:induction false} ObjectsAreSmall(c: Artifact.Context, n: nat, result: map<Address, HeapObject>, s: Octets, o: nat)
    requires c.Valid() && SmallSizes(result) && Artifact.ReadObjects(c, n, result, s, o).Ok?
    ensures SmallSizes(Artifact.ReadObjects(c, n, result, s, o).value)
    decreases n
  {
    hide Artifact.ReadObject;
    if n > 0 {
      ObjectIsSmall(c, s, o);
      var obj := Artifact.ReadObject(c, s, o);
      ObjectsAreSmall(c, n - 1, result[obj.value.address := obj.value], s, obj.next);
    }
  }

  /** Sizes are read from 32-bit fields. */
  lemma ArtifactSizesAreSmall(s: Octets)
    requires Artifact.ReadArtifact(s).Ok?
    ensures SmallSizes(Artifact.ReadArtifact(s).value.objects)
  {
    hide Parsing.Counted, Artifact.ReadObjects, Artifact.CommonType, Artifact.ReadHeader, Artifact.MapOf, FromBe,
         Artifact.TypesKnown, SmallSizes, Artifact.HasContainers, Parsing.ReadText;
    var header := Artifact.ReadHeader(s, 0);
    var threads := Parsing.Counted(Artifact.ReadThread, s, header.next);
    var frequent := Parsing.Counted(Parsing.ReadText, s, threads.next);
    var common := Parsing.Counted(Artifact.CommonType(frequent.value), s, frequent.next);
    var n := Parsing.ReadU32(s, common.next);
    var c := Artifact.Context(header.value.wellKnownTypes, header.value.withStrRepr, frequent.value,
                              Artifact.SetOf(common.value));
    assert SmallSizes(map[]) by {
      NoObjects();
    }
    ObjectsAreSmall(c, n.value, map[], s, n.next);
  }

  lemma NoObjects()
    ensures SmallSizes(map[])
  {
  }

  lemma StrictCons(m: nat, rest: seq<nat>)
    requires UniqueSorted.Strict(rest) && forall x | x in rest :: m < x
    ensures UniqueSorted.Strict([m] + rest)
  {
    forall i | 0 <= i < |rest| ensures m < rest[i] {
      assert rest[i] in rest;
    }
  }

  lemma {:induction false} AscendingIsStrict(s: set<nat>)
    ensures UniqueSorted.Strict(Ascending(s))
  {
    hide UniqueSorted.Strict;
    if s == {} {
      NothingStrict();
      assert Ascending(s) == [];
    } else {
      LeastExists(s);
      var m :| Least(s, m) && Ascending(s) == [m] + Ascending(s - {m});
      AscendingIsStrict(s - {m});
      AscendingHolds(s - {m});
      var rest := Ascending(s - {m});
      forall x | x in rest ensures m < x {
        assert x in Artifact.SetOf(rest);
      }
      StrictCons(m, rest);
      assert Ascending(s) == [m] + rest;
    }
  }

  lemma NothingStrict()
    ensures UniqueSorted.Strict([])
  {
  }

  lemma SortedReferents(s: set<nat>)
    ensures G.Distinct(Ascending(s)) && G.Elements(Ascending(s)) == s
  {
    AscendingIsStrict(s);
    AscendingHolds(s);
    G.ElementsOfList(Ascending(s), s);
  }

  lemma RecordFits(g: GoArtifact, p: Heap, i: nat)
    requires SameArtifact(g, p) && SmallSizes(p.objects) && i < |g.records|
    ensures var o := GraphObject(g.records[i]);
            && G.Distinct(o.referents) && o.size < G.UINT32 && GoRefinement.SameObject(o, p)
            && o.address in g.byAddress && g.byAddress[o.address] == i
  {
    hide Ascending, G.Elements, G.Distinct, ReadsAs, Artifact.HasContainers;
    assert RecordAt(g.records, i, g.byAddress, p.header.wellKnownTypes, p.objects);
    SortedReferents(p.objects[g.records[i].address].referents);
  }

  /** Unique addresses, no repeated referent, and the heap that Python reads. */
  lemma ReaderGuarantees(g: GoArtifact, p: Heap)
    requires SameArtifact(g, p) && SmallSizes(p.objects)
    ensures G.FromReader(HeapOf(g)) && GoRefinement.SameHeap(HeapOf(g), p)
  {
    hide SameRecord, ReadsAs, GoRefinement.SameObject, G.Distinct, Artifact.HasContainers, RecordAt;
    var h := HeapOf(g);
    forall i | 0 <= i < |h.objects|
      ensures G.Distinct(h.objects[i].referents) && h.objects[i].size < G.UINT32
      ensures GoRefinement.SameObject(h.objects[i], p)
      ensures h.objects[i].address in g.byAddress && g.byAddress[h.objects[i].address] == i
    {
      RecordFits(g, p, i);
    }
    assert p.objects.Keys == G.ObjectAddresses(h) by {
      forall a | a in p.objects ensures a in G.ObjectAddresses(h) {
        assert h.objects[g.byAddress[a]].address == a;
      }
      forall a | a in G.ObjectAddresses(h) ensures a in p.objects {
        var i :| 0 <= i < |h.objects| && h.objects[i].address == a;
        assert h.objects[i].address in g.byAddress;
      }
    }
  }

  /**
   * Go's whole way from bytes to sizes. An artifact is accepted exactly when Python's reader accepts it; unless
   * there are too many objects or addresses for the indexes, every object then has the size Python gives it, and
   * so has every thread, if and only if no thread that stays under its name has a copy, or such a one retains nothing.
   */
  method Analyze(source: Octets) returns (r: Parsing.Parsed<(GoArtifact, G.Result<GoRefinement.Sizes>)>)
    ensures r.Ok? <==> Artifact.ReadArtifact(source).Ok?
    ensures r.Ok? ==>
              var p := Artifact.ReadArtifact(source).value;
              && (r.value.1.TooManyObjects? <==> |p.objects| >= 0x1_0000_0000)
              && (r.value.1.TooManyNodes? <==>
                  |p.objects| < 0x1_0000_0000 < |Nodes(p.Refs()) + G.LocalAddresses(p.threads)|)
    ensures r.Ok? && r.value.1.Ok? ==>
              var p, byAddress, sizes := Artifact.ReadArtifact(source).value, r.value.0.byAddress, r.value.1.value;
              && byAddress.Keys == p.objects.Keys
              && (forall a | a in p.objects ::
                    && byAddress[a] < |sizes.objects|
                    && sizes.objects[byAddress[a]] == RetainedHeap.RetainedSizes(p).objects[a])
              && (sizes.threads == RetainedHeap.RetainedSizes(p).threads <==> GoRefinement.CopiesRetainNothing(p))
              && (G.Distinct(p.threads) ==> sizes.threads == RetainedHeap.RetainedSizes(p).threads)
  {
    hide Artifact.ReadArtifact, G.FromReader, GoRefinement.SameHeap, RetainedHeap.RetainedSizes, G.Distinct, SameArtifact,
         GoRefinement.CopiesRetainNothing, G.KnownAddresses, Nodes, G.LocalAddresses;
    var reader := new GoReader(source);
    var artifact :- reader.Read();
    ghost var p := Artifact.ReadArtifact(source).value;
    ArtifactSizesAreSmall(source);
    ReaderGuarantees(artifact.0, p);
    GoRefinement.SameCounts(HeapOf(artifact.0), p);
    var sizes := GoRefinement.CalculateRetainedHeap(HeapOf(artifact.0), p);
    if sizes.Ok? {
      ByAddress(artifact.0, p);
    }
    return Parsing.Ok((artifact.0, sizes), |source|);
  }

  lemma ByAddress(g: GoArtifact, p: Heap)
    requires SameArtifact(g, p)
    ensures g.byAddress.Keys == p.objects.Keys && g.threads == p.threads
    ensures forall a | a in g.byAddress :: g.byAddress[a] < |g.records| && HeapOf(g).objects[g.byAddress[a]].address == a
  {
  }

  // ---------------------------------------------------------------- one address for sets and tuples

  /** A header in which sets and tuples have the type address 100. */
  function SharedTypes(): (known: map<Text, Address>)
    ensures ArtifactRoundTrip.NamesAll(known)
  {
    map n | n in ArtifactRoundTrip.WELL_KNOWN_TYPE_NAMES ::
      if n == Artifact.SET || n == Artifact.TUPLE then 100 else if n == Artifact.DICT then 101 else 102
  }

  /** One object of that type at address 7, holding the addresses 9, 8 and 9. */
  ghost function SharedCapture(): ArtifactRoundTrip.Capture {
    ArtifactRoundTrip.Capture(
      SharedTypes(), [], false, [],
      [CapturedObject(7, 100, [], 8, CaptureModel.TUPLE, [9, 8, 9], [], {}, [], [])], map[100 := []])
  }

  lemma SharedAddresses()
    ensures var known := ArtifactRoundTrip.KnownRead(SharedTypes());
            && Artifact.HasContainers(known)
            && known[Artifact.SET] == known[Artifact.TUPLE] == 100 && known[Artifact.DICT] == 101
  {
    ArtifactRoundTrip.ContainersNamed(SharedTypes());
    assert |Artifact.DICT| == 4 && |Artifact.SET| == 3 && |Artifact.TUPLE| == 5;
  }

  lemma SharedFits()
    ensures ArtifactRoundTrip.Fits(SharedCapture())
  {
    hide Artifact.Ascii;
    SharedAddresses();
  }

  ghost function SharedArtifact(): Octets {
    SharedFits();
    ArtifactRoundTrip.ArtifactBytes(SharedCapture())
  }

  lemma SharedRead() returns (p: Heap)
    ensures Artifact.ReadArtifact(SharedArtifact()) == Parsing.Ok(p, |SharedArtifact()|)
    ensures p.header.wellKnownTypes == ArtifactRoundTrip.KnownRead(SharedTypes())
    ensures 7 in p.objects && p.objects[7].typeAddress == 100 && p.objects[7].content == TupleContent([9, 8, 9])
  {
    hide Artifact.Ascii, ArtifactRoundTrip.KnownRead, ArtifactRoundTrip.TypesRead, ArtifactRoundTrip.ObjectsOffset,
         Artifact.HasContainers, ArtifactRoundTrip.Fits, ArtifactRoundTrip.ArtifactBytes, Artifact.ReadArtifact;
    SharedFits();
    ArtifactRoundTrip.RoundTrip(SharedCapture());
    p := ArtifactRoundTrip.HeapRead(SharedCapture());
  }

  /** Of an object at an ambiguous address, Python makes a tuple and Go a set. */
  lemma TupleIsTakenForSet(g: GoArtifact, p: Heap, a: Address)
    requires SameArtifact(g, p) && a in p.objects && Ambiguous(p.objects[a].typeAddress, p.header.wellKnownTypes)
    ensures p.objects[a].content.TupleContent? && a in g.byAddress && g.byAddress[a] < |g.records|
    ensures g.records[g.byAddress[a]].content ==
            GoContent(ContentSet, Ascending(Artifact.SetOf(p.objects[a].content.items)), [])
  {
    hide Ascending, Artifact.HasContainers;
    assert RecordAt(g.records, g.byAddress[a], g.byAddress, p.header.wellKnownTypes, p.objects);
  }

  /** A concrete artifact that both programs accept: Python reads the tuple 9, 8, 9 from it, Go the set of 8 and 9. */
  lemma SetsAndTuplesDiffer(g: GoArtifact)
    requires Artifact.ReadArtifact(SharedArtifact()).Ok? ==>
               SameArtifact(g, Artifact.ReadArtifact(SharedArtifact()).value)
    ensures Artifact.ReadArtifact(SharedArtifact()).Ok?
    ensures var p := Artifact.ReadArtifact(SharedArtifact()).value;
            && 7 in p.objects && p.objects[7].content == TupleContent([9, 8, 9])
            && 7 in g.byAddress && g.byAddress[7] < |g.records|
            && g.records[g.byAddress[7]].content == GoContent(ContentSet, Ascending({8, 9}), [])
  {
    hide SameArtifact, Ascending, SharedArtifact, Artifact.ReadArtifact, SharedTypes, ArtifactRoundTrip.KnownRead;
    var p := SharedRead();
    SharedAddresses();
    TupleIsTakenForSet(g, p, 7);
    assert Artifact.SetOf(p.objects[7].content.items) == {8, 9} by {
      assert p.objects[7].content.items == [9, 8, 9];
    }
  }
}
