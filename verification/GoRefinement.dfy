/** The Go calculator gives every object and thread the size the Python calculator gives it. */
module GoRefinement {
  import opened Sums
  import opened GraphTheory
  import opened CascadeSpec
  import opened HeapModel
  import opened ThreadSpec
  import opened GoGraph
  import opened GraphRename
  import opened GoRetained
  import RetainedHeap
  import SubtreeSpec

  /** The same heap, as the Python analyzer holds it. */
  ghost predicate SameHeap(h: GoHeap, p: Heap) {
    && p.threads == h.threads
    && p.objects.Keys == ObjectAddresses(h)
    && forall i | 0 <= i < |h.objects| :: SameObject(h.objects[i], p)
  }

  ghost predicate SameObject(o: GoObject, p: Heap) {
    && o.address in p.objects
    && p.objects[o.address].referents == Elements(o.referents)
    && p.objects[o.address].size == o.size
  }

  lemma ObjectOf(h: GoHeap, p: Heap, a: Address) returns (i: nat)
    requires SameHeap(h, p) && a in p.objects
    ensures i < |h.objects| && h.objects[i].address == a
  {
    i :| 0 <= i < |h.objects| && h.objects[i].address == a;
  }

  lemma RowIsImage(referents: seq<Address>, index: map<Address, nat>, row: seq<nat>)
    requires RowMatches(referents, index, row)
    ensures Elements(referents) <= index.Keys && RowSet(row) == Image(index, Elements(referents))
  {
    ElementsAre(referents);
    forall t | t in row ensures t in Image(index, Elements(referents)) {
      var k :| 0 <= k < |row| && row[k] == t;
      assert referents[k] in Elements(referents);
    }
    forall t | t in Image(index, Elements(referents)) ensures t in row {
      var a :| a in Elements(referents) && index[a] == t;
      var k :| 0 <= k < |referents| && referents[k] == a;
      assert row[k] == t;
    }
  }

  lemma NodesIndexed(h: GoHeap, g: Graph, p: Heap)
    requires GraphFor(h, g) && SameHeap(h, p)
    ensures Nodes(p.Refs()) <= g.addressIndex.Keys
  {
    var e := p.Refs();
    forall r | r in Referenced(e) ensures r in g.addressIndex {
      var a :| a in e && r in e[a];
      var i := ObjectOf(h, p, a);
      assert SameObject(h.objects[i], p);
      ElementsAre(h.objects[i].referents);
      assert Indexed(h.objects[i].referents, g.addressIndex);
    }
  }

  lemma ObjectRenamed(h: GoHeap, g: Graph, p: Heap, a: Address)
    requires GraphFor(h, g) && SameHeap(h, p) && a in p.Refs() && Nodes(p.Refs()) <= g.addressIndex.Keys
    ensures var f, e, e' := g.addressIndex, p.Refs(), IndexEdges(RowsOf(h.objects, g.addressIndex));
            ReferentsNamed(f, e, a) && f[a] in e' && e'[f[a]] == Image(f, e[a])
  {
    hide Represents, KnownAddresses, Elements, Interned;
    var f, rows := g.addressIndex, RowsOf(h.objects, g.addressIndex);
    var i := ObjectOf(h, p, a);
    assert SameObject(h.objects[i], p) && f[h.objects[i].address] == i;
    assert RowMatches(h.objects[i].referents, f, rows[i]);
    RowIsImage(h.objects[i].referents, f, rows[i]);
  }

  lemma RowsAreObjects(h: GoHeap, g: Graph, p: Heap)
    requires GraphFor(h, g) && SameHeap(h, p) && p.Refs().Keys <= g.addressIndex.Keys
    ensures IndexEdges(RowsOf(h.objects, g.addressIndex)).Keys <= Image(g.addressIndex, p.Refs().Keys)
  {
    hide Represents, KnownAddresses, Interned;
    var f := g.addressIndex;
    var e' := IndexEdges(RowsOf(h.objects, f));
    forall i: nat | i in e' ensures i in Image(f, p.Refs().Keys) {
      assert SameObject(h.objects[i], p) && f[h.objects[i].address] == i;
    }
  }

  lemma IndexIsRenaming(h: GoHeap, g: Graph, p: Heap)
    requires FromReader(h) && GraphFor(h, g) && SameHeap(h, p)
    ensures OneToOne(g.addressIndex) && Nodes(p.Refs()) <= g.addressIndex.Keys
    ensures RenamedEdges(g.addressIndex, p.Refs(), IndexEdges(RowsOf(h.objects, g.addressIndex)))
  {
    hide FromReader, Represents, KnownAddresses, SameHeap, IndexEdges, RowsMatch, Interned, Placed, OneToOne, Referenced,
         Image;
    var f, e := g.addressIndex, p.Refs();
    IndexFacts(f);
    NodesIndexed(h, g, p);
    RowsAreObjects(h, g, p);
    var e' := IndexEdges(RowsOf(h.objects, f));
    forall a | a in e ensures ReferentsNamed(f, e, a) && f[a] in e' && e'[f[a]] == Image(f, e[a]) {
      ObjectRenamed(h, g, p, a);
    }
    ImageWithin(f, e.Keys, e'.Keys);
  }

  lemma ImageWithin(f: map<Address, nat>, s: set<Address>, t: set<nat>)
    requires s <= f.Keys && forall a | a in s :: f[a] in t
    ensures Image(f, s) <= t
  {
  }

  lemma SizesRenamed(h: GoHeap, g: Graph, p: Heap, a: Address)
    requires GraphFor(h, g) && SameHeap(h, p) && a in g.addressIndex
    ensures Entry(IndexSizes(h.objects), g.addressIndex[a]) == Entry(p.Sizes(), a)
  {
    hide Represents, KnownAddresses, Elements, RowsOf;
    var f := g.addressIndex;
    if f[a] < |h.objects| {
      assert f[h.objects[f[a]].address] == f[a];
      assert SameObject(h.objects[f[a]], p);
    }
    if a in p.objects {
      var i := ObjectOf(h, p, a);
      assert f[h.objects[i].address] == i;
    }
  }

  /** A cascade over indexes retains as many bytes as the cascade over addresses. */
  lemma SameRetained(h: GoHeap, g: Graph, p: Heap, v: Seeds, v': Seeds)
    requires FromReader(h) && GraphFor(h, g) && SameHeap(h, p)
    requires v.Keys <= g.addressIndex.Keys && RenamedSeeds(g.addressIndex, v, v')
    ensures SumOver(IndexSizes(h.objects), Least(IndexEdges(RowsOf(h.objects, g.addressIndex)), v')) ==
            SumOver(p.Sizes(), Least(p.Refs(), v))
  {
    hide FromReader, GraphFor, SameHeap, RenamedEdges, RenamedSeeds, SumOver, Least, IndexEdges, IndexSizes;
    var f := g.addressIndex;
    IndexIsRenaming(h, g, p);
    LeastRenamed(f, p.Refs(), IndexEdges(RowsOf(h.objects, f)), v, v');
    forall a | a in Least(p.Refs(), v) ensures Entry(IndexSizes(h.objects), f[a]) == Entry(p.Sizes(), a) {
      SizesRenamed(h, g, p, a);
    }
    SumRenamed(f, p.Sizes(), IndexSizes(h.objects), Least(p.Refs(), v));
  }

  lemma SameObjectSize(h: GoHeap, g: Graph, p: Heap, i: nat)
    requires FromReader(h) && GraphFor(h, g) && SameHeap(h, p) && i < |h.objects|
    ensures h.objects[i].address in p.objects
    ensures SumOver(IndexSizes(h.objects), Retained(IndexEdges(RowsOf(h.objects, g.addressIndex)), i)) ==
            SumOver(p.Sizes(), Retained(p.Refs(), h.objects[i].address))
  {
    hide FromReader, SumOver, Least, IndexEdges, IndexSizes, Represents, KnownAddresses;
    var a := h.objects[i].address;
    assert SameObject(h.objects[i], p) && g.addressIndex[a] == i;
    var v, v': Seeds := map[a := 0], map[i := 0];
    assert Image(g.addressIndex, {a}) == {i};
    assert v.Keys == {a} && v'.Keys == {i};
    SameRetained(h, g, p, v, v');
  }

  /** How many of the first `n` threads are further copies of the one at index `i`, and hold `a`. */
  ghost function Twins(threads: seq<Thread>, n: nat, i: nat, a: Address): nat
    requires n <= |threads| && i < |threads|
  {
    if n == 0 then 0
    else Twins(threads, n - 1, i, a) +
         if n - 1 != i && threads[n - 1] == threads[i] && a in threads[i].Locals() then 1 else 0
  }

  lemma {:induction false} HoldersDiffer(threads: seq<Thread>, n: nat, i: nat, a: Address)
    requires n <= |threads| && i < |threads|
    ensures HoldersByIndex(threads, n, i, a) == OtherHolders(threads[..n], threads[i], a) + Twins(threads, n, i, a)
  {
    if n > 0 {
      HoldersDiffer(threads, n - 1, i, a);
      assert threads[..n][..n - 1] == threads[..n - 1];
    }
  }

  lemma {:induction false} TwinsZero(threads: seq<Thread>, n: nat, i: nat, a: Address)
    requires n <= |threads| && i < |threads| && a in threads[i].Locals()
    ensures Twins(threads, n, i, a) == 0 <==> forall j | 0 <= j < n && j != i :: threads[j] != threads[i]
  {
    if n > 0 {
      TwinsZero(threads, n - 1, i, a);
    }
  }

  ghost predicate NoCopy(threads: seq<Thread>, i: nat)
    requires i < |threads|
  {
    forall j | 0 <= j < |threads| && j != i :: threads[j] != threads[i]
  }

  /** Leaving a thread out by index and by value count the same holders exactly when it has no copy. */
  lemma SameHoldersIffNoCopy(threads: seq<Thread>, i: nat, a: Address)
    requires i < |threads| && a in threads[i].Locals()
    ensures OtherHolders(threads, threads[i], a) <= HoldersByIndex(threads, |threads|, i, a)
    ensures HoldersByIndex(threads, |threads|, i, a) == OtherHolders(threads, threads[i], a) <==> NoCopy(threads, i)
  {
    HoldersDiffer(threads, |threads|, i, a);
    TwinsZero(threads, |threads|, i, a);
    assert threads[..|threads|] == threads;
  }

  lemma SameInboundCount(h: GoHeap, g: Graph, p: Heap, a: Address)
    requires FromReader(h) && GraphFor(h, g) && SameHeap(h, p) && a in g.addressIndex
    ensures |Inbound(IndexEdges(RowsOf(h.objects, g.addressIndex)), g.addressIndex[a])| == |Inbound(p.Refs(), a)|
  {
    hide FromReader, SameHeap, RenamedEdges, IndexEdges, Inbound, Represents, KnownAddresses, Interned, Placed, OneToOne;
    var f, e := g.addressIndex, p.Refs();
    IndexIsRenaming(h, g, p);
    InboundRenamed(f, e, IndexEdges(RowsOf(h.objects, f)), map[], a);
    ImageCard(f, Inbound(e, a));
  }

  lemma SeedOverAddresses(h: GoHeap, g: Graph, p: Heap, i: nat, a: Address)
    requires FromReader(h) && GraphFor(h, g) && SameHeap(h, p) && i < |h.threads|
    requires h.threads[i].Locals() <= g.addressIndex.Keys && a in h.threads[i].Locals()
    ensures var v := SeedsByIndex(IndexEdges(RowsOf(h.objects, g.addressIndex)), g.addressIndex, h.threads, i);
            && v[a] >= ThreadSeeds(p.Refs(), h.threads, h.threads[i])[a] >= |Inbound(p.Refs(), a)|
            && (v[a] == ThreadSeeds(p.Refs(), h.threads, h.threads[i])[a] <==> NoCopy(h.threads, i))
  {
    hide FromReader, SameHeap, IndexEdges, Inbound, Represents, KnownAddresses, Interned, Placed, HoldersByIndex,
         OtherHolders, RowsMatch, NoCopy;
    SameInboundCount(h, g, p, a);
    SameHoldersIffNoCopy(h.threads, i, a);
  }

  lemma SameSeeds(h: GoHeap, g: Graph, p: Heap, i: nat)
    requires FromReader(h) && GraphFor(h, g) && SameHeap(h, p) && i < |h.threads| && NoCopy(h.threads, i)
    requires h.threads[i].Locals() <= g.addressIndex.Keys
    ensures SeedsByIndex(IndexEdges(RowsOf(h.objects, g.addressIndex)), g.addressIndex, h.threads, i) ==
            ThreadSeeds(p.Refs(), h.threads, h.threads[i])
  {
    hide FromReader, SameHeap, IndexEdges, Inbound, Represents, KnownAddresses, Interned, Placed, HoldersByIndex,
         OtherHolders, RowsMatch, NoCopy;
    var v := SeedsByIndex(IndexEdges(RowsOf(h.objects, g.addressIndex)), g.addressIndex, h.threads, i);
    forall a | a in h.threads[i].Locals() ensures v[a] == ThreadSeeds(p.Refs(), h.threads, h.threads[i])[a] {
      SeedOverAddresses(h, g, p, i, a);
    }
  }

  /** A thread that a copy of it holds on to lets go of nothing. */
  lemma NothingReleased(e: Edges, v: Seeds)
    requires forall a | a in v :: v[a] > |Inbound(e, a)|
    ensures Least(e, v) == {}
  {
    hide Inbound;
    forall x ensures !Ready(e, v, x, {}) {
      assert Inbound(e, x) * {} == {};
    }
    LeastIsLeast(e, v, {});
  }

  lemma CopyHolds(h: GoHeap, g: Graph, p: Heap, i: nat)
    requires FromReader(h) && GraphFor(h, g) && SameHeap(h, p) && i < |h.threads| && !NoCopy(h.threads, i)
    requires h.threads[i].Locals() <= g.addressIndex.Keys
    ensures Least(p.Refs(),
                  SeedsByIndex(IndexEdges(RowsOf(h.objects, g.addressIndex)), g.addressIndex, h.threads, i)) == {}
  {
    hide FromReader, SameHeap, IndexEdges, Inbound, Represents, KnownAddresses, Interned, Placed, HoldersByIndex,
         OtherHolders, RowsMatch, NoCopy, Least;
    var v := SeedsByIndex(IndexEdges(RowsOf(h.objects, g.addressIndex)), g.addressIndex, h.threads, i);
    forall a | a in v ensures v[a] > |Inbound(p.Refs(), a)| {
      SeedOverAddresses(h, g, p, i, a);
    }
    NothingReleased(p.Refs(), v);
  }

  /** The bytes the Go calculator finds for the thread at an index. */
  ghost function IndexRetained(e': Edges, sizes': map<Address, nat>, f: map<Address, nat>, p: Heap, i: nat): nat
    requires i < |p.threads| && LocalAddresses(p.threads) <= f.Keys && Interned(f)
  {
    IndexFacts(f);
    LocalsKnownAt(p.threads, i);
    SumOver(sizes', Least(e', Named(f, SeedsByIndex(e', f, p.threads, i))))
  }

  ghost function ValueRetained(p: Heap, i: nat): nat
    requires i < |p.threads|
  {
    SumOver(p.Sizes(), ThreadRetained(p.Refs(), p.threads, p.threads[i]))
  }

  /** Go finds for a thread what Python finds, but nothing at all for one that has a copy. */
  lemma ThreadAtIndex(h: GoHeap, g: Graph, p: Heap, i: nat)
    requires FromReader(h) && GraphFor(h, g) && SameHeap(h, p) && i < |p.threads|
    requires p.threads == h.threads && LocalAddresses(p.threads) <= g.addressIndex.Keys
    ensures IndexRetained(IndexEdges(RowsOf(h.objects, g.addressIndex)), IndexSizes(h.objects), g.addressIndex, p, i) ==
            if NoCopy(p.threads, i) then ValueRetained(p, i) else 0
  {
    hide FromReader, SameHeap, IndexEdges, IndexSizes, SumOver, Least, Represents, KnownAddresses, ThreadSeeds,
         SeedsByIndex, Named, Interned, Placed, OneToOne, NoCopy;
    var f := g.addressIndex;
    LocalsKnownAt(p.threads, i);
    IndexFacts(f);
    var v := SeedsByIndex(IndexEdges(RowsOf(h.objects, f)), f, p.threads, i);
    SeedsHere(IndexEdges(RowsOf(h.objects, f)), f, p.threads, i);
    SameRetained(h, g, p, v, Named(f, v));
    if NoCopy(p.threads, i) {
      SameSeeds(h, g, p, i);
      ThreadRetainedIs(p.Refs(), p.threads, p.threads[i]);
    } else {
      CopyHolds(h, g, p, i);
      SumEmpty(p.Sizes());
    }
  }

  lemma {:induction false} SizesByIndexKeys(e': Edges, sizes': map<Address, nat>, f: map<Address, nat>, p: Heap, n: nat)
    requires n <= |p.threads| && LocalAddresses(p.threads) <= f.Keys && Interned(f)
    ensures SizesByIndex(e', sizes', f, p.threads, n).Keys == Names(p.threads[..n])
  {
    hide SumOver, Least, SeedsByIndex, Named, Interned, OneToOne;
    if n > 0 {
      SizesByIndexKeys(e', sizes', f, p, n - 1);
      assert p.threads[..n] == p.threads[..n - 1] + [p.threads[n - 1]];
    }
  }

  lemma {:induction false} SizesByIndexLast(e': Edges, sizes': map<Address, nat>, f: map<Address, nat>, p: Heap, n: nat,
                                            i: nat)
    requires i < n <= |p.threads| && LocalAddresses(p.threads) <= f.Keys && Interned(f)
    requires forall j | i < j < n :: p.threads[j].name != p.threads[i].name
    ensures p.threads[i].name in SizesByIndex(e', sizes', f, p.threads, n)
    ensures SizesByIndex(e', sizes', f, p.threads, n)[p.threads[i].name] == IndexRetained(e', sizes', f, p, i)
  {
    hide SumOver, Least, SeedsByIndex, Named, Interned, OneToOne;
    if i < n - 1 {
      SizesByIndexLast(e', sizes', f, p, n - 1, i);
    }
  }

  /** The thread whose size stays under its name. */
  ghost predicate LastOfName(threads: seq<Thread>, i: nat) {
    i < |threads| && forall j | i < j < |threads| :: threads[j].name != threads[i].name
  }

  lemma {:induction false} NameHasLast(threads: seq<Thread>, k: nat) returns (i: nat)
    requires k < |threads|
    ensures LastOfName(threads, i) && threads[i].name == threads[k].name
    decreases |threads| - k
  {
    if j :| k < j < |threads| && threads[j].name == threads[k].name {
      i := NameHasLast(threads, j);
    } else {
      i := k;
    }
  }

  /** No thread that stays under its name has a copy, unless it retains nothing anyway. */
  ghost predicate CopiesRetainNothing(p: Heap) {
    forall i: nat | LastOfName(p.threads, i) :: NoCopy(p.threads, i) || ValueRetained(p, i) == 0
  }

  lemma DistinctHaveNoCopies(p: Heap)
    requires Distinct(p.threads)
    ensures CopiesRetainNothing(p)
  {
    hide ValueRetained;
  }

  lemma ThreadsByIndex(h: GoHeap, g: Graph, p: Heap)
    requires FromReader(h) && GraphFor(h, g) && SameHeap(h, p)
    requires p.threads == h.threads && LocalAddresses(p.threads) <= g.addressIndex.Keys
    ensures SizesByIndex(IndexEdges(RowsOf(h.objects, g.addressIndex)), IndexSizes(h.objects), g.addressIndex, p.threads,
                         |p.threads|) == ThreadSizes(p.Refs(), p.Sizes(), p.threads, |p.threads|) <==>
            CopiesRetainNothing(p)
  {
    hide FromReader, SameHeap, IndexEdges, IndexSizes, Represents, KnownAddresses, Interned, Placed, NoCopy, ThreadSizes,
         SizesByIndex, IndexRetained, RowsMatch, SumOver, ThreadRetained;
    var n, f := |p.threads|, g.addressIndex;
    var e', sizes' := IndexEdges(RowsOf(h.objects, f)), IndexSizes(h.objects);
    var mine, theirs := SizesByIndex(e', sizes', f, p.threads, n), ThreadSizes(p.Refs(), p.Sizes(), p.threads, n);
    SizesByIndexKeys(e', sizes', f, p, n);
    ThreadSizesKeys(p.Refs(), p.Sizes(), p.threads, n);
    assert p.threads[..n] == p.threads;
    forall i: nat | LastOfName(p.threads, i)
      ensures p.threads[i].name in mine && p.threads[i].name in theirs
      ensures mine[p.threads[i].name] == theirs[p.threads[i].name] <==>
              NoCopy(p.threads, i) || ValueRetained(p, i) == 0
    {
      SizesByIndexLast(e', sizes', f, p, n, i);
      ThreadSizesLast(p.Refs(), p.Sizes(), p.threads, n, i);
      ThreadAtIndex(h, g, p, i);
    }
    SameByName(p, mine, theirs);
  }

  lemma SameByName(p: Heap, mine: map<Text, nat>, theirs: map<Text, nat>)
    requires mine.Keys == theirs.Keys == Names(p.threads)
    requires forall i: nat | LastOfName(p.threads, i) ::
               mine[p.threads[i].name] == theirs[p.threads[i].name] <==>
               NoCopy(p.threads, i) || ValueRetained(p, i) == 0
    ensures mine == theirs <==> CopiesRetainNothing(p)
  {
    hide NoCopy, ValueRetained;
    if CopiesRetainNothing(p) {
      forall name | name in mine ensures mine[name] == theirs[name] {
        var t :| t in p.threads && t.name == name;
        var k :| 0 <= k < |p.threads| && p.threads[k] == t;
        var i := NameHasLast(p.threads, k);
      }
    }
  }

  /** A thread retains nothing at all exactly when each of its locals is referenced or held by another thread. */
  lemma RetainsNothing(e: Edges, threads: seq<Thread>, t: Thread)
    ensures ThreadRetained(e, threads, t) == {} <==>
            forall a | a in t.Locals() :: Inbound(e, a) != {} || exists u :: u in threads && u != t && a in u.Locals()
  {
    hide ThreadRetained, Inbound;
    if ThreadRetained(e, threads, t) == {} {
      forall a | a in t.Locals() && Inbound(e, a) == {}
        ensures exists u :: u in threads && u != t && a in u.Locals()
      {
        ThreadRule(e, threads, t, a);
      }
    }
    if forall a | a in t.Locals() :: Inbound(e, a) != {} || exists u :: u in threads && u != t && a in u.Locals() {
      forall x ensures !Ready(e, ThreadSeeds(e, threads, t), x, {}) {
        assert Inbound(e, x) * {} == {};
        OtherHoldersZero(threads, t, x);
        assert |Inbound(e, x)| == 0 <==> Inbound(e, x) == {};
      }
      ThreadLeast(e, threads, t, {});
    }
  }

  /** Two equal threads hold an object of 8 bytes: Python lets it go with either of them, Go never does. */
  lemma EqualThreadsDiffer(g: Graph)
    requires GraphFor(GoHeap([GoObject(1, 8, [])], [Holding(1), Holding(1)]), g)
    ensures var h := GoHeap([GoObject(1, 8, [])], [Holding(1), Holding(1)]);
            var p := Heap(Header(1, [], false, map[]), h.threads, map[1 := HeapObject(1, 0, 8, {}, NoContent, None)], map[]);
            && FromReader(h) && SameHeap(h, p) && LocalAddresses(p.threads) <= g.addressIndex.Keys
            && ValueRetained(p, 1) == 8
            && IndexRetained(IndexEdges(RowsOf(h.objects, g.addressIndex)), IndexSizes(h.objects), g.addressIndex, p, 1) == 0
            && !CopiesRetainNothing(p)
  {
    hide GraphFor, IndexEdges, IndexRetained, ValueRetained;
    var h := GoHeap([GoObject(1, 8, [])], [Holding(1), Holding(1)]);
    var p := Heap(Header(1, [], false, map[]), h.threads, map[1 := HeapObject(1, 0, 8, {}, NoContent, None)], map[]);
    LocalsIndexed(h, g);
    OneObject(h, p);
    ThreadAtIndex(h, g, p, 1);
    assert p.threads[0] == p.threads[1] && !NoCopy(p.threads, 1);
    EightBytes(p);
    assert LastOfName(p.threads, 1);
  }

  lemma OneObject(h: GoHeap, p: Heap)
    requires h.objects == [GoObject(1, 8, [])] && p.threads == h.threads
    requires p.objects == map[1 := HeapObject(1, 0, 8, {}, NoContent, None)]
    ensures FromReader(h) && SameHeap(h, p)
  {
    assert h.objects[0].address == 1;
    assert ObjectAddresses(h) == {1} == p.objects.Keys;
    ElementsAre([]);
  }

  lemma EightBytes(p: Heap)
    requires p.threads == [Holding(1), Holding(1)]
    requires p.objects == map[1 := HeapObject(1, 0, 8, {}, NoContent, None)]
    ensures ValueRetained(p, 1) == 8
  {
    hide ThreadRetained, SumOver;
    var e, t := p.Refs(), Holding(1);
    HoldingLocals(1);
    forall x ensures Inbound(e, x) == {} {
    }
    ThreadRule(e, p.threads, t, 1);
    forall x | x in ThreadRetained(e, p.threads, t) ensures x == 1 {
      ThreadRule(e, p.threads, t, x);
    }
    assert ThreadRetained(e, p.threads, t) == {} + {1};
    SumEmpty(p.Sizes());
    SumAdd(p.Sizes(), {}, 1);
  }

  lemma SameCounts(h: GoHeap, p: Heap)
    requires FromReader(h) && SameHeap(h, p)
    ensures |h.objects| == |p.objects|
    ensures KnownAddresses(h) == Nodes(p.Refs()) + LocalAddresses(p.threads)
  {
    var addresses := seq(|h.objects|, i requires 0 <= i < |h.objects| => h.objects[i].address);
    DistinctCard(addresses);
    assert (set x | x in addresses) == p.objects.Keys by {
      forall a | a in p.objects ensures a in addresses {
        var i := ObjectOf(h, p, a);
        assert addresses[i] == a;
      }
    }
    SameReferents(h, p);
  }

  lemma SameReferents(h: GoHeap, p: Heap)
    requires SameHeap(h, p)
    ensures ReferentAddresses(h.objects) == Referenced(p.Refs())
  {
    var e := p.Refs();
    forall r | r in Referenced(e) ensures r in ReferentAddresses(h.objects) {
      var a :| a in e && r in e[a];
      var i := ObjectOf(h, p, a);
      assert SameObject(h.objects[i], p);
      ElementsAre(h.objects[i].referents);
    }
    forall r | r in ReferentAddresses(h.objects) ensures r in Referenced(e) {
      var i :| 0 <= i < |h.objects| && r in h.objects[i].referents;
      assert SameObject(h.objects[i], p);
      ElementsAre(h.objects[i].referents);
      assert r in e[h.objects[i].address];
    }
  }

  datatype Sizes = Sizes(objects: seq<nat>, threads: map<Text, nat>)

  /**
   * The Go calculation, and its agreement with the Python one on the same heap: every object's size, and every
   * thread's if and only if no thread that stays under its name has a copy, or such a one retains nothing.
   */
  method CalculateRetainedHeap(h: GoHeap, ghost p: Heap) returns (r: Result<Sizes>)
    requires FromReader(h) && SameHeap(h, p)
    ensures r.TooManyObjects? <==> |h.objects| >= UINT32
    ensures r.TooManyNodes? <==> |h.objects| < UINT32 < |KnownAddresses(h)|
    ensures r.Ok? ==> |r.value.objects| == |h.objects|
    ensures r.Ok? ==>
              forall i | 0 <= i < |h.objects| ::
                && h.objects[i].address in p.objects
                && r.value.objects[i] == RetainedHeap.RetainedSizes(p).objects[h.objects[i].address]
    ensures r.Ok? ==> (r.value.threads == RetainedHeap.RetainedSizes(p).threads <==> CopiesRetainNothing(p))
    ensures r.Ok? && Distinct(h.threads) ==> r.value.threads == RetainedHeap.RetainedSizes(p).threads
  {
    hide FromReader, SameHeap, IndexEdges, IndexSizes, SumOver, Least, CascadeSpec.Retained, Represents, KnownAddresses,
         ThreadSizes, SizesByIndex, Interned, Placed, SubtreeSpec.StrictRoots, Distinct, CopiesRetainNothing;
    var built := BuildGraph(h);
    match built {
      case TooManyObjects => return TooManyObjects;
      case TooManyNodes => return TooManyNodes;
      case Ok(graph) =>
        LocalsIndexed(h, graph);
        var calculator := new RetainedCalculator(h, graph);
        calculator.FindStrictSubtrees();
        calculator.CalculateObjects();
        calculator.SoundSetup();
        calculator.SetupFacts();
        calculator.CalculateThreads();
        forall i | 0 <= i < |h.objects|
          ensures h.objects[i].address in p.objects
          ensures calculator.objectRetained[i] == SumOver(p.Sizes(), CascadeSpec.Retained(p.Refs(), h.objects[i].address))
        {
          SameObjectSize(h, graph, p, i);
        }
        SameThreads(h, p);
        ThreadsByIndex(h, graph, p);
        if Distinct(h.threads) {
          DistinctHaveNoCopies(p);
        }
        return Ok(Sizes(calculator.objectRetained[..], calculator.threadRetained));
    }
  }

  lemma LocalsIndexed(h: GoHeap, g: Graph)
    requires GraphFor(h, g)
    ensures LocalAddresses(h.threads) <= g.addressIndex.Keys
  {
  }

  lemma SameThreads(h: GoHeap, p: Heap)
    requires SameHeap(h, p)
    ensures h.threads == p.threads
  {
  }
}
