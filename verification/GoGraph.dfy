/** The Go analyzer's compact graph: addresses interned to indexes, references and their transpose in flat arrays. */
module GoGraph {
  import opened GraphTheory
  import opened HeapModel
  import opened Sums

  const UINT32 := 0x1_0000_0000
  const UINT64 := 0x1_0000_0000_0000_0000

  function Wrap32(x: nat): nat { x % UINT32 }
  function Wrap64(x: nat): nat { x % UINT64 }

  lemma WrapSmall(x: nat)
    ensures x < UINT32 ==> Wrap32(x) == x
    ensures x < UINT64 ==> Wrap64(x) == x
  {
  }

  datatype GoObject = GoObject(address: Address, size: nat, referents: seq<Address>)

  datatype GoHeap = GoHeap(objects: seq<GoObject>, threads: seq<Thread>)

  ghost predicate Distinct<T>(s: seq<T>) {
    forall i, j | 0 <= i < j < |s| :: s[i] != s[j]
  }

  /** What the reader guarantees of every heap it returns: unique addresses, no repeated referent. */
  ghost predicate FromReader(h: GoHeap) {
    && (forall i, j | 0 <= i < j < |h.objects| :: h.objects[i].address != h.objects[j].address)
    && forall i | 0 <= i < |h.objects| :: Distinct(h.objects[i].referents) && h.objects[i].size < UINT32
  }

  ghost function ObjectAddresses(h: GoHeap): set<Address> {
    AddressesBefore(h.objects, |h.objects|)
  }

  /** Every address that can become a node. */
  ghost function KnownAddresses(h: GoHeap): set<Address> {
    ObjectAddresses(h) + ReferentAddresses(h.objects) + LocalAddresses(h.threads)
  }

  /** Distinct addresses have distinct indexes below the number of addresses. */
  ghost predicate Interned(index: map<Address, nat>) {
    && (forall a, b | a in index && b in index && index[a] == index[b] :: a == b)
    && forall a | a in index :: index[a] < |index|
  }

  /** References of each object, as indexes. */
  type Rows = seq<seq<nat>>

  function Flat(rows: Rows): seq<nat> {
    if rows == [] then [] else Flat(rows[..|rows| - 1]) + rows[|rows| - 1]
  }

  /** The objects before `k` that reference `t`, in ascending order. */
  ghost function Sources(rows: Rows, t: nat, k: nat): seq<nat>
    requires k <= |rows|
  {
    if k == 0 then [] else Sources(rows, t, k - 1) + if t in rows[k - 1] then [k - 1] else []
  }

  lemma {:induction false} SourcesExact(rows: Rows, t: nat, k: nat)
    requires k <= |rows|
    ensures |Sources(rows, t, k)| <= k
    ensures forall i, j | 0 <= i < j < |Sources(rows, t, k)| :: Sources(rows, t, k)[i] < Sources(rows, t, k)[j]
    ensures forall s: nat :: s in Sources(rows, t, k) <==> s < k && t in rows[s]
  {
    if k > 0 {
      SourcesExact(rows, t, k - 1);
      var before := Sources(rows, t, k - 1);
      assert forall i | 0 <= i < |before| :: before[i] in before;
    }
  }

  lemma {:induction false} SourcesGrow(rows: Rows, t: nat, k: nat, n: nat)
    requires k <= n <= |rows|
    ensures Sources(rows, t, k) <= Sources(rows, t, n)
  {
    if k < n {
      SourcesGrow(rows, t, k, n - 1);
    }
  }

  datatype Graph = Graph(objectCount: nat, addressIndex: map<Address, nat>, refOffsets: seq<nat>,
                         referents: seq<nat>, inboundOffset: seq<nat>, inbound: seq<nat>)
  {
    function NodeCount(): nat {
      |addressIndex|
    }

    ghost predicate HasReferents(source: nat) {
      source + 1 < |refOffsets| && refOffsets[source] <= refOffsets[source + 1] <= |referents|
    }

    ghost predicate HasInbound(node: nat) {
      node + 1 < |inboundOffset| && inboundOffset[node] <= inboundOffset[node + 1] <= |inbound|
    }

    function ObjectReferents(source: nat): seq<nat>
      requires HasReferents(source)
    {
      referents[refOffsets[source]..refOffsets[source + 1]]
    }

    function InboundReferences(node: nat): seq<nat>
      requires HasInbound(node)
    {
      inbound[inboundOffset[node]..inboundOffset[node + 1]]
    }

    function InboundCount(node: nat): nat
      requires HasInbound(node)
    {
      inboundOffset[node + 1] - inboundOffset[node]
    }
  }

  /** The graph holds exactly these rows, and exactly their transpose. */
  ghost predicate Represents(g: Graph, rows: Rows) {
    && g.objectCount == |rows|
    && (forall i | 0 <= i < |rows| :: g.HasReferents(i) && g.ObjectReferents(i) == rows[i])
    && forall n | 0 <= n < g.NodeCount() ::
         g.HasInbound(n) && g.InboundReferences(n) == Sources(rows, n, |rows|)
  }

  /** The rows are the objects' referents, each address replaced by its index. */
  ghost predicate RowsMatch(objects: seq<GoObject>, index: map<Address, nat>, rows: Rows) {
    && |rows| == |objects|
    && forall i | 0 <= i < |rows| :: RowMatches(objects[i].referents, index, rows[i])
  }

  ghost predicate RowMatches(referents: seq<Address>, index: map<Address, nat>, row: seq<nat>) {
    && |row| == |referents|
    && forall k | 0 <= k < |row| :: referents[k] in index && row[k] == index[referents[k]]
  }

  ghost predicate Indexed(referents: seq<Address>, index: map<Address, nat>) {
    forall r | r in referents :: r in index
  }

  ghost function RowOf(referents: seq<Address>, index: map<Address, nat>): (row: seq<nat>)
    requires Indexed(referents, index)
    ensures RowMatches(referents, index, row)
  {
    seq(|referents|, k requires 0 <= k < |referents| => index[referents[k]])
  }

  ghost function RowsOf(objects: seq<GoObject>, index: map<Address, nat>): (rows: Rows)
    requires forall i | 0 <= i < |objects| :: Indexed(objects[i].referents, index)
    ensures RowsMatch(objects, index, rows)
  {
    seq(|objects|, i requires 0 <= i < |objects| => RowOf(objects[i].referents, index))
  }

  datatype Result<+T> = Ok(value: T) | TooManyObjects | TooManyNodes

  lemma InternNext(index: map<Address, nat>, address: Address)
    requires Interned(index) && address !in index
    ensures Interned(index[address := |index|]) && |index[address := |index|]| == |index| + 1
  {
    var index' := index[address := |index|];
    assert index'.Keys == index.Keys + {address};
    assert |index'| == |index'.Keys| && |index| == |index.Keys|;
  }

  /** `index` keeps every entry of `index0` and adds one for each of `added`. */
  ghost predicate Extends(index0: map<Address, nat>, index: map<Address, nat>, added: set<Address>) {
    index.Keys == index0.Keys + added && forall a | a in index0 :: index[a] == index0[a]
  }

  ghost predicate Compact(index: map<Address, nat>) {
    Interned(index) && |index| <= UINT32
  }

  /** There is an index for each of these addresses. */
  ghost predicate Fits(index0: map<Address, nat>, added: set<Address>) {
    |index0.Keys + added| <= UINT32
  }

  lemma ExtendsTrans(index0: map<Address, nat>, index1: map<Address, nat>, index2: map<Address, nat>,
                     a: set<Address>, b: set<Address>)
    requires Extends(index0, index1, a) && Extends(index1, index2, b)
    ensures Extends(index0, index2, a + b)
  {
  }

  /** The next address gets the next index, unless it has one or all 2^32 are taken. */
  method AddAddress(index0: map<Address, nat>, address: Address) returns (index: map<Address, nat>, ok: bool)
    requires Compact(index0)
    ensures ok <==> address in index0 || |index0| < UINT32
    ensures Compact(index) && Extends(index0, index, if ok then {address} else {})
  {
    hide Wrap32, Interned;
    index, ok := index0, true;
    if address in index {
      return;
    }
    if |index| > UINT32 - 1 {
      return index, false;
    }
    InternNext(index, address);
    WrapSmall(|index|);
    index := index[address := Wrap32(|index|)];
  }

  ghost function ElementsBefore(s: seq<Address>, n: nat): set<Address>
    requires n <= |s|
  {
    set i | 0 <= i < n :: s[i]
  }

  ghost function Elements(s: seq<Address>): set<Address> {
    ElementsBefore(s, |s|)
  }

  lemma ElementsGrow(s: seq<Address>, i: nat)
    requires i < |s|
    ensures ElementsBefore(s, i + 1) == ElementsBefore(s, i) + {s[i]}
    ensures ElementsBefore(s, i + 1) <= Elements(s)
  {
  }

  lemma TooMany(index0: map<Address, nat>, index: map<Address, nat>, s: seq<Address>, i: nat)
    requires i < |s| && Extends(index0, index, ElementsBefore(s, i)) && s[i] !in index && |index| >= UINT32
    ensures !Fits(index0, Elements(s))
  {
    hide ElementsBefore;
    ElementsGrow(s, i);
    assert |index.Keys| == |index|;
    SubsetCard(index.Keys + {s[i]}, index0.Keys + Elements(s));
  }

  /** Gives every new address an index; it fails exactly when there are more than 2^32 addresses in all. */
  method AddAddresses(index0: map<Address, nat>, addresses: seq<Address>) returns (index: map<Address, nat>, ok: bool)
    requires Compact(index0)
    ensures Compact(index)
    ensures ok <==> Fits(index0, Elements(addresses))
    ensures ok ==> Extends(index0, index, Elements(addresses))
  {
    NothingAdded(index0, addresses);
    hide Compact, ElementsBefore, Extends, Fits;
    index, ok := index0, true;
    var i := 0;
    while i < |addresses|
      invariant i <= |addresses| && Compact(index) && ok
      invariant Extends(index0, index, ElementsBefore(addresses, i))
    {
      ElementsGrow(addresses, i);
      ghost var before := index;
      index, ok := AddAddress(index, addresses[i]);
      if !ok {
        SameWhenNothingAdded(before, index);
        TooMany(index0, before, addresses, i);
        return;
      }
      ExtendsTrans(index0, before, index, ElementsBefore(addresses, i), {addresses[i]});
      i := i + 1;
    }
    ExtendsCount(index0, index, Elements(addresses));
  }

  lemma NothingAdded(index: map<Address, nat>, s: seq<Address>)
    ensures Extends(index, index, ElementsBefore(s, 0))
  {
  }

  lemma SameWhenNothingAdded(before: map<Address, nat>, after: map<Address, nat>)
    requires Extends(before, after, {})
    ensures after == before
  {
  }

  ghost function ReferentsBefore(objects: seq<GoObject>, n: nat): set<Address>
    requires n <= |objects|
  {
    set i, r | 0 <= i < n && r in objects[i].referents :: r
  }

  ghost function ReferentAddresses(objects: seq<GoObject>): set<Address> {
    ReferentsBefore(objects, |objects|)
  }

  ghost function LocalsBefore(threads: seq<Thread>, n: nat): set<Address>
    requires n <= |threads|
  {
    set i, a | 0 <= i < n && a in threads[i].Locals() :: a
  }

  ghost function LocalAddresses(threads: seq<Thread>): set<Address> {
    LocalsBefore(threads, |threads|)
  }

  lemma ReferentsGrow(objects: seq<GoObject>, i: nat)
    requires i < |objects|
    ensures ReferentsBefore(objects, i + 1) == ReferentsBefore(objects, i) + Elements(objects[i].referents)
    ensures ReferentsBefore(objects, i + 1) <= ReferentAddresses(objects)
  {
    ElementsAre(objects[i].referents);
  }

  lemma LocalsGrow(threads: seq<Thread>, i: nat)
    requires i < |threads|
    ensures LocalsBefore(threads, i + 1) == LocalsBefore(threads, i) + threads[i].Locals()
    ensures LocalsBefore(threads, i + 1) <= LocalAddresses(threads)
  {
  }

  ghost function AddressesBefore(objects: seq<GoObject>, n: nat): set<Address>
    requires n <= |objects|
  {
    set i | 0 <= i < n :: objects[i].address
  }

  lemma AddressesGrow(objects: seq<GoObject>, i: nat)
    requires i < |objects|
    ensures AddressesBefore(objects, i + 1) == AddressesBefore(objects, i) + {objects[i].address}
  {
  }

  ghost predicate Placed(index: map<Address, nat>, objects: seq<GoObject>, n: nat)
    requires n <= |objects|
  {
    forall i | 0 <= i < n :: objects[i].address in index && index[objects[i].address] == i
  }

  lemma PlaceNext(index: map<Address, nat>, objects: seq<GoObject>, i: nat)
    requires i < |objects| && Interned(index) && |index| == i
    requires index.Keys == AddressesBefore(objects, i) && Placed(index, objects, i)
    requires objects[i].address !in index
    ensures var index' := index[objects[i].address := i];
            Interned(index') && |index'| == i + 1 &&
            index'.Keys == AddressesBefore(objects, i + 1) && Placed(index', objects, i + 1)
  {
    hide Interned, AddressesBefore;
    AddressesGrow(objects, i);
    InternNext(index, objects[i].address);
  }

  lemma NothingPlaced(objects: seq<GoObject>)
    ensures Interned(map[]) && AddressesBefore(objects, 0) == {} && Placed(map[], objects, 0)
  {
  }

  lemma AddressIsNew(h: GoHeap, i: nat)
    requires FromReader(h) && i < |h.objects|
    ensures h.objects[i].address !in AddressesBefore(h.objects, i)
  {
  }

  method InternObjects(h: GoHeap) returns (index: map<Address, nat>)
    requires FromReader(h) && |h.objects| < UINT32
    ensures Interned(index) && |index| == |h.objects|
    ensures index.Keys == ObjectAddresses(h) && Placed(index, h.objects, |h.objects|)
  {
    hide Wrap32, Interned, Placed, AddressesBefore, FromReader;
    NothingPlaced(h.objects);
    index := map[];
    for i := 0 to |h.objects|
      invariant Interned(index) && |index| == i
      invariant index.Keys == AddressesBefore(h.objects, i) && Placed(index, h.objects, i)
    {
      AddressIsNew(h, i);
      WrapSmall(i);
      PlaceNext(index, h.objects, i);
      index := index[h.objects[i].address := Wrap32(i)];
    }
  }

  method InternReferents(index0: map<Address, nat>, objects: seq<GoObject>)
    returns (index: map<Address, nat>, ok: bool)
    requires Compact(index0)
    ensures Compact(index)
    ensures ok <==> Fits(index0, ReferentAddresses(objects))
    ensures ok ==> Extends(index0, index, ReferentAddresses(objects))
  {
    SameIndex(index0);
    NoReferents(objects);
    hide Compact, Elements, Extends, Fits, ReferentsBefore;
    index, ok := index0, true;
    var i := 0;
    while i < |objects|
      invariant i <= |objects| && Compact(index) && ok
      invariant Extends(index0, index, ReferentsBefore(objects, i))
    {
      ReferentsGrow(objects, i);
      ghost var before := index;
      index, ok := AddAddresses(index, objects[i].referents);
      if !ok {
        StillTooMany(index0, before, ReferentsBefore(objects, i), Elements(objects[i].referents),
                     ReferentAddresses(objects));
        return;
      }
      ExtendsTrans(index0, before, index, ReferentsBefore(objects, i), Elements(objects[i].referents));
      i := i + 1;
    }
    ExtendsCount(index0, index, ReferentAddresses(objects));
  }

  method InternLocals(index0: map<Address, nat>, threads: seq<Thread>)
    returns (index: map<Address, nat>, ok: bool)
    requires Compact(index0)
    ensures Compact(index)
    ensures ok <==> Fits(index0, LocalAddresses(threads))
    ensures ok ==> Extends(index0, index, LocalAddresses(threads))
  {
    SameIndex(index0);
    NoLocals(threads);
    hide Compact, Elements, Extends, Fits, LocalsBefore, InSomeFrame;
    index, ok := index0, true;
    var i := 0;
    while i < |threads|
      invariant i <= |threads| && Compact(index) && ok
      invariant Extends(index0, index, LocalsBefore(threads, i))
    {
      LocalsGrow(threads, i);
      ghost var before := index;
      var locals := GatherLocals(threads[i]);
      var list := ListOf(locals);
      ElementsOfList(list, locals);
      index, ok := AddAddresses(index, list);
      if !ok {
        StillTooMany(index0, before, LocalsBefore(threads, i), locals, LocalAddresses(threads));
        return;
      }
      ExtendsTrans(index0, before, index, LocalsBefore(threads, i), locals);
      i := i + 1;
    }
    ExtendsCount(index0, index, LocalAddresses(threads));
  }

  lemma SameIndex(index: map<Address, nat>)
    ensures Extends(index, index, {})
  {
  }

  lemma NoReferents(objects: seq<GoObject>)
    ensures ReferentsBefore(objects, 0) == {}
  {
  }

  lemma NoLocals(threads: seq<Thread>)
    ensures LocalsBefore(threads, 0) == {}
  {
  }

  lemma ElementsAre(s: seq<Address>)
    ensures forall a :: a in Elements(s) <==> a in s
  {
  }

  lemma ElementsOfList(list: seq<Address>, s: set<Address>)
    requires forall x :: x in list <==> x in s
    ensures Elements(list) == s
  {
  }

  lemma StillTooMany(index0: map<Address, nat>, index: map<Address, nat>, done: set<Address>, more: set<Address>,
                     all: set<Address>)
    requires Extends(index0, index, done) && !Fits(index, more) && done + more <= all
    ensures !Fits(index0, all)
  {
    SubsetCard(index.Keys + more, index0.Keys + all);
  }

  lemma ExtendsCount(index0: map<Address, nat>, index: map<Address, nat>, added: set<Address>)
    requires Extends(index0, index, added) && Compact(index)
    ensures Fits(index0, added)
  {
    assert |index.Keys| == |index|;
  }

  /**
   * The index of a heap: it exists exactly when there are at most 2^32 - 1 objects and 2^32 addresses,
   * maps the addresses one to one onto the first indexes, and object `i` to `i`.
   */
  method Intern(h: GoHeap) returns (r: Result<map<Address, nat>>)
    requires FromReader(h)
    ensures r.TooManyObjects? <==> |h.objects| >= UINT32
    ensures r.TooManyNodes? <==> |h.objects| < UINT32 < |KnownAddresses(h)|
    ensures r.Ok? ==> Interned(r.value) && r.value.Keys == KnownAddresses(h) && |r.value| <= UINT32
    ensures r.Ok? ==> Placed(r.value, h.objects, |h.objects|)
  {
    hide Interned, ObjectAddresses, ReferentAddresses, LocalAddresses;
    if |h.objects| > UINT32 - 1 {
      return TooManyObjects;
    }
    var objects := InternObjects(h);
    var index, ok := InternReferents(objects, h.objects);
    if !ok {
      SubsetCard(objects.Keys + ReferentAddresses(h.objects), KnownAddresses(h));
      return TooManyNodes;
    }
    var index', ok' := InternLocals(index, h.threads);
    if !ok' {
      return TooManyNodes;
    }
    ExtendsCount(index, index', LocalAddresses(h.threads));
    return Ok(index');
  }

  // ---------------------------------------------------------------- offsets and rows

  /** Starts of the rows in their concatenation, one past the last row included. */
  ghost predicate OffsetsOf(offsets: seq<nat>, rows: Rows) {
    |offsets| == |rows| + 1 && forall i | 0 <= i <= |rows| :: offsets[i] == |Flat(rows[..i])|
  }

  lemma FlatNothing(rows: Rows)
    ensures rows[..0] == [] && Flat(rows[..0]) == []
    ensures rows[..|rows|] == rows
  {
  }

  lemma FlatStep(rows: Rows, i: nat)
    requires i < |rows|
    ensures Flat(rows[..i + 1]) == Flat(rows[..i]) + rows[i]
  {
    assert rows[..i + 1][..i] == rows[..i];
  }

  /** Row `i` is found between its offsets. */
  lemma {:induction false} FlatRow(rows: Rows, n: nat, i: nat)
    requires i < n <= |rows|
    ensures |Flat(rows[..i])| <= |Flat(rows[..i + 1])| <= |Flat(rows[..n])|
    ensures Flat(rows[..n])[|Flat(rows[..i])|..|Flat(rows[..i + 1])|] == rows[i]
  {
    FlatStep(rows, i);
    if i + 1 < n {
      FlatRow(rows, n - 1, i);
      FlatStep(rows, n - 1);
    }
  }

  ghost predicate Compressed(offsets: seq<nat>, flat: seq<nat>, rows: Rows) {
    OffsetsOf(offsets, rows) && flat == Flat(rows)
  }

  lemma CompressedRow(offsets: seq<nat>, flat: seq<nat>, rows: Rows, i: nat)
    requires Compressed(offsets, flat, rows) && i < |rows|
    ensures offsets[i] <= offsets[i + 1] <= |flat| && flat[offsets[i]..offsets[i + 1]] == rows[i]
  {
    FlatRow(rows, |rows|, i);
    assert rows[..|rows|] == rows;
  }

  /** A referent is counted at most once per object, so a count never exceeds the number of objects. */
  ghost predicate CountsSources(counts: seq<nat>, rows: Rows, n: nat)
    requires n <= |rows|
  {
    forall t | 0 <= t < |counts| :: counts[t] == |Sources(rows, t, n)|
  }

  ghost predicate RowsIn(rows: Rows, nodes: nat) {
    forall i | 0 <= i < |rows| :: Distinct(rows[i]) && forall t | t in rows[i] :: t < nodes
  }

  /** The sources counted for `t` once the first `k` entries of row `i` are seen. */
  ghost function SourcesUpTo(rows: Rows, t: nat, i: nat, k: nat): seq<nat>
    requires i < |rows| && k <= |rows[i]|
  {
    Sources(rows, t, i) + if t in rows[i][..k] then [i] else []
  }

  lemma SourcesUpToNext(rows: Rows, t: nat, i: nat, k: nat)
    requires i < |rows| && k < |rows[i]| && Distinct(rows[i])
    ensures SourcesUpTo(rows, t, i, k + 1) ==
            if t == rows[i][k] then SourcesUpTo(rows, t, i, k) + [i] else SourcesUpTo(rows, t, i, k)
    ensures t == rows[i][k] ==> SourcesUpTo(rows, t, i, k) == Sources(rows, t, i)
  {
    assert rows[i][..k + 1] == rows[i][..k] + [rows[i][k]];
    assert forall j | 0 <= j < k :: rows[i][j] != rows[i][k];
  }

  lemma SourcesUpToEnds(rows: Rows, t: nat, i: nat)
    requires i < |rows|
    ensures SourcesUpTo(rows, t, i, 0) == Sources(rows, t, i)
    ensures SourcesUpTo(rows, t, i, |rows[i]|) == Sources(rows, t, i + 1)
  {
    assert rows[i][..|rows[i]|] == rows[i];
  }

  lemma SourcesUpToBound(rows: Rows, t: nat, i: nat, k: nat)
    requires i < |rows| && k <= |rows[i]|
    ensures SourcesUpTo(rows, t, i, k) <= Sources(rows, t, |rows|)
    ensures |SourcesUpTo(rows, t, i, k)| <= |rows|
  {
    if t in rows[i][..k] {
      assert SourcesUpTo(rows, t, i, k) == Sources(rows, t, i + 1);
    }
    SourcesGrow(rows, t, i, |rows|);
    SourcesGrow(rows, t, i + 1, |rows|);
    SourcesExact(rows, t, |rows|);
  }

  // ---------------------------------------------------------------- bounds of the machine integers

  lemma {:induction false} DistinctCard<T>(s: seq<T>)
    requires Distinct(s)
    ensures |(set x | x in s)| == |s|
  {
    if s != [] {
      var rest, last := s[..|s| - 1], s[|s| - 1];
      DistinctCard(rest);
      assert s == rest + [last];
      assert last !in rest;
      assert (set x | x in s) == (set x | x in rest) + {last};
    } else {
      assert (set x | x in s) == {};
    }
  }

  /** Distinct indexes below `n` are at most `n` many. */
  lemma DistinctBelow(s: seq<nat>, n: nat)
    requires Distinct(s) && forall t | t in s :: t < n
    ensures |s| <= n
  {
    DistinctCard(s);
    var elements := set x | x in s;
    SubsetCard(elements, Below(n));
  }

  lemma {:induction false} FlatBound(rows: Rows, nodes: nat)
    requires RowsIn(rows, nodes)
    ensures |Flat(rows)| <= |rows| * nodes
  {
    if rows != [] {
      var n := |rows| - 1;
      FlatBound(rows[..n], nodes);
      DistinctBelow(rows[n], nodes);
      assert |rows| * nodes == n * nodes + nodes;
    }
  }

  lemma ProductFits(a: nat, b: nat)
    requires a <= UINT32 && b < UINT32
    ensures a * b < UINT64
  {
    MulMonotone(a, UINT32, b);
  }

  lemma MulMonotone(a: nat, c: nat, b: nat)
    requires a <= c
    ensures a * b <= c * b
  {
    assert (c - a) * b >= 0;
  }

  // ---------------------------------------------------------------- the arrays

  /** Room for every referent of every object, in order: `refOffsets[i]` is where row `i` starts. */
  method ReferentOffsets(objects: seq<GoObject>, ghost index: map<Address, nat>, ghost rows: Rows)
    returns (offsets: array<nat>)
    requires RowsMatch(objects, index, rows) && |Flat(rows)| < UINT64
    ensures fresh(offsets) && offsets.Length == |objects| + 1 && OffsetsOf(offsets[..], rows)
  {
    hide Wrap64;
    offsets := new nat[|objects| + 1](_ => 0);
    assert rows[..0] == [];
    for i := 0 to |objects|
      invariant forall j | 0 <= j <= i :: offsets[j] == |Flat(rows[..j])|
    {
      FlatStep(rows, i);
      FlatRow(rows, |rows|, i);
      assert rows[..|rows|] == rows;
      assert RowMatches(objects[i].referents, index, rows[i]);
      WrapSmall(offsets[i] + |objects[i].referents|);
      offsets[i + 1] := Wrap64(offsets[i] + |objects[i].referents|);
    }
  }

  ghost predicate Counting(counts: seq<nat>, rows: Rows, i: nat, k: nat)
    requires i < |rows| && k <= |rows[i]|
  {
    forall t | 0 <= t < |counts| :: counts[t] == |SourcesUpTo(rows, t, i, k)|
  }

  lemma CountStep(counts: seq<nat>, rows: Rows, i: nat, k: nat)
    requires i < |rows| < UINT32 && k < |rows[i]| && rows[i][k] < |counts| && Distinct(rows[i])
    requires Counting(counts, rows, i, k)
    ensures counts[rows[i][k]] + 1 < UINT32
    ensures Counting(counts[rows[i][k] := counts[rows[i][k]] + 1], rows, i, k + 1)
  {
    hide Sources, SourcesUpTo, Distinct;
    forall t | 0 <= t < |counts|
      ensures |SourcesUpTo(rows, t, i, k + 1)| == |SourcesUpTo(rows, t, i, k)| + if t == rows[i][k] then 1 else 0
    {
      SourcesUpToNext(rows, t, i, k);
    }
    SourcesUpToBound(rows, rows[i][k], i, k + 1);
  }

  lemma CountRowDone(counts: seq<nat>, rows: Rows, i: nat)
    requires i < |rows|
    ensures CountsSources(counts, rows, i) <==> Counting(counts, rows, i, 0)
    ensures CountsSources(counts, rows, i + 1) <==> Counting(counts, rows, i, |rows[i]|)
  {
    hide Sources, SourcesUpTo;
    forall t | 0 <= t < |counts|
      ensures SourcesUpTo(rows, t, i, 0) == Sources(rows, t, i)
      ensures SourcesUpTo(rows, t, i, |rows[i]|) == Sources(rows, t, i + 1)
    {
      SourcesUpToEnds(rows, t, i);
    }
  }

  /** Writes every referent's index in place, and counts the sources of each node. */
  method FillReferents(objects: seq<GoObject>, index: map<Address, nat>, nodes: nat, refOffsets: array<nat>,
                       ghost rows: Rows)
    returns (referents: array<nat>, inboundCount: array<nat>)
    requires RowsMatch(objects, index, rows) && RowsIn(rows, nodes) && |rows| < UINT32
    requires OffsetsOf(refOffsets[..], rows)
    ensures fresh(referents) && fresh(inboundCount)
    ensures referents[..] == Flat(rows)
    ensures inboundCount.Length == nodes && CountsSources(inboundCount[..], rows, |rows|)
  {
    hide Sources, SourcesUpTo, CountsSources, Counting, Flat, Wrap32;
    FlatNothing(rows);
    referents := new nat[refOffsets[refOffsets.Length - 1]](_ => 0);
    inboundCount := new nat[nodes](_ => 0);
    NothingCounted(inboundCount[..], rows);
    for i := 0 to |objects|
      invariant refOffsets[i] <= referents.Length == |Flat(rows)|
      invariant referents[..refOffsets[i]] == Flat(rows[..i])
      invariant CountsSources(inboundCount[..], rows, i)
    {
      var start := refOffsets[i];
      FlatStep(rows, i);
      FlatRow(rows, |rows|, i);
      CountRowDone(inboundCount[..], rows, i);
      assert RowMatches(objects[i].referents, index, rows[i]);
      for k := 0 to |objects[i].referents|
        invariant referents[..start + k] == Flat(rows[..i]) + rows[i][..k]
        invariant Counting(inboundCount[..], rows, i, k)
      {
        var referent := index[objects[i].referents[k]];
        assert rows[i][k] in rows[i];
        CountStep(inboundCount[..], rows, i, k);
        WrapSmall(inboundCount[referent] + 1);
        referents[start + k] := referent;
        ghost var counts := inboundCount[..];
        inboundCount[referent] := Wrap32(inboundCount[referent] + 1);
        assert inboundCount[..] == counts[referent := counts[referent] + 1];
        assert referents[..start + k + 1] == referents[..start + k] + [referent];
        assert rows[i][..k + 1] == rows[i][..k] + [rows[i][k]];
      }
      assert rows[i][..|rows[i]|] == rows[i];
      CountRowDone(inboundCount[..], rows, i);
    }
  }

  lemma NothingCounted(counts: seq<nat>, rows: Rows)
    requires forall t | 0 <= t < |counts| :: counts[t] == 0
    ensures CountsSources(counts, rows, 0)
  {
  }

  /** `offsets` leaves node `t` exactly as much room as it has sources. */
  ghost predicate RoomFor(offsets: seq<nat>, rows: Rows) {
    && |offsets| > 0
    && forall t | 0 <= t < |offsets| - 1 :: offsets[t + 1] == offsets[t] + |Sources(rows, t, |rows|)|
  }

  lemma NextFits(t: nat, count: nat)
    requires t < UINT32 && count < UINT32
    ensures (t + 1) * count == t * count + count < UINT64
  {
    ProductFits(t + 1, count);
  }

  method InboundOffsets(inboundCount: array<nat>, ghost rows: Rows) returns (offsets: array<nat>)
    requires CountsSources(inboundCount[..], rows, |rows|) && inboundCount.Length <= UINT32 && |rows| < UINT32
    ensures fresh(offsets) && offsets.Length == inboundCount.Length + 1 && RoomFor(offsets[..], rows)
    ensures offsets[0] == 0
  {
    hide Sources, Wrap64;
    offsets := new nat[inboundCount.Length + 1](_ => 0);
    for t := 0 to inboundCount.Length
      invariant offsets[0] == 0 && offsets[t] <= t * |rows|
      invariant forall u | 0 <= u < t :: offsets[u + 1] == offsets[u] + |Sources(rows, u, |rows|)|
    {
      assert inboundCount[t] == inboundCount[..][t];
      SourcesExact(rows, t, |rows|);
      NextFits(t, |rows|);
      WrapSmall(offsets[t] + inboundCount[t]);
      offsets[t + 1] := Wrap64(offsets[t] + inboundCount[t]);
    }
  }

  // ---------------------------------------------------------------- the transpose

  /** Node `t` has received its sources so far, and its cursor stands behind the last of them. */
  ghost predicate Filled(inbound: seq<nat>, cursor: seq<nat>, offsets: seq<nat>, t: nat, sources: seq<nat>) {
    && t < |cursor| && t + 1 < |offsets|
    && cursor[t] == offsets[t] + |sources| <= offsets[t + 1] <= |inbound|
    && inbound[offsets[t]..cursor[t]] == sources
  }

  /** The room of node `t` holds these sources. */
  ghost predicate Holds(inbound: seq<nat>, offsets: seq<nat>, t: nat, sources: seq<nat>) {
    && t + 1 < |offsets| && offsets[t] <= offsets[t + 1] <= |inbound|
    && inbound[offsets[t]..offsets[t + 1]] == sources
  }

  ghost predicate Filling(inbound: seq<nat>, cursor: seq<nat>, offsets: seq<nat>, rows: Rows, i: nat, k: nat)
    requires i < |rows| && k <= |rows[i]|
  {
    && |offsets| == |cursor| + 1
    && forall t | 0 <= t < |cursor| :: Filled(inbound, cursor, offsets, t, SourcesUpTo(rows, t, i, k))
  }

  ghost predicate FilledRows(inbound: seq<nat>, cursor: seq<nat>, offsets: seq<nat>, rows: Rows, n: nat)
    requires n <= |rows|
  {
    && |offsets| == |cursor| + 1
    && forall t | 0 <= t < |cursor| :: Filled(inbound, cursor, offsets, t, Sources(rows, t, n))
  }

  lemma FilledRowDone(inbound: seq<nat>, cursor: seq<nat>, offsets: seq<nat>, rows: Rows, i: nat)
    requires i < |rows|
    ensures FilledRows(inbound, cursor, offsets, rows, i) <==> Filling(inbound, cursor, offsets, rows, i, 0)
    ensures FilledRows(inbound, cursor, offsets, rows, i + 1) <==> Filling(inbound, cursor, offsets, rows, i, |rows[i]|)
  {
    hide Sources, SourcesUpTo, Filled;
    var next, all := i + 1, |rows[i]|;
    forall t | 0 <= t < |cursor|
      ensures Filled(inbound, cursor, offsets, t, SourcesUpTo(rows, t, i, 0)) ==
              Filled(inbound, cursor, offsets, t, Sources(rows, t, i))
      ensures Filled(inbound, cursor, offsets, t, SourcesUpTo(rows, t, i, all)) ==
              Filled(inbound, cursor, offsets, t, Sources(rows, t, next))
    {
      SourcesUpToEnds(rows, t, i);
    }
  }

  /** Offsets never run backwards. */
  lemma {:induction false} OffsetsGrow(offsets: seq<nat>, rows: Rows, t: nat, u: nat)
    requires RoomFor(offsets, rows) && t <= u < |offsets|
    ensures offsets[t] <= offsets[u]
  {
    if t < u {
      OffsetsGrow(offsets, rows, t, u - 1);
    }
  }

  /** A write at one node's cursor stays inside that node's room and leaves every other node alone. */
  lemma FillOther(inbound: seq<nat>, cursor: seq<nat>, offsets: seq<nat>, rows: Rows, target: nat, value: nat,
                  t: nat, sources: seq<nat>)
    requires RoomFor(offsets, rows) && |offsets| == |cursor| + 1 && target < |cursor| && t != target
    requires offsets[target] <= cursor[target] < offsets[target + 1] <= |inbound|
    requires Filled(inbound, cursor, offsets, t, sources)
    ensures Filled(inbound[cursor[target] := value], cursor[target := cursor[target] + 1], offsets, t, sources)
  {
    hide Sources;
    if t < target {
      OffsetsGrow(offsets, rows, t + 1, target);
    } else {
      OffsetsGrow(offsets, rows, target + 1, t);
    }
  }

  lemma FillTarget(inbound: seq<nat>, cursor: seq<nat>, offsets: seq<nat>, t: nat, value: nat, sources: seq<nat>)
    requires Filled(inbound, cursor, offsets, t, sources) && cursor[t] < offsets[t + 1]
    ensures Filled(inbound[cursor[t] := value], cursor[t := cursor[t] + 1], offsets, t, sources + [value])
  {
    var at := cursor[t];
    assert inbound[at := value][offsets[t]..at + 1] == inbound[offsets[t]..at] + [value];
  }

  lemma FillStep(inbound: seq<nat>, cursor: seq<nat>, offsets: seq<nat>, rows: Rows, i: nat, k: nat)
    requires i < |rows| && k < |rows[i]| && rows[i][k] < |cursor| && Distinct(rows[i])
    requires Filling(inbound, cursor, offsets, rows, i, k) && RoomFor(offsets, rows)
    ensures var target := rows[i][k];
            && offsets[target] <= cursor[target] < offsets[target + 1] <= |inbound|
            && Filling(inbound[cursor[target] := i], cursor[target := cursor[target] + 1], offsets, rows, i, k + 1)
  {
    hide Sources, SourcesUpTo, Distinct;
    var target := rows[i][k];
    assert Filled(inbound, cursor, offsets, target, SourcesUpTo(rows, target, i, k));
    SourcesUpToNext(rows, target, i, k);
    SourcesUpToBound(rows, target, i, k + 1);
    var inbound', cursor', next := inbound[cursor[target] := i], cursor[target := cursor[target] + 1], k + 1;
    forall t | 0 <= t < |cursor'| ensures Filled(inbound', cursor', offsets, t, SourcesUpTo(rows, t, i, next)) {
      SourcesUpToNext(rows, t, i, k);
      if t == target {
        FillTarget(inbound, cursor, offsets, t, i, SourcesUpTo(rows, t, i, k));
      } else {
        FillOther(inbound, cursor, offsets, rows, target, i, t, SourcesUpTo(rows, t, i, k));
      }
    }
  }

  method FillInbound(objectCount: nat, nodes: nat, refOffsets: array<nat>, referents: array<nat>,
                     inboundOffsets: array<nat>, ghost rows: Rows)
    returns (inbound: array<nat>)
    requires objectCount == |rows| < UINT32 && RowsIn(rows, nodes) && refOffsets.Length == objectCount + 1
    requires OffsetsOf(refOffsets[..], rows) && referents[..] == Flat(rows)
    requires inboundOffsets.Length == nodes + 1 && RoomFor(inboundOffsets[..], rows) && inboundOffsets[0] == 0
    ensures fresh(inbound)
    ensures forall t | 0 <= t < nodes :: Holds(inbound[..], inboundOffsets[..], t, Sources(rows, t, |rows|))
  {
    hide Sources, SourcesUpTo, Flat, Filling, FilledRows, OffsetsOf;
    inbound := new nat[inboundOffsets[nodes]](_ => 0);
    var cursor := new nat[nodes];
    for t := 0 to nodes
      invariant forall u | 0 <= u < t :: cursor[u] == inboundOffsets[u]
    {
      cursor[t] := inboundOffsets[t];
    }
    NothingFilled(inbound[..], cursor[..], inboundOffsets[..], rows);
    for source := 0 to objectCount
      invariant FilledRows(inbound[..], cursor[..], inboundOffsets[..], rows, source)
    {
      CompressedRow(refOffsets[..], referents[..], rows, source);
      FilledRowDone(inbound[..], cursor[..], inboundOffsets[..], rows, source);
      var row := referents[refOffsets[source]..refOffsets[source + 1]];
      for k := 0 to |row|
        invariant Filling(inbound[..], cursor[..], inboundOffsets[..], rows, source, k)
      {
        var target := row[k];
        assert rows[source][k] in rows[source];
        FillStep(inbound[..], cursor[..], inboundOffsets[..], rows, source, k);
        ghost var inbound0, cursor0 := inbound[..], cursor[..];
        WrapSmall(source);
        inbound[cursor[target]] := Wrap32(source);
        cursor[target] := cursor[target] + 1;
        assert inbound[..] == inbound0[cursor0[target] := source];
        assert cursor[..] == cursor0[target := cursor0[target] + 1];
      }
      FilledRowDone(inbound[..], cursor[..], inboundOffsets[..], rows, source);
    }
    AllFilled(inbound[..], cursor[..], inboundOffsets[..], rows);
  }

  lemma NothingFilled(inbound: seq<nat>, cursor: seq<nat>, offsets: seq<nat>, rows: Rows)
    requires RoomFor(offsets, rows) && |offsets| == |cursor| + 1 && |inbound| == offsets[|cursor|]
    requires forall u | 0 <= u < |cursor| :: cursor[u] == offsets[u]
    ensures FilledRows(inbound, cursor, offsets, rows, 0)
  {
    forall t | 0 <= t < |cursor| ensures Filled(inbound, cursor, offsets, t, Sources(rows, t, 0)) {
      OffsetsGrow(offsets, rows, t + 1, |cursor|);
    }
  }

  lemma AllFilled(inbound: seq<nat>, cursor: seq<nat>, offsets: seq<nat>, rows: Rows)
    requires RoomFor(offsets, rows) && FilledRows(inbound, cursor, offsets, rows, |rows|)
    ensures forall t | 0 <= t < |cursor| :: Holds(inbound, offsets, t, Sources(rows, t, |rows|))
  {
    hide Sources;
    forall t | 0 <= t < |cursor| ensures Holds(inbound, offsets, t, Sources(rows, t, |rows|)) {
      assert Filled(inbound, cursor, offsets, t, Sources(rows, t, |rows|));
    }
  }

  lemma RowsDistinct(h: GoHeap, index: map<Address, nat>, rows: Rows)
    requires FromReader(h) && Interned(index) && RowsMatch(h.objects, index, rows)
    ensures RowsIn(rows, |index|)
  {
    forall i | 0 <= i < |rows| ensures Distinct(rows[i]) && forall t | t in rows[i] :: t < |index| {
      assert Distinct(h.objects[i].referents) && RowMatches(h.objects[i].referents, index, rows[i]);
    }
  }

  lemma ReferentsIndexed(h: GoHeap, index: map<Address, nat>, i: nat)
    requires i < |h.objects| && KnownAddresses(h) <= index.Keys
    ensures Indexed(h.objects[i].referents, index)
  {
    forall r | r in h.objects[i].referents ensures r in index {
      assert r in ReferentAddresses(h.objects);
    }
  }

  /** What a graph must be to stand for a heap. */
  ghost predicate GraphFor(h: GoHeap, g: Graph) {
    && Interned(g.addressIndex) && g.addressIndex.Keys == KnownAddresses(h) && |g.addressIndex| <= UINT32
    && Placed(g.addressIndex, h.objects, |h.objects|)
    && (forall i | 0 <= i < |h.objects| :: Indexed(h.objects[i].referents, g.addressIndex))
    && Represents(g, RowsOf(h.objects, g.addressIndex))
  }

  lemma RepresentsRows(g: Graph, rows: Rows)
    requires g.objectCount == |rows| && Compressed(g.refOffsets, g.referents, rows)
    requires |g.inboundOffset| == |g.addressIndex| + 1
    requires forall t | 0 <= t < |g.addressIndex| :: Holds(g.inbound, g.inboundOffset, t, Sources(rows, t, |rows|))
    ensures Represents(g, rows)
  {
    hide Sources, Compressed;
    forall i | 0 <= i < |rows| ensures g.HasReferents(i) && g.ObjectReferents(i) == rows[i] {
      CompressedRow(g.refOffsets, g.referents, rows, i);
      OffsetsLength(g.refOffsets, g.referents, rows);
    }
    forall n | 0 <= n < |g.addressIndex|
      ensures g.HasInbound(n) && g.InboundReferences(n) == Sources(rows, n, |rows|)
    {
      assert Holds(g.inbound, g.inboundOffset, n, Sources(rows, n, |rows|));
    }
  }

  lemma OffsetsLength(offsets: seq<nat>, flat: seq<nat>, rows: Rows)
    requires Compressed(offsets, flat, rows)
    ensures |offsets| == |rows| + 1
  {
  }

  /**
   * Builds the graph of a heap: its rows are the objects' referents, and the inbound references of every
   * node are exactly the objects that reference it, each once and in ascending order. No 32-bit count and
   * no 64-bit offset wraps. It fails exactly when the indexes run out.
   */
  method BuildGraph(h: GoHeap) returns (r: Result<Graph>)
    requires FromReader(h)
    ensures r.TooManyObjects? <==> |h.objects| >= UINT32
    ensures r.TooManyNodes? <==> |h.objects| < UINT32 < |KnownAddresses(h)|
    ensures r.Ok? ==> GraphFor(h, r.value)
  {
    hide FromReader, KnownAddresses, Interned, Placed, RowsMatch, RowsIn, Represents, OffsetsOf, RoomFor,
         CountsSources, Sources, Flat, RowsOf;
    var interned := Intern(h);
    match interned {
      case TooManyObjects => return TooManyObjects;
      case TooManyNodes => return TooManyNodes;
      case Ok(index) =>
        forall i | 0 <= i < |h.objects| ensures Indexed(h.objects[i].referents, index) {
          ReferentsIndexed(h, index, i);
        }
        ghost var rows := RowsOf(h.objects, index);
        var nodes := |index|;
        RowsFacts(h, index, rows);
        var refOffsets := ReferentOffsets(h.objects, index, rows);
        var referents, inboundCount := FillReferents(h.objects, index, nodes, refOffsets, rows);
        var inboundOffsets := InboundOffsets(inboundCount, rows);
        var inbound := FillInbound(|h.objects|, nodes, refOffsets, referents, inboundOffsets, rows);
        var g := Graph(Wrap32(|h.objects|), index, refOffsets[..], referents[..], inboundOffsets[..], inbound[..]);
        WrapSmall(|h.objects|);
        RepresentsRows(g, rows);
        return Ok(g);
    }
  }

  lemma RowsFacts(h: GoHeap, index: map<Address, nat>, rows: Rows)
    requires FromReader(h) && Interned(index) && RowsMatch(h.objects, index, rows)
    requires |h.objects| < UINT32 && |index| <= UINT32
    ensures |rows| == |h.objects| && RowsIn(rows, |index|) && |Flat(rows)| < UINT64
  {
    hide Interned, FromReader;
    RowsDistinct(h, index, rows);
    FlatBound(rows, |index|);
    ProductFits(|index|, |rows|);
    assert |rows| * |index| == |index| * |rows|;
  }
}
