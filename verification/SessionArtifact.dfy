/** From process to analyzer: what a reader makes of the artifact of a finished session, in terms of the process. */
module SessionArtifact {
  import opened GraphTheory
  import opened HeapModel
  import opened Bytes
  import opened Handshake
  import opened ObjectStream
  import opened CaptureModel
  import opened ReadBack
  import opened ArtifactEncoding
  import opened AgentSession
  import opened CollectorModel
  import opened Session
  import opened SessionRuns
  import Artifact
  import ArtifactRoundTrip
  import Framing
  import Protocol
  import SessionBytes
  import Collector

  // ---------------------------------------------------------------- kinds of content

  /**
   * Content kinds are the exact types of the well-known containers, as CPython's exact type checks make them. The
   * Agent sends the addresses of list, tuple, dict and set first, in this order.
   */
  ghost predicate TypesTellKinds(p: Process) {
    && |p.wellKnown| == 13
    && forall a: Address | a < U64 :: p.objectAt(a).contentKind == KindAtPlace(p.wellKnown, p.objectAt(a).typeAddress)
  }

  function KindAtPlace(wellKnown: seq<Address>, typeAddress: Address): ContentKind
    requires |wellKnown| == 13
  {
    if typeAddress == wellKnown[2] then ContentKind.DICT
    else if typeAddress == wellKnown[1] then ContentKind.TUPLE
    else if typeAddress == wellKnown[3] then ContentKind.SET
    else if typeAddress == wellKnown[0] then ContentKind.LIST
    else NONE
  }

  /** Where a reader looks the containers up. */
  lemma ContainersByPosition(addresses: seq<Address>)
    requires |addresses| == |ArtifactRoundTrip.WELL_KNOWN_TYPE_NAMES|
    ensures var known := ArtifactRoundTrip.KnownRead(Collector.KnownOf(addresses));
            && Artifact.HasContainers(known)
            && known[Artifact.LIST] == addresses[0] && known[Artifact.TUPLE] == addresses[1]
            && known[Artifact.DICT] == addresses[2] && known[Artifact.SET] == addresses[3]
  {
    hide Collector.KnownOf, ArtifactRoundTrip.KnownRead, Artifact.Ascii;
    Collector.KnownByPosition(addresses);
    assert ArtifactRoundTrip.WELL_KNOWN_TYPE_NAMES[0] == Artifact.LIST;
    assert ArtifactRoundTrip.WELL_KNOWN_TYPE_NAMES[1] == Artifact.TUPLE;
    assert ArtifactRoundTrip.WELL_KNOWN_TYPE_NAMES[2] == Artifact.DICT;
    assert ArtifactRoundTrip.WELL_KNOWN_TYPE_NAMES[3] == Artifact.SET;
  }

  lemma ExactKinds(st: Setting, c: CollectorState)
    requires TypesTellKinds(st.process) && Exact(st, c.written) && c.wellKnown == st.process.wellKnown
    requires forall i | 0 <= i < |c.written| :: c.written[i].address < U64
    ensures Collector.KindsAgree(c)
  {
    hide Collector.KnownOf, ArtifactRoundTrip.KnownRead, Artifact.HasContainers, CutName, Described, Artifact.Ascii;
    ContainersByPosition(c.wellKnown);
    forall i | 0 <= i < |c.written|
      ensures KindAgrees(c.written[i], ArtifactRoundTrip.KnownRead(Collector.KnownOf(c.wellKnown)))
    {
      assert c.written[i] == Captured(st.process.objectAt(c.written[i].address), st.cfg.strReprLen);
    }
  }

  // ---------------------------------------------------------------- what belongs to the artifact

  /** An object in the process refers to this address, be it as a referent, in its content, or as its type. */
  ghost predicate Refers(o: AgentObject, a: Address) {
    a != 0 && (a in o.referents || Mentions(o.contentKind, o.sequence, o.entries, a) || a == o.typeAddress)
  }

  ghost predicate HoldsStart(p: Process, s: set<Address>) {
    && (forall i | 0 <= i < |p.roots| && p.roots[i] != 0 :: p.roots[i] in s)
    && forall i | 0 <= i < |p.wellKnown| && p.wellKnown[i] != 0 :: p.wellKnown[i] in s
  }

  ghost predicate ClosedInProcess(p: Process, s: set<Address>) {
    forall a, b {:trigger Refers(p.objectAt(a), b)} | a in s && Refers(p.objectAt(a), b) :: b in s
  }

  /** The roots, the well-known types, all they lead to, and nothing else. */
  ghost predicate ReachableInProcess(p: Process, s: set<Address>) {
    && HoldsStart(p, s) && ClosedInProcess(p, s)
    && forall t: set<Address> | HoldsStart(p, t) && ClosedInProcess(p, t) :: s <= t
  }

  lemma {:induction false} InFlat(entries: seq<(Address, Address)>, a: Address)
    ensures a in Flat(entries) <==> Mentions(ContentKind.DICT, [], entries, a)
    decreases |entries|
  {
    if entries != [] {
      var rest := entries[1..];
      InFlat(rest, a);
      if i :| 0 <= i < |rest| && (rest[i].0 == a || rest[i].1 == a) {
        assert entries[i + 1] == rest[i];
      }
      if i :| 0 < i < |entries| && (entries[i].0 == a || entries[i].1 == a) {
        assert rest[i - 1] == entries[i];
      }
    }
  }

  /** The targets of an object as captured are what it refers to in the process. */
  lemma TargetsAreReferences(o: AgentObject, strReprLen: int, a: Address)
    ensures a in Targets(Captured(o, strReprLen)) <==> Refers(o, a)
  {
    hide CutName, Described;
    var obj := Captured(o, strReprLen);
    InFlat(o.entries, a);
    assert a in ContentEdges(obj) <==> Mentions(o.contentKind, o.sequence, o.entries, a);
  }

  lemma {:induction false} InGraph(written: seq<CapturedObject>, a: Address)
    requires a in GraphOf(written)
    ensures exists i :: 0 <= i < |written| && written[i].address == a && GraphOf(written)[a] == Targets(written[i])
    decreases |written|
  {
    hide Targets;
    if written[|written| - 1].address != a {
      var before := written[..|written| - 1];
      InGraph(before, a);
      var i :| 0 <= i < |before| && before[i].address == a && GraphOf(before)[a] == Targets(before[i]);
      assert written[i].address == a;
    }
  }

  ghost predicate WritesProcess(st: Setting, c: CollectorState) {
    WrittenIsReachable(c) && Exact(st, c.written) && c.roots == st.process.roots && c.wellKnown == st.process.wellKnown
  }

  lemma StartIsHeld(p: Process, s: set<Address>)
    ensures HoldsStart(p, s) <==> NonZero(p.roots) + NonZero(p.wellKnown) <= s
  {
    if HoldsStart(p, s) {
      forall a | a in NonZero(p.roots) + NonZero(p.wellKnown) ensures a in s {
      }
    } else {
      assert forall i | 0 <= i < |p.roots| && p.roots[i] != 0 :: p.roots[i] in NonZero(p.roots);
      assert forall i | 0 <= i < |p.wellKnown| && p.wellKnown[i] != 0 :: p.wellKnown[i] in NonZero(p.wellKnown);
    }
  }

  lemma WrittenAt(c: CollectorState, a: Address) returns (i: nat)
    requires a in Artifact.SetOf(Addresses(c.written))
    ensures i < |c.written| && c.written[i].address == a
  {
    i :| 0 <= i < |Addresses(c.written)| && Addresses(c.written)[i] == a;
  }

  /** What a finished Collector has written is what is reachable in the process. */
  lemma WrittenIsReachableInProcess(st: Setting, c: CollectorState)
    requires WritesProcess(st, c)
    ensures ReachableInProcess(st.process, Artifact.SetOf(Addresses(c.written)))
  {
    hide Targets, Captured, ReachFrom, GraphOf, NonZero, Refers, Addresses, Artifact.SetOf, HoldsStart, ClosedInProcess;
    var p, all, e := st.process, Artifact.SetOf(Addresses(c.written)), GraphOf(c.written);
    var start := NonZero(p.roots) + NonZero(p.wellKnown);
    ReachClosed(e, start);
    StartIsHeld(p, all);
    WrittenIsClosed(st, c);
    forall t: set<Address> | HoldsStart(p, t) && ClosedInProcess(p, t) ensures all <= t {
      StartIsHeld(p, t);
      ClosedInGraph(st, c.written, t);
      ReachLeast(e, start, t);
    }
  }

  lemma WrittenIsClosed(st: Setting, c: CollectorState)
    requires WritesProcess(st, c)
    ensures ClosedInProcess(st.process, Artifact.SetOf(Addresses(c.written)))
  {
    hide Targets, Captured, ReachFrom, GraphOf, NonZero, Refers, Addresses, Artifact.SetOf;
    var p, all := st.process, Artifact.SetOf(Addresses(c.written));
    forall a, b | a in all && Refers(p.objectAt(a), b) ensures b in all {
      var i := WrittenAt(c, a);
      assert c.written[i] == Captured(p.objectAt(c.written[i].address), st.cfg.strReprLen);
      TargetsAreReferences(p.objectAt(a), st.cfg.strReprLen, b);
      assert Targets(c.written[i]) <= all;
    }
  }

  lemma ClosedInGraph(st: Setting, written: seq<CapturedObject>, t: set<Address>)
    requires Exact(st, written) && ClosedInProcess(st.process, t)
    ensures ClosedUnderRefs(GraphOf(written), t)
  {
    hide Targets, Captured, GraphOf, Refers;
    var p, e := st.process, GraphOf(written);
    forall a, b | a in t && a in e && b in e[a] ensures b in t {
      InGraph(written, a);
      var i :| 0 <= i < |written| && written[i].address == a && e[a] == Targets(written[i]);
      assert written[i] == Captured(p.objectAt(written[i].address), st.cfg.strReprLen);
      TargetsAreReferences(p.objectAt(a), st.cfg.strReprLen, b);
      assert Refers(p.objectAt(a), b);
    }
  }

  // ---------------------------------------------------------------- the heap that is read

  /** Address, type, size and content are those in the process; the referents are all that it refers to but its type. */
  ghost predicate ObjectAsInProcess(o: AgentObject, r: HeapObject) {
    && r.address == o.address && r.typeAddress == o.typeAddress && r.size == o.shallowSize
    && ContentAsWritten(o.contentKind, o.sequence, o.entries, r.content)
    && forall a :: a in r.referents <==> a in o.referents || Mentions(o.contentKind, o.sequence, o.entries, a)
  }

  lemma CapturedReadsAs(o: AgentObject, strReprLen: int, r: HeapObject)
    requires FitsWire(o) && ObjectAsWritten(Captured(o, strReprLen), r)
    ensures ObjectAsInProcess(o, r)
  {
    hide CutName, Described, EntriesAsWritten;
  }

  /** The name at each place of the thirteen has the address at this place. */
  ghost predicate NamesByPlace(wellKnown: seq<Address>, known: map<Text, Address>) {
    && |wellKnown| == 13 == |ArtifactRoundTrip.WELL_KNOWN_TYPE_NAMES|
    && (forall i | 0 <= i < 13 :: ArtifactRoundTrip.WELL_KNOWN_TYPE_NAMES[i] in known &&
                                  known[ArtifactRoundTrip.WELL_KNOWN_TYPE_NAMES[i]] == wellKnown[i])
    && forall n | n in known :: n in ArtifactRoundTrip.WELL_KNOWN_TYPE_NAMES
  }

  /** The name of a type is the one its objects came with, or where it has none, the one it is well known by. */
  ghost predicate NameAsInProcess(p: Process, r: Heap, t: Address)
    requires t in r.types && |p.wellKnown| == 13
  {
    || (exists a :: a in r.objects && p.objectAt(a).typeAddress == t &&
                    CutTo(p.objectAt(a).typeName, 65535, r.types[t]))
    || ((forall a | a in r.objects :: p.objectAt(a).typeAddress != t)
        && exists i :: 0 <= i < 13 && p.wellKnown[i] == t && t !in p.wellKnown[i + 1..] &&
                       r.types[t] == ArtifactRoundTrip.WELL_KNOWN_TYPE_NAMES[i])
  }

  ghost predicate TypesAsInProcess(p: Process, r: Heap) {
    && |p.wellKnown| == 13 == |ArtifactRoundTrip.WELL_KNOWN_TYPE_NAMES|
    && (forall i | 0 <= i < 13 :: p.wellKnown[i] in r.types)
    && (forall a | a in r.objects :: p.objectAt(a).typeAddress in r.types)
    && forall t | t in r.types :: NameAsInProcess(p, r, t)
  }

  ghost predicate HeapOfProcess(st: Setting, createdAt: Text, r: Heap) {
    && r.header.version == 1 && CutTo(createdAt, 65535, r.header.createdAt)
    && r.header.withStrRepr == (st.cfg.strReprLen >= 0) && NamesByPlace(st.process.wellKnown, r.header.wellKnownTypes)
    && r.threads == []
    && ReachableInProcess(st.process, r.objects.Keys)
    && (forall a | a in r.objects :: ObjectAsInProcess(st.process.objectAt(a), r.objects[a]))
    && TypesAsInProcess(st.process, r)
  }

  lemma NamesReadBack(wellKnown: seq<Address>, known: map<Text, Address>)
    requires |wellKnown| == 13 && ArtifactRoundTrip.NamesAsWritten(Collector.KnownOf(wellKnown), known)
    ensures NamesByPlace(wellKnown, known)
  {
    hide Artifact.Ascii, Collector.KnownOf;
    Collector.KnownByPosition(wellKnown);
    forall i | 0 <= i < 13
      ensures ArtifactRoundTrip.WELL_KNOWN_TYPE_NAMES[i] in known
      ensures known[ArtifactRoundTrip.WELL_KNOWN_TYPE_NAMES[i]] == wellKnown[i]
    {
      assert ArtifactRoundTrip.WELL_KNOWN_TYPE_NAMES[i] in ArtifactRoundTrip.WELL_KNOWN_TYPE_NAMES;
    }
  }

  lemma KeysAreAddresses(c: CollectorState, objects: map<Address, HeapObject>)
    requires ArtifactRoundTrip.ObjectsAsWritten(c.written, objects)
    ensures objects.Keys == Artifact.SetOf(Addresses(c.written))
  {
    hide ObjectAsWritten;
    var all := Addresses(c.written);
    forall a | a in objects ensures a in all {
      var i :| 0 <= i < |c.written| && c.written[i].address == a;
      assert all[i] == a;
    }
    forall a | a in all ensures a in objects {
      var i :| 0 <= i < |all| && all[i] == a;
      assert c.written[i].address == a;
    }
  }

  lemma ObjectsReadBack(st: Setting, c: CollectorState, objects: map<Address, HeapObject>)
    requires Readable(st.process) && Exact(st, c.written) && ArtifactRoundTrip.ObjectsAsWritten(c.written, objects)
    requires forall i | 0 <= i < |c.written| :: c.written[i].address < U64
    ensures forall a | a in objects :: ObjectAsInProcess(st.process.objectAt(a), objects[a])
  {
    hide ObjectAsWritten, ObjectAsInProcess, FitsWire, Captured;
    forall a | a in objects ensures ObjectAsInProcess(st.process.objectAt(a), objects[a]) {
      var i :| 0 <= i < |c.written| && c.written[i].address == a;
      assert c.written[i] == Captured(st.process.objectAt(c.written[i].address), st.cfg.strReprLen);
      CapturedReadsAs(st.process.objectAt(a), st.cfg.strReprLen, objects[a]);
    }
  }

  lemma CutTwice(t: Text, once: Text, r: Text)
    requires CutTo(t, 65535, once) && CutTo(once, 65535, r)
    ensures CutTo(t, 65535, r)
  {
  }

  lemma CapturedTypes(o: AgentObject, strReprLen: int)
    ensures var obj := Captured(o, strReprLen);
            obj.address == o.address && obj.typeAddress == o.typeAddress && CutTo(o.typeName, 65535, obj.typeName)
  {
    hide Described;
  }

  lemma ShortNamesUncut(i: nat, r: Text)
    requires i < |ArtifactRoundTrip.WELL_KNOWN_TYPE_NAMES|
    requires CutTo(ArtifactRoundTrip.WELL_KNOWN_TYPE_NAMES[i], 65535, r)
    ensures r == ArtifactRoundTrip.WELL_KNOWN_TYPE_NAMES[i]
  {
    ArtifactRoundTrip.ShortNames();
  }

  lemma {:induction false} LastObjectOf(written: seq<CapturedObject>, t: Address, k: nat) returns (i: nat)
    requires k < |written| && written[k].typeAddress == t
    ensures LastOfType(written, i, t)
    decreases |written| - k
  {
    if j :| k < j < |written| && written[j].typeAddress == t {
      i := LastObjectOf(written, t, j);
    } else {
      i := k;
    }
  }

  lemma TypesReadBack(st: Setting, c: CollectorState, r: Heap)
    requires Exact(st, c.written) && c.wellKnown == st.process.wellKnown && |c.wellKnown| == 13
    requires TypesNamed(WellKnownTypes(c.wellKnown), c.written, c.types)
    requires ArtifactRoundTrip.TypesAsWritten(c.types, r.types)
    requires ArtifactRoundTrip.ObjectsAsWritten(c.written, r.objects)
    ensures TypesAsInProcess(st.process, r)
  {
    hide ObjectAsWritten, Captured, WellKnownTypes, CutTo, Artifact.Ascii, NameAsInProcess, Exact;
    var p := st.process;
    TypesByPosition(c.wellKnown);
    forall a | a in r.objects ensures p.objectAt(a).typeAddress in r.types {
      var i :| 0 <= i < |c.written| && c.written[i].address == a;
      WrittenIs(st, c, i);
      var last := LastObjectOf(c.written, c.written[i].typeAddress, i);
    }
    forall t | t in r.types ensures NameAsInProcess(p, r, t) {
      if i: nat :| LastOfType(c.written, i, t) {
        NameOfObject(st, c, r, t, i);
      } else {
        NameWellKnown(st, c, r, t);
      }
    }
  }

  lemma WrittenIs(st: Setting, c: CollectorState, i: nat)
    requires Exact(st, c.written) && i < |c.written|
    ensures var o := st.process.objectAt(c.written[i].address);
            c.written[i].typeAddress == o.typeAddress && CutTo(o.typeName, 65535, c.written[i].typeName)
  {
    hide Captured;
    assert c.written[i] == Captured(st.process.objectAt(c.written[i].address), st.cfg.strReprLen);
    CapturedTypes(st.process.objectAt(c.written[i].address), st.cfg.strReprLen);
  }

  lemma NameOfObject(st: Setting, c: CollectorState, r: Heap, t: Address, i: nat)
    requires Exact(st, c.written) && LastOfType(c.written, i, t) && |st.process.wellKnown| == 13
    requires TypesNamed(WellKnownTypes(st.process.wellKnown), c.written, c.types)
    requires ArtifactRoundTrip.TypesAsWritten(c.types, r.types) && t in r.types
    requires ArtifactRoundTrip.ObjectsAsWritten(c.written, r.objects)
    ensures NameAsInProcess(st.process, r, t)
  {
    hide ObjectAsWritten, Captured, WellKnownTypes, CutTo, Artifact.Ascii, Exact;
    var a := c.written[i].address;
    WrittenIs(st, c, i);
    CutTwice(st.process.objectAt(a).typeName, c.written[i].typeName, r.types[t]);
    assert a in r.objects && st.process.objectAt(a).typeAddress == t;
  }

  lemma NameWellKnown(st: Setting, c: CollectorState, r: Heap, t: Address)
    requires Exact(st, c.written) && (forall i: nat :: !LastOfType(c.written, i, t)) && |st.process.wellKnown| == 13
    requires TypesNamed(WellKnownTypes(st.process.wellKnown), c.written, c.types)
    requires ArtifactRoundTrip.TypesAsWritten(c.types, r.types) && t in r.types
    requires ArtifactRoundTrip.ObjectsAsWritten(c.written, r.objects)
    ensures NameAsInProcess(st.process, r, t)
  {
    hide ObjectAsWritten, Captured, WellKnownTypes, CutTo, Artifact.Ascii, Exact;
    var p := st.process;
    forall a | a in r.objects ensures p.objectAt(a).typeAddress != t {
      var k :| 0 <= k < |c.written| && c.written[k].address == a;
      WrittenIs(st, c, k);
      if p.objectAt(a).typeAddress == t {
        var last := LastObjectOf(c.written, t, k);
      }
    }
    TypesByPosition(p.wellKnown);
    var i := LastPlace(p.wellKnown, t);
    ShortNamesUncut(i, r.types[t]);
  }

  // ---------------------------------------------------------------- from process to analyzer

  lemma AddressesFit(cfg: Config, messages: seq<Protocol.Message>, c: CollectorState)
    requires cfg.Valid() && Runs(cfg, messages, c) && c.phase.Finished?
    ensures forall i | 0 <= i < |c.written| :: c.written[i].address < U64
  {
    hide Runs;
    RunsTyped(cfg, messages, c);
    forall i | 0 <= i < |c.written| ensures c.written[i].address < U64 {
      assert FitsObject(c.written[i]);
    }
  }

  lemma HeapIsProcess(st: Setting, createdAt: Text, c: CollectorState, r: Heap)
    requires Readable(st.process) && WritesProcess(st, c) && |c.wellKnown| == 13
    requires forall i | 0 <= i < |c.written| :: c.written[i].address < U64
    requires TypesNamed(WellKnownTypes(c.wellKnown), c.written, c.types)
    requires ArtifactRoundTrip.HeapAsWritten(Collector.CaptureOf(st.cfg, createdAt, c), r)
    ensures HeapOfProcess(st, createdAt, r)
  {
    hide TypesNamed, WellKnownTypes, ArtifactRoundTrip.ObjectsAsWritten, ArtifactRoundTrip.TypesAsWritten,
         ArtifactRoundTrip.NamesAsWritten, Collector.KnownOf, ReachableInProcess, ObjectAsInProcess, TypesAsInProcess,
         NamesByPlace, CutTo, ThreadAsWritten, WrittenIsReachable, Exact, Readable, Addresses, Artifact.Ascii;
    NamesReadBack(c.wellKnown, r.header.wellKnownTypes);
    KeysAreAddresses(c, r.objects);
    WrittenIsReachableInProcess(st, c);
    ObjectsReadBack(st, c, r.objects);
    TypesReadBack(st, c, r);
  }

  /** The file of a finished Collector that has written the process is accepted, and read as the process. */
  ghost predicate FileReadsAsProcess(st: Setting, createdAt: Text, c: CollectorState) {
    && |c.wellKnown| == |ArtifactRoundTrip.WELL_KNOWN_TYPE_NAMES|
    && ArtifactRoundTrip.NamesAll(Collector.KnownOf(c.wellKnown))
    && var file := Collector.FileOf(st.cfg, createdAt, c);
       var r := Artifact.ReadArtifact(file);
       r.Ok? && r.next == |file| && HeapOfProcess(st, createdAt, r.value)
  }

  lemma WrittenFileReads(st: Setting, createdAt: Text, messages: seq<Protocol.Message>, c: CollectorState)
    requires Readable(st.process) && TypesTellKinds(st.process)
    requires st.cfg.Valid() && Runs(st.cfg, messages, c) && c.phase.Finished? && WritesProcess(st, c)
    ensures FileReadsAsProcess(st, createdAt, c)
  {
    hide Runs, TypesTellKinds, Exact, Collector.KnownOf, ArtifactRoundTrip.NamesAll, ArtifactRoundTrip.Fits,
         Artifact.ReadArtifact, Collector.FileOf, KindAgrees, ReachFrom, ArtifactRoundTrip.KnownRead, Readable,
         Artifact.HasContainers, GraphOf, ArtifactRoundTrip.HeapRead, WrittenIsReachable, NonZero, TypesNamed,
         HeapOfProcess, WellKnownTypes, ArtifactRoundTrip.HeapAsWritten, Collector.KindsAgree;
    AddressesFit(st.cfg, messages, c);
    ExactKinds(st, c);
    Collector.FinishedKnows(st.cfg, messages, c);
    Collector.FinishedFits(st.cfg, createdAt, messages, c);
    Collector.FileIsArtifact(st.cfg, createdAt, c);
    ArtifactRoundTrip.RoundTrip(Collector.CaptureOf(st.cfg, createdAt, c));
    RunsNamed(st.cfg, messages, c);
    HeapIsProcess(st, createdAt, c, Artifact.ReadArtifact(Collector.FileOf(st.cfg, createdAt, c)).value);
  }

  /**
   * From process to analyzer: the artifact of a finished session is accepted by the reader. The heap it reads has
   * exactly the objects that the roots and the well-known types of the process lead to, each with its address, type,
   * size, content and referents; and each well-known name has the address the process gave for it.
   */
  lemma SessionArtifactReads(st: Setting, createdAt: Text, trace: seq<State>, i: nat)
    requires Fair(st) && TypesTellKinds(st.process)
    requires Run(st, trace) && i < |trace| && trace[i].collector.phase.Finished?
    ensures FileReadsAsProcess(st, createdAt, trace[i].collector)
  {
    hide Runs, Run, TypesTellKinds, Exact, Readable, AcceptHello, WrittenIsReachable, FileReadsAsProcess;
    SessionDelivers(st, trace, i);
    var messages := RunOf(st, trace, i);
    WrittenFileReads(st, createdAt, messages, trace[i].collector);
  }

  /** The same for the two programs joined by their bytes: what the Collector leaves behind reads as the process. */
  lemma CaptureArtifactReads(st: Setting, createdAt: Text, sent: Octets, messages: seq<Protocol.Message>,
                             c: CollectorState, result: Protocol.Result<nat>)
    requires Fair(st) && TypesTellKinds(st.process)
    requires Says([], ProgramFrames(st.process, st.hello, Framing.Wire(c.sent)),
                  ProgramMessages(st.process, st.hello, Framing.Wire(c.sent)), sent)
    requires Collector.Ended(st.cfg, Framing.ReceiveAll([], sent), messages, c, result) && result.Ok?
    ensures FileReadsAsProcess(st, createdAt, c)
  {
    hide Runs, TypesTellKinds, Exact, Readable, AcceptHello, WrittenIsReachable, FileReadsAsProcess, Says, ProgramFrames,
         ProgramMessages, ProgramOutcome, Framing.ReceiveAll;
    SessionBytes.CaptureMeetsAgent(st, sent, messages, c, result);
    WrittenFileReads(st, createdAt, messages, c);
  }
}
