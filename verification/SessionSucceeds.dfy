/**
 * A session of a process that the artifact format can hold never fails: however its steps interleave, it goes on until
 * the artifact is finished, and that artifact reads as the process.
 */
module SessionSucceeds {
  import opened GraphTheory
  import opened HeapModel
  import opened Bytes
  import opened Handshake
  import opened ObjectStream
  import opened CaptureModel
  import opened ArtifactEncoding
  import opened AgentSession
  import opened CollectorModel
  import opened Session
  import opened SessionRuns
  import opened SessionArtifact
  import Artifact
  import ArtifactRoundTrip
  import Framing
  import Protocol
  import WireFormat

  /** No object has more items, entries or referents than a 32-bit count can say. */
  ghost predicate CountsFit(p: Process) {
    forall a: Address | a < U64 ::
      var o := p.objectAt(a);
      |o.sequence| <= 0xFFFF_FFFF && |o.entries| <= 0xFFFF_FFFF && |o.referents| <= 0xFFFF_FFFF
  }

  /** All that the roots and the well-known types lead to is among these addresses, which a 32-bit count can say. */
  ghost predicate Bounded(p: Process, all: set<Address>) {
    HoldsStart(p, all) && ClosedInProcess(p, all) && |all| < 0xFFFF_FFFF
  }

  // ---------------------------------------------------------------- every object can be written

  lemma {:induction false} FewElements(s: seq<Address>)
    ensures |Artifact.SetOf(s)| <= |s|
    decreases |s|
  {
    if s == [] {
      assert Artifact.SetOf(s) == {};
    } else {
      FewElements(s[1..]);
      assert Artifact.SetOf(s) == {s[0]} + Artifact.SetOf(s[1..]);
    }
  }

  lemma FewRemain(obj: CapturedObject, referents: seq<Address>)
    requires obj.referents == Artifact.SetOf(referents) && |referents| <= 0xFFFF_FFFF && AllWide(referents)
    ensures FitsAddresses(Remaining(obj))
  {
    hide ContentAddresses;
    var rest := obj.referents - ContentAddresses(obj);
    FewElements(referents);
    Subset(rest, obj.referents);
    AscendingHolds(rest);
    forall i | 0 <= i < |Ascending(rest)| ensures ArtifactEncoding.Wide(Ascending(rest)[i]) {
      assert Ascending(rest)[i] in Artifact.SetOf(Ascending(rest));
      var j :| 0 <= j < |referents| && referents[j] == Ascending(rest)[i];
    }
  }

  lemma {:induction false} Subset(a: set<Address>, b: set<Address>)
    requires a <= b
    ensures |a| <= |b|
    decreases |b|
  {
    if x :| x in a {
      Subset(a - {x}, b - {x});
    }
  }

  lemma CapturedFits(o: AgentObject, strReprLen: int)
    requires FitsWire(o) && |o.sequence| <= 0xFFFF_FFFF && |o.entries| <= 0xFFFF_FFFF && |o.referents| <= 0xFFFF_FFFF
    ensures FitsObject(Captured(o, strReprLen))
  {
    hide CutName, Described, Remaining, Artifact.SetOf, Flat;
    var obj := Captured(o, strReprLen);
    FewRemain(obj, o.referents);
    forall i | 0 <= i < |o.entries|
      ensures ArtifactEncoding.Wide(o.entries[i].0) && ArtifactEncoding.Wide(o.entries[i].1)
    {
      WireFormat.EntriesSpelt(o.entries, i);
      assert ArtifactEncoding.Wide(Flat(o.entries)[2 * i]) && ArtifactEncoding.Wide(Flat(o.entries)[2 * i + 1]);
    }
  }

  // ---------------------------------------------------------------- the tables can be written

  /** Every type that has a name is scheduled, unless its address is 0. */
  ghost predicate TypesScheduled(c: CollectorState) {
    c.types.Keys <= c.work.scheduled + {0}
  }

  lemma RequestSchedules(cfg: Config, c: CollectorState)
    requires cfg.Valid() && TypesScheduled(c)
    ensures TypesScheduled(NextRequest(cfg, c))
  {
    hide Popped, Request;
  }

  lemma WellKnownScheduled(c: CollectorState)
    requires |c.wellKnown| == |ArtifactRoundTrip.WELL_KNOWN_TYPE_NAMES|
    ensures TypesScheduled(c.(work := Schedule(c.work, c.wellKnown), types := WellKnownTypes(c.wellKnown)))
  {
    hide Schedule, WellKnownTypes;
    ScheduleAll(c.work, c.wellKnown);
    TypesByPosition(c.wellKnown);
  }

  lemma ObjectSchedules(c: CollectorState, obj: CapturedObject, order: seq<Address>, remaining: seq<Address>)
    requires TypesScheduled(c)
    ensures TypesScheduled(AfterObject(c, obj, order, remaining))
  {
    hide Schedule, ContentEdges;
    var targets := order + ContentEdges(obj) + [obj.typeAddress];
    ScheduleAll(c.work, targets);
    assert targets[|targets| - 1] == obj.typeAddress;
  }

  lemma StepSchedules(cfg: Config, c: CollectorState, m: Protocol.Message, c': CollectorState)
    requires cfg.Valid() && TypesScheduled(c) && Step(cfg, c, m, c')
    requires c.phase.AwaitHello? || c.phase.AwaitWellKnown? || c.phase.AwaitRoots? ==> c.types == map[]
    ensures TypesScheduled(c')
    ensures c'.phase.AwaitHello? || c'.phase.AwaitWellKnown? || c'.phase.AwaitRoots? ==> c'.types == map[]
  {
    hide Schedule, FitsObject, ParseObject, WellKnownTypes, AcceptHello, CanFinish, Enumerates, EncodeOptions,
         DecodeAddresses, NextRequest, AfterObject;
    match c.phase
    case AwaitHello =>
    case AwaitWellKnown =>
    case AwaitRoots =>
      WellKnownScheduled(c);
      RequestSchedules(cfg, c.(work := Schedule(c.work, c.wellKnown), types := WellKnownTypes(c.wellKnown)));
      RequestIsPastRoots(cfg, c.(work := Schedule(c.work, c.wellKnown), types := WellKnownTypes(c.wellKnown)));
    case AwaitObject(seen, expected, remaining) =>
      var p := ParseObject(seen + [m], expected, cfg.strReprLen);
      if p.Complete? && FitsObject(p.obj) {
        var order :| Enumerates(order, p.obj.referents) && c' == AfterObject(c, p.obj, order, remaining);
        ObjectSchedules(c, p.obj, order, remaining);
        AfterIsPastRoots(c, p.obj, order, remaining);
      }
    case AwaitBatchDone =>
      RequestSchedules(cfg, c);
      RequestIsPastRoots(cfg, c);
    case AwaitComplete =>
  }

  lemma RequestIsPastRoots(cfg: Config, c: CollectorState)
    requires cfg.Valid()
    ensures var phase := NextRequest(cfg, c).phase; phase.AwaitComplete? || phase.AwaitObject? || phase.Failed?
  {
    hide Popped, Request;
  }

  lemma AfterIsPastRoots(c: CollectorState, obj: CapturedObject, order: seq<Address>, remaining: seq<Address>)
    ensures var phase := AfterObject(c, obj, order, remaining).phase; phase.AwaitBatchDone? || phase.AwaitObject?
  {
    hide Schedule, ContentEdges;
  }

  lemma {:induction false} RunsSchedule(cfg: Config, messages: seq<Protocol.Message>, c: CollectorState)
    requires cfg.Valid() && Runs(cfg, messages, c)
    ensures TypesScheduled(c)
    ensures c.phase.AwaitHello? || c.phase.AwaitWellKnown? || c.phase.AwaitRoots? ==> c.types == map[]
    decreases |messages|
  {
    hide Step;
    if messages != [] {
      hide TypesScheduled;
      var before :| Runs(cfg, Earlier(messages), before) && Step(cfg, before, messages[|messages| - 1], c);
      RunsSchedule(cfg, Earlier(messages), before);
      StepSchedules(cfg, before, messages[|messages| - 1], c);
    }
  }

  /** What a Collector has scheduled is among the addresses that the process leads to. */
  lemma ScheduledIsBounded(st: Setting, c: CollectorState, all: set<Address>)
    requires Fair(st) && Honest(st, c) && CollectorModel.Inv(c) && !c.phase.Failed? && Bounded(st.process, all)
    ensures c.work.scheduled <= all
  {
    hide Readable, AcceptHello, Accounted, GraphOf, ReachFrom, NonZero, ClosedInProcess, HoldsStart, SeenSoFar, Exact,
         Targets;
    ClosedInGraph(st, c.written, all);
    StartIsBounded(st, c, all);
    ReachLeast(GraphOf(c.written), StartOf(c), all);
  }

  lemma StartIsBounded(st: Setting, c: CollectorState, all: set<Address>)
    requires Fair(st) && Honest(st, c) && !c.phase.Failed? && HoldsStart(st.process, all)
    ensures StartOf(c) <= all
  {
    hide Readable, AcceptHello, SeenSoFar, Exact, Captured;
    StartIsHeld(st.process, all);
    assert forall a | a in c.roots :: a in st.process.roots;
  }

  lemma {:induction false} DistinctAreFew(s: seq<Address>, all: set<Address>)
    requires (forall i, j | 0 <= i < j < |s| :: s[i] != s[j]) && forall i | 0 <= i < |s| :: s[i] in all
    ensures |s| <= |all|
    decreases |s|
  {
    if s != [] {
      var rest, last := s[..|s| - 1], s[|s| - 1];
      DistinctAreFew(rest, all - {last});
    }
  }

  lemma WrittenIsBounded(c: CollectorState, all: set<Address>)
    requires CollectorModel.Inv(c) && !c.phase.Failed? && c.work.scheduled <= all
    ensures |c.written| <= |all|
  {
    hide Reachable;
    var w := Addresses(c.written);
    OnceEach(w, InFlight(c) + c.work.pending, c.work.scheduled) by {
      assert multiset(InFlight(c) + c.work.pending) == multiset(InFlight(c)) + multiset(c.work.pending);
    }
    forall i | 0 <= i < |w| ensures w[i] in all {
      assert w[i] in multiset(w);
      assert w[i] in multiset(c.work.scheduled);
    }
    DistinctAreFew(w, all);
  }

  lemma FinishIsPossible(st: Setting, c: CollectorState, all: set<Address>)
    requires Fair(st) && Honest(st, c) && CollectorModel.Inv(c) && !c.phase.Failed? && Bounded(st.process, all)
    requires TypesScheduled(c)
    ensures CanFinish(c)
  {
    hide Readable, AcceptHello, CollectorModel.Inv, ClosedInProcess, HoldsStart, SeenSoFar, Exact;
    ScheduledIsBounded(st, c, all);
    WrittenIsBounded(c, all);
    Subset(c.types.Keys, all + {0});
    assert |all + {0}| <= |all| + 1;
    forall a | a in c.types ensures ArtifactEncoding.Wide(a) {
      assert a == 0 || a in c.work.scheduled;
    }
  }

  // ---------------------------------------------------------------- no step fails

  lemma ObjectStepSucceeds(st: Setting, c: CollectorState, c': CollectorState)
    requires Fair(st) && CountsFit(st.process) && Honest(st, c) && CollectorModel.Inv(c) && c.phase.AwaitObject?
    requires Expected(st, c) != [] && ObjectStep(st.cfg, c, Expected(st, c)[0], c')
    ensures !c'.phase.Failed?
  {
    hide ParseObject, Captured, ObjectRecords, FitsObject, Enumerates, AcceptHello, Answer,
         CollectorModel.Inv, Expected, Readable, Schedule;
    var seen, expected := c.phase.seen, c.phase.expected;
    var records := ObjectRecords(st.process.objectAt(expected));
    ExpectedObject(st, c);
    var m := records[|seen|];
    assert seen == records[..|seen|] && records[..|seen| + 1] == seen + [m];
    ObjectParses(st, expected, seen + [m]);
    ProcessObject(st.process, expected);
    CapturedFits(st.process.objectAt(expected), st.cfg.strReprLen);
  }

  lemma NoWriterYet(cfg: Config, c: CollectorState, m: Protocol.Message, c': CollectorState)
    requires cfg.Valid() && Step(cfg, c, m, c') && !c.phase.AwaitObject? && !c.phase.AwaitComplete?
    ensures c'.phase != Failed(Protocol.WriterFailed)
  {
    hide Schedule, WellKnownTypes, EncodeOptions, Popped, Request, AcceptHello, DecodeAddresses;
    HelloProblems(m.payload, cfg.nonce);
    AddressProblems(m.payload);
  }

  lemma HelloProblems(payload: Octets, nonce: Octets)
    ensures AcceptHello(payload, nonce).Error? ==> AcceptHello(payload, nonce).problem == Protocol.InvalidPayload
  {
  }

  lemma AddressProblems(payload: Octets)
    ensures DecodeAddresses(payload).Error? ==> DecodeAddresses(payload).problem == Protocol.InvalidPayload
  {
  }

  lemma StepSucceeds(st: Setting, c: CollectorState, c': CollectorState, all: set<Address>)
    requires Fair(st) && CountsFit(st.process) && Bounded(st.process, all)
    requires Honest(st, c) && CollectorModel.Inv(c) && TypesScheduled(c)
    requires Expected(st, c) != [] && Step(st.cfg, c, Expected(st, c)[0], c')
    ensures !c'.phase.Failed?
  {
    hide CollectorModel.Inv, Readable, AcceptHello, Bounded, CountsFit, CanFinish, TypesScheduled, ObjectStep, OnSetup,
         OnRoots, NextRequest, Exact, SeenSoFar;
    CollectorTakes(st, c, c');
    if c.phase.AwaitObject? {
      ObjectStepSucceeds(st, c, c');
    } else if c.phase.AwaitComplete? {
      FinishIsPossible(st, c, all);
    } else {
      NoWriterYet(st.cfg, c, Expected(st, c)[0], c');
    }
  }

  /** In no state of any run has the Collector failed. */
  lemma {:induction false} RunsNeverFail(st: Setting, trace: seq<State>, i: nat, all: set<Address>)
    requires Fair(st) && Run(st, trace) && i < |trace| && CountsFit(st.process) && Bounded(st.process, all)
    ensures !trace[i].collector.phase.Failed?
    decreases i
  {
    hide Fair, SessionInv, Measure, CountsFit, Bounded, AgentMoves, CollectorMoves, TypesScheduled, Step;
    if i > 0 {
      var s, s' := trace[i - 1], trace[i];
      RunsNeverFail(st, trace, i - 1, all);
      RunsKeepSessionInv(st, trace, i - 1);
      var messages := RunOf(st, trace, i - 1);
      RunsSchedule(st.cfg, messages, s.collector);
      assert Moves(st, s, s');
      if AgentMoves(st, s, s') {
        AgentLeavesCollector(st, s, s');
      } else {
        CollectorStepIs(st, s, s');
        InvHolds(st, s);
        StepSucceeds(st, s.collector, s'.collector, all);
      }
    }
  }

  lemma InvHolds(st: Setting, s: State)
    requires SessionInv(st, s)
    ensures Honest(st, s.collector) && CollectorModel.Inv(s.collector)
  {
  }

  // ---------------------------------------------------------------- every run succeeds

  /** Nobody can go on. */
  ghost predicate Over(st: Setting, s: State)
    requires st.cfg.Valid()
  {
    forall s' :: !Moves(st, s, s')
  }

  /**
   * Every run of a session goes on until the capture is finished: as long as it is not, somebody can move, and
   * after no more steps than the measure of the start it is.
   */
  lemma SessionSucceeds(st: Setting, createdAt: Text, trace: seq<State>, all: set<Address>)
    requires Fair(st) && TypesTellKinds(st.process) && CountsFit(st.process) && Bounded(st.process, all)
    requires trace != [] && Run(st, trace) && Over(st, trace[|trace| - 1])
    ensures trace[|trace| - 1].collector.phase.Finished?
    ensures FileReadsAsProcess(st, createdAt, trace[|trace| - 1].collector)
  {
    hide Fair, Run, CountsFit, Bounded, TypesTellKinds, Moves, Exact, FileReadsAsProcess;
    var last := |trace| - 1;
    RunsNeverFail(st, trace, last, all);
    SessionIsSafe(st, trace, last);
    SessionArtifactReads(st, createdAt, trace, last);
  }

  /** And there is one: whoever moves as long as somebody can, comes to the end. */
  lemma {:induction false} GoesOn(st: Setting, trace: seq<State>) returns (whole: seq<State>)
    requires Fair(st) && trace != [] && Run(st, trace)
    ensures whole != [] && Run(st, whole) && trace <= whole && st.cfg.Valid() && Over(st, whole[|whole| - 1])
    decreases RoomFor(st, |trace|)
  {
    hide Fair, Measure, SessionInv, Start, Moves, Framing.AllLegal, Run;
    FairIsValid(st);
    SessionEnds(st, trace);
    var last := trace[|trace| - 1];
    if s' :| Moves(st, last, s') {
      OneMore(st, trace, s');
      SessionEnds(st, trace + [s']);
      whole := GoesOn(st, trace + [s']);
    } else {
      whole := trace;
    }
  }

  lemma OneMore(st: Setting, trace: seq<State>, s': State)
    requires Fair(st) && trace != [] && Run(st, trace) && Moves(st, trace[|trace| - 1], s')
    ensures Run(st, trace + [s'])
  {
    hide Readable, AcceptHello, AgentMoves, CollectorMoves, Start;
    var longer := trace + [s'];
    forall i, j | 0 <= i && j == i + 1 < |longer| ensures Moves(st, longer[i], longer[j]) {
      if j < |trace| {
        assert Moves(st, trace[i], trace[j]);
      }
    }
  }

  /** How many more states a run can have. */
  ghost function RoomFor(st: Setting, n: nat): nat
    requires Fair(st)
  {
    StartKeepsInv(st);
    InvIsLegal(st, Start(st));
    if Measure(st, Start(st)) + 1 >= n then Measure(st, Start(st)) + 1 - n else 0
  }

  lemma SessionRunsThrough(st: Setting, createdAt: Text, all: set<Address>) returns (trace: seq<State>)
    requires Fair(st) && TypesTellKinds(st.process) && CountsFit(st.process) && Bounded(st.process, all)
    ensures Run(st, trace) && trace != [] && trace[|trace| - 1].collector.phase.Finished?
    ensures FileReadsAsProcess(st, createdAt, trace[|trace| - 1].collector)
  {
    hide Fair, CountsFit, Bounded, TypesTellKinds, Moves, FileReadsAsProcess;
    trace := GoesOn(st, [Start(st)]);
    SessionSucceeds(st, createdAt, trace, all);
  }

  // ---------------------------------------------------------------- a process to begin with

  /** Any address holds a plain object of 16 bytes that refers to nothing but its type. */
  ghost function PlainProcess(): Process {
    Process([1, 0x20], [1, 2, 3, 4, 5, 6, 7, 8, 9, 10, 11, 12, 13],
            (a: Address) => AgentObject(a, 12, [], 16, NONE, [], [], []))
  }

  ghost function PlainSetting(): Setting {
    Setting(PlainProcess(), Hello(3, 12, 8, true, Nonce()), Config(Nonce(), 1000, false, 100))
  }

  function Nonce(): Octets {
    [1, 2, 3, 4, 5, 6, 7, 8, 9, 10, 11, 12, 13, 14, 15, 16]
  }

  lemma PlainIsFair()
    ensures Fair(PlainSetting())
  {
    var st := PlainSetting();
    HelloAccepted(EncodeHello(st.hello).value, Nonce());
    assert EncodeHello(Hello(3, 12, 8, true, Nonce())) == Protocol.Ok(EncodeHello(st.hello).value);
    assert Readable(st.process) by {
      hide Flat;
      forall a: Address | a < U64 ensures FitsWire(st.process.objectAt(a)) {
        NothingIsFlat();
      }
    }
  }

  lemma NothingIsFlat()
    ensures Flat([]) == []
  {
  }

  ghost function PlainAddresses(): set<Address> {
    {1, 2, 3, 4, 5, 6, 7, 8, 9, 10, 11, 12, 13, 0x20}
  }

  lemma PlainKinds()
    ensures TypesTellKinds(PlainProcess()) && CountsFit(PlainProcess())
  {
  }

  lemma PlainAreFew()
    ensures |PlainAddresses()| <= 14
  {
    var list: seq<Address> := [1, 2, 3, 4, 5, 6, 7, 8, 9, 10, 11, 12, 13, 0x20];
    FewElements(list);
    assert Artifact.SetOf(list) == PlainAddresses();
  }

  lemma PlainStart(t: set<Address>)
    ensures HoldsStart(PlainProcess(), t) <==> PlainAddresses() <= t
  {
    var p := PlainProcess();
    if HoldsStart(p, t) {
      forall a | a in PlainAddresses() ensures a in t {
        if a == 0x20 {
          assert p.roots[1] in t;
        } else {
          assert p.wellKnown[a - 1] in t;
        }
      }
    }
  }

  lemma PlainIsBounded()
    ensures Bounded(PlainProcess(), PlainAddresses())
  {
    PlainAreFew();
    PlainStart(PlainAddresses());
    PlainIsClosed();
    hide PlainAddresses, PlainProcess, HoldsStart;
  }

  lemma PlainIsClosed()
    ensures ClosedInProcess(PlainProcess(), PlainAddresses())
  {
  }

  /** A capture of this process comes to its end, and its artifact holds these fourteen objects. */
  lemma PlainSession() returns (trace: seq<State>)
    ensures Fair(PlainSetting()) && Run(PlainSetting(), trace) && trace != []
    ensures trace[|trace| - 1].collector.phase.Finished?
    ensures FileReadsAsProcess(PlainSetting(), [84], trace[|trace| - 1].collector)
    ensures ReachableInProcess(PlainProcess(), PlainAddresses())
  {
    PlainIsFair();
    PlainKinds();
    PlainIsBounded();
    hide Fair, TypesTellKinds, CountsFit, Bounded, FileReadsAsProcess, Run;
    trace := SessionRunsThrough(PlainSetting(), [84], PlainAddresses());
    PlainIsReachable();
  }

  lemma PlainIsReachable()
    ensures ReachableInProcess(PlainProcess(), PlainAddresses())
  {
    PlainIsClosed();
    PlainStart(PlainAddresses());
    hide PlainAddresses, PlainProcess, HoldsStart, ClosedInProcess;
    forall t: set<Address> | HoldsStart(PlainProcess(), t) ensures PlainAddresses() <= t {
      PlainStart(t);
    }
  }
}
