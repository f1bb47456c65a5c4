/** Runs of a session: somebody can always move, every run ends, and what a finished session has delivered. */
module SessionRuns {
  import opened GraphTheory
  import opened Bytes
  import opened Protocol
  import opened Framing
  import opened Handshake
  import opened ObjectStream
  import opened ArtifactEncoding
  import opened AgentBuffers
  import opened AgentSession
  import opened CollectorModel
  import opened Session
  import opened Sums
  import Artifact
  import ArtifactRoundTrip
  import Collector

  // ---------------------------------------------------------------- progress

  ghost predicate Ended(s: State) {
    s.collector.phase.Finished? || s.collector.phase.Failed?
  }

  lemma AgentCanSend(st: Setting, s: State)
    requires s.agent.todo != []
    ensures exists s' :: AgentMoves(st, s, s')
  {
    hide RecordsBytes;
    var a := s.agent;
    var m, rest := a.todo[0].m, a.todo[1..];
    var appended := s.(agent := a.(todo := rest, buffer := a.buffer + [m]));
    var alone := s.(agent := a.(todo := rest), toCollector := s.toCollector + [Batch([m])]);
    var direct := s.(agent := a.(todo := rest), toCollector := s.toCollector + [m]);
    assert || AgentMoves(st, s, Flushed(s)) || AgentMoves(st, s, appended)
           || AgentMoves(st, s, alone) || AgentMoves(st, s, direct);
  }

  /** Any message takes a Collector that is not at its end somewhere. */
  lemma StepExists(cfg: Config, c: CollectorState, m: Message) returns (c': CollectorState)
    requires cfg.Valid() && !c.phase.Finished? && !c.phase.Failed?
    requires c.phase.AwaitRoots? ==> |c.wellKnown| == |ArtifactRoundTrip.WELL_KNOWN_TYPE_NAMES|
    ensures Step(cfg, c, m, c')
  {
    hide ParseObject, NextRequest, AfterObject, FitsObject, WellKnownTypes, Schedule, CanFinish;
    match c.phase
    case AwaitHello => c' := OnSetup(cfg, c, m);
    case AwaitWellKnown => c' := OnSetup(cfg, c, m);
    case AwaitRoots => c' := OnRoots(cfg, c, m);
    case AwaitObject(seen, expected, remaining) =>
      var p := ParseObject(seen + [m], expected, cfg.strReprLen);
      if p.Unfinished? {
        c' := c.(phase := AwaitObject(seen + [m], expected, remaining));
      } else if p.Broken? {
        c' := Fail(c, p.problem);
      } else if !FitsObject(p.obj) {
        c' := Fail(c, WriterFailed);
      } else {
        var order := Ascending(p.obj.referents);
        AscendingHolds(p.obj.referents);
        c' := AfterObject(c, p.obj, order, remaining);
        assert Enumerates(order, p.obj.referents);
      }
    case AwaitBatchDone => c' := if m.kind == BATCH_DONE then NextRequest(cfg, c) else Fail(c, UnexpectedIn(m));
    case AwaitComplete =>
      c' := if m.kind != COMPLETE then Fail(c, UnexpectedIn(m))
            else if CanFinish(c) then c.(phase := Finished) else Fail(c, WriterFailed);
  }

  lemma ExpectsSomething(st: Setting, c: CollectorState)
    requires Fair(st) && Honest(st, c) && !c.phase.Finished? && !c.phase.Failed?
    ensures Expected(st, c) != []
  {
    hide ObjectRecords, AddressRecords, Answer, EncodeAddresses, Captured;
  }

  lemma CollectorCanMove(st: Setting, s: State)
    requires SessionInv(st, s) && !Ended(s) && s.agent.todo == [] && Queue(s) != []
    ensures exists s' :: CollectorMoves(st, s, s')
  {
    hide Step, CollectorModel.Inv, Talks, Expected, HasSaid, Queue, Receives, Sound, Readable, AcceptHello, Exact;
    var c := s.collector;
    WellKnownCount(st.process);
    QueueMoves(st, s);
    var m, inbox, toCollector :| Receives(s, m, inbox, toCollector);
    var c' := StepExists(st.cfg, c, m);
    StepSends(st.cfg, c, m, c');
    var s' := s.(inbox := inbox, toCollector := toCollector, collector := c', toAgent := s.toAgent + c'.sent[|c.sent|..]);
    assert Receives(s, m, s'.inbox, s'.toCollector);
    assert CollectorMoves(st, s, s');
  }

  /** Until the Collector is at its end, one of the two can always move. */
  lemma SomebodyMoves(st: Setting, s: State)
    requires SessionInv(st, s) && !Ended(s)
    ensures exists s' :: Moves(st, s, s')
  {
    hide CollectorModel.Inv, Talks, Expected, Queue, Honest, HasSaid, Readable, AcceptHello, OnFrame, AgentMoves,
         CollectorMoves, RecordsBytes;
    if s.agent.todo != [] {
      AgentCanSend(st, s);
      var s' :| AgentMoves(st, s, s');
      assert Moves(st, s, s');
    } else if Queue(s) != [] {
      CollectorCanMove(st, s);
      var s' :| CollectorMoves(st, s, s');
      assert Moves(st, s, s');
    } else {
      ExpectsSomething(st, s.collector);
      AgentCanReceive(st, s);
      var s' :| AgentMoves(st, s, s');
      assert Moves(st, s, s');
    }
  }

  lemma AgentCanReceive(st: Setting, s: State)
    requires s.agent.todo == [] && s.toAgent != [] && s.agent.phase != Over
    ensures exists s' :: AgentMoves(st, s, s')
  {
    var s' := s.(agent := OnFrame(st.process, s.agent.phase, s.toAgent[0]), toAgent := s.toAgent[1..]);
    assert AgentMoves(st, s, s');
  }

  // ---------------------------------------------------------------- termination

  function ObjectCost(p: Process, a: Address): nat {
    4 * |ObjectRecords(p.objectAt(a))| + 6
  }

  ghost function Costs(p: Process): map<Address, nat> {
    map a | a in Below(U64) :: ObjectCost(p, a)
  }

  /** Addresses no request has asked for. */
  ghost function Unasked(c: CollectorState): set<Address> {
    Below(U64) - Artifact.SetOf(AllOf(c.requests))
  }

  /** A bound on what is still to be done after the messages that the Collector expects now. */
  ghost function Ahead(st: Setting, c: CollectorState): nat {
    match c.phase
    case AwaitHello => SumOver(Costs(st.process), Unasked(c)) + 12 + 4 * (1 + |RootMessages(st.process)|)
    case AwaitComplete => 0
    case Finished => 0
    case Failed(_) => 0
    case _ => SumOver(Costs(st.process), Unasked(c)) + 6
  }

  ghost function OnTheWay(st: Setting, s: State): nat
    requires Fair(st)
  {
    if s.toAgent == [] then 0 else 1 + 4 * |Expected(st, s.collector)|
  }

  /** Every message weighs less the nearer it is to the Collector. */
  ghost function Measure(st: Setting, s: State): nat
    requires Fair(st) && AllLegal(s.toCollector)
  {
    4 * |s.agent.todo| + 3 * |s.agent.buffer| + 2 * |Flatten(s.toCollector)| + |s.inbox| + OnTheWay(st, s) +
    Ahead(st, s.collector)
  }

  lemma SendingDrops(st: Setting, s: State, s': State)
    requires SessionInv(st, s) && s.agent.todo != [] && AgentMoves(st, s, s')
    ensures AllLegal(s'.toCollector) && Measure(st, s') < Measure(st, s)
  {
    hide RecordsBytes, Logical, Messages, Flatten, Expected, Ahead, HasSaid, Honest, Talks, CollectorModel.Inv, Fair;
    SendingKeepsQueue(st, s, s');
    NoRecordBytes();
    var a := s.agent;
    var m := a.todo[0].m;
    assert SoundOut(a.todo[0]);
    if s' == Flushed(s) {
      BatchIsLegal(a.buffer);
      FlattenOne(Batch(a.buffer));
      FlattenAppend(s.toCollector, [Batch(a.buffer)]);
    } else if s'.toCollector != s.toCollector {
      var frame := s'.toCollector[|s.toCollector|];
      if a.todo[0].Record? {
        OneRecordSize(m);
        BatchIsLegal([m]);
      } else {
        PlainIsLogical(m);
      }
      FlattenOne(frame);
      FlattenAppend(s.toCollector, [frame]);
    }
  }

  lemma ReceivingDrops(st: Setting, s: State, s': State)
    requires SessionInv(st, s) && s.agent.todo == [] && AgentMoves(st, s, s')
    ensures AllLegal(s'.toCollector) && Measure(st, s') < Measure(st, s)
  {
    hide Expected, Ahead, HasSaid, Honest, Talks, CollectorModel.Inv, Fair, OnFrame;
    ReceivingKeepsChannel(st, s, s');
    assert |Messages(s'.agent.todo)| == |s'.agent.todo|;
    assert |Flatten(s.toCollector)| == 0;
  }

  lemma TakingShrinks(s: State, m: Message, inbox: seq<Message>, toCollector: seq<Message>)
    requires Sound(s) && Receives(s, m, inbox, toCollector)
    ensures AllLegal(toCollector)
    ensures 2 * |Flatten(toCollector)| + |inbox| < 2 * |Flatten(s.toCollector)| + |s.inbox|
  {
    hide Logical;
    if s.inbox == [] {
      assert Flatten(s.toCollector) == Logical(s.toCollector[0]).value + Flatten(toCollector);
    }
  }

  ghost predicate Distinct(addresses: seq<Address>) {
    forall i, j | 0 <= i < j < |addresses| :: addresses[i] != addresses[j]
  }

  lemma {:induction false} CostOfBatch(p: Process, batch: seq<Address>)
    requires Distinct(batch) && AllWide(batch)
    ensures SumOver(Costs(p), Artifact.SetOf(batch)) == 4 * |AnswerRecords(p, batch)| + 6 * |batch|
    decreases |batch|
  {
    hide SumOver, ObjectRecords;
    if batch == [] {
      assert Artifact.SetOf(batch) == {};
      SumEmpty(Costs(p));
    } else {
      var a, rest := batch[0], batch[1..];
      forall i | 0 <= i < |rest| ensures rest[i] != a {
        assert batch[i + 1] == rest[i];
      }
      CostOfBatch(p, rest);
      assert batch == [a] + rest;
      assert Artifact.SetOf(batch) == Artifact.SetOf(rest) + {a};
      SumAdd(Costs(p), Artifact.SetOf(rest), a);
      assert ArtifactEncoding.Wide(batch[0]);
      assert Entry(Costs(p), a) == ObjectCost(p, a);
    }
  }

  /** No address is asked for twice. */
  lemma AskedOnce(cfg: Config, c: CollectorState)
    requires cfg.Valid() && CollectorModel.Inv(c) && Talks(cfg, c) && !c.phase.Failed?
    ensures Distinct(AllOf(c.requests))
    ensures AllBelow(c.work.scheduled) ==> AllWide(AllOf(c.requests))
  {
    hide Reachable, Addresses, Said, Sized, AllOf;
    var asked := AllOf(c.requests);
    var w, f, p := Addresses(c.written), InFlight(c), c.work.pending;
    assert multiset(asked) == multiset(w) + multiset(f);
    OnceEach(asked, p, c.work.scheduled);
    forall i | 0 <= i < |asked| && AllBelow(c.work.scheduled) ensures ArtifactEncoding.Wide(asked[i]) {
      assert asked[i] in multiset(asked);
      assert asked[i] in multiset(c.work.scheduled);
    }
  }

  lemma OnceEach(asked: seq<Address>, others: seq<Address>, scheduled: set<Address>)
    requires multiset(asked) + multiset(others) == multiset(scheduled)
    ensures Distinct(asked)
  {
    forall i, j | 0 <= i < j < |asked| ensures asked[i] != asked[j] {
      var front, back := asked[..j], asked[j..];
      assert asked == front + back;
      assert multiset(asked) == multiset(front) + multiset(back);
      assert front[i] in multiset(front) && back[0] in multiset(back);
      assert (multiset(asked) + multiset(others))[asked[i]] <= 1;
    }
  }

  /** What a step can do to the requests. */
  lemma StepAsks(cfg: Config, c: CollectorState, m: Message, c': CollectorState)
    requires cfg.Valid() && Step(cfg, c, m, c') && !c'.phase.Failed?
    ensures c'.sent == c.sent ==> c'.requests == c.requests && !c.phase.AwaitHello?
    ensures c'.sent == c.sent ==> !c'.phase.AwaitHello? && (c.phase.AwaitComplete? ==> c'.phase.Finished?)
    ensures c'.sent != c.sent ==> !c.phase.AwaitComplete? && !c.phase.Finished?
    ensures c'.sent != c.sent && c'.phase.AwaitObject? ==>
              c'.requests == c.requests + [InFlight(c')] && !c.phase.AwaitHello?
    ensures c'.sent != c.sent && !c'.phase.AwaitObject? ==> c'.requests == c.requests
    ensures c'.sent != c.sent && c'.phase.AwaitWellKnown? ==> c.phase.AwaitHello?
    ensures c'.sent != c.sent && c.phase.AwaitHello? ==> c'.phase.AwaitWellKnown?
  {
    hide Schedule, FitsObject, ParseObject, WellKnownTypes, DecodeAddresses, Popped, AcceptHello, EncodeOptions,
         ContentEdges, Enumerates, CanFinish, Request, NextRequest;
    NextRequestAsks(cfg, c);
    NextRequestAsks(cfg, c.(work := Schedule(c.work, c.wellKnown),
                            types := if |c.wellKnown| == |ArtifactRoundTrip.WELL_KNOWN_TYPE_NAMES|
                                     then WellKnownTypes(c.wellKnown) else c.types));
  }

  lemma NextRequestAsks(cfg: Config, c: CollectorState)
    requires cfg.Valid()
    ensures var c' := NextRequest(cfg, c);
            || c'.phase.Failed?
            || (c'.phase.AwaitComplete? && c'.requests == c.requests && c'.sent != c.sent)
            || (c'.phase.AwaitObject? && c'.requests == c.requests + [InFlight(c')] && c'.sent != c.sent)
  {
    hide Popped, Request;
    var pending := c.work.pending;
    if pending != [] {
      var n := if cfg.batchSize < |pending| then cfg.batchSize else |pending|;
      PoppedAll(pending, n);
      var batch := Popped(pending, n);
      assert batch == [batch[0]] + batch[1..];
    }
  }

  lemma DistinctParts(a: seq<Address>, b: seq<Address>)
    requires Distinct(a + b)
    ensures Distinct(b) && Artifact.SetOf(a) !! Artifact.SetOf(b)
  {
    forall i, j | 0 <= i < j < |b| ensures b[i] != b[j] {
      assert (a + b)[|a| + i] == b[i] && (a + b)[|a| + j] == b[j];
    }
    forall i, j | 0 <= i < |a| && 0 <= j < |b| ensures a[i] != b[j] {
      assert (a + b)[i] == a[i] && (a + b)[|a| + j] == b[j];
    }
  }

  /** Asking for a batch uses up what was set aside for it. */
  lemma AskingCosts(st: Setting, asked: seq<Address>, batch: seq<Address>)
    requires Distinct(asked + batch) && AllWide(asked + batch)
    ensures SumOver(Costs(st.process), Below(U64) - Artifact.SetOf(asked)) ==
            SumOver(Costs(st.process), Below(U64) - Artifact.SetOf(asked + batch)) +
            4 * |AnswerRecords(st.process, batch)| + 6 * |batch|
  {
    hide SumOver, Costs;
    var before, after, now :=
      Below(U64) - Artifact.SetOf(asked), Below(U64) - Artifact.SetOf(asked + batch), Artifact.SetOf(batch);
    DistinctParts(asked, batch);
    forall i | 0 <= i < |batch| ensures ArtifactEncoding.Wide(batch[i]) {
      assert (asked + batch)[|asked| + i] == batch[i];
    }
    forall a | a in now ensures a in Below(U64) && a !in Artifact.SetOf(asked) {
      var i :| 0 <= i < |batch| && batch[i] == a;
      assert ArtifactEncoding.Wide(batch[i]);
    }
    assert before == after + now;
    SumUnion(Costs(st.process), after, now);
    CostOfBatch(st.process, batch);
  }

  lemma ExpectedAnswer(st: Setting, c: CollectorState)
    requires Fair(st) && c.phase.AwaitObject? && c.phase.seen == []
    ensures |Expected(st, c)| == |AnswerRecords(st.process, InFlight(c))| + 1
  {
    hide ObjectRecords, Readable, AcceptHello;
    var batch := [c.phase.expected] + c.phase.remaining;
    assert batch[1..] == c.phase.remaining;
    assert Rest(st, [], c.phase.expected) == ObjectRecords(st.process.objectAt(c.phase.expected));
  }

  /** Whatever the Collector says was set aside before. */
  lemma AheadPays(st: Setting, c: CollectorState, m: Message, c': CollectorState)
    requires Fair(st) && Step(st.cfg, c, m, c') && !c'.phase.Failed?
    requires CollectorModel.Inv(c') && Talks(st.cfg, c') && Honest(st, c')
    ensures c'.sent == c.sent ==> Ahead(st, c') <= Ahead(st, c)
    ensures c'.sent != c.sent && JustSaid(st, c') ==>
              Ahead(st, c') + 1 + 4 * |Expected(st, c')| <= Ahead(st, c)
  {
    hide Step, CollectorModel.Inv, Talks, SumOver, Costs, Readable, AcceptHello, ObjectRecords, AddressRecords,
         AnswerRecords, Exact, Request, EncodeAddresses;
    StepAsks(st.cfg, c, m, c');
    NotFailedWhenMoving(st.cfg, c, m, c');
    if c'.sent != c.sent && c'.phase.AwaitObject? {
      AskedOnce(st.cfg, c');
      AllOfNext(c.requests, InFlight(c'));
      AskingCosts(st, AllOf(c.requests), InFlight(c'));
      if c'.phase.seen == [] {
        ExpectedAnswer(st, c');
      }
    }
  }

  lemma CollectorDrops(st: Setting, s: State, s': State)
    requires SessionInv(st, s) && CollectorMoves(st, s, s')
    ensures AllLegal(s'.toCollector) && Measure(st, s') < Measure(st, s)
  {
    CollectorStepIs(st, s, s');
    CollectorKeepsInv(st, s, s');
    var c, c' := s.collector, s'.collector;
    var m := Expected(st, c)[0];
    TakingShrinks(s, m, s'.inbox, s'.toCollector);
    StepSends(st.cfg, c, m, c');
    CollectorTakes(st, c, c');
    if c'.phase.Failed? {
      FailedIsFree(st, c');
    } else {
      AheadPays(st, c, m, c');
    }
    hide Step, Honest, CollectorModel.Inv, Talks, Expected, HasSaid, Fair, Queue, Receives, Sound, AllLegal, Ahead, Flatten;
    if !c'.phase.Failed? && c'.sent != c.sent {
      assert s'.toAgent == [c'.sent[|c'.sent| - 1]];
    }
  }

  lemma FailedIsFree(st: Setting, c: CollectorState)
    requires c.phase.Failed?
    ensures Ahead(st, c) == 0
  {
  }

  /** Every step of either side brings the session nearer to its end. */
  lemma MovesDrop(st: Setting, s: State, s': State)
    requires SessionInv(st, s) && Moves(st, s, s')
    ensures AllLegal(s'.toCollector) && Measure(st, s') < Measure(st, s)
  {
    hide SessionInv, AgentMoves, CollectorMoves, Measure;
    if AgentMoves(st, s, s') {
      if s.agent.todo != [] {
        SendingDrops(st, s, s');
      } else {
        ReceivingDrops(st, s, s');
      }
    } else {
      CollectorDrops(st, s, s');
    }
  }

  // ---------------------------------------------------------------- whole runs

  ghost predicate Run(st: Setting, trace: seq<State>)
    requires Fair(st)
  {
    && trace != [] && trace[0] == Start(st)
    && forall i, j | 0 <= i && j == i + 1 < |trace| :: Moves(st, trace[i], trace[j])
  }

  lemma {:induction false} RunsKeepSessionInv(st: Setting, trace: seq<State>, i: nat)
    requires Fair(st) && Run(st, trace) && i < |trace|
    ensures SessionInv(st, trace[i]) && AllLegal(trace[i].toCollector)
    ensures AllLegal(Start(st).toCollector) && Measure(st, trace[i]) + i <= Measure(st, Start(st))
    decreases i
  {
    hide SessionInv, Measure, Start, Fair, Moves;
    StartKeepsInv(st);
    InvIsLegal(st, Start(st));
    if i > 0 {
      RunsKeepSessionInv(st, trace, i - 1);
      MovesKeepInv(st, trace[i - 1], trace[i]);
      MovesDrop(st, trace[i - 1], trace[i]);
    }
  }

  lemma InvIsLegal(st: Setting, s: State)
    requires SessionInv(st, s)
    ensures AllLegal(s.toCollector)
  {
  }

  /** At most one direction carries anything. */
  ghost predicate OneDirection(s: State) {
    || s.toAgent == []
    || (s.toCollector == [] && s.inbox == [] && s.agent.buffer == [] && s.agent.todo == [])
  }

  /**
   * Every state of every run: at most one direction is in use, the Collector has failed at most because an
   * object or the whole capture is too large for the artifact format, every object written so far is the one
   * in the process, and until the Collector's end somebody can move.
   */
  lemma SessionIsSafe(st: Setting, trace: seq<State>, i: nat)
    requires Fair(st) && Run(st, trace) && i < |trace|
    ensures OneDirection(trace[i])
    ensures trace[i].collector.phase.Failed? ==> trace[i].collector.phase.problem == WriterFailed
    ensures Exact(st, trace[i].collector.written)
    ensures !Ended(trace[i]) ==> exists s' :: Moves(st, trace[i], s')
  {
    hide Run, Start, CollectorModel.Inv, Talks, Readable, AcceptHello, Expected, HasSaid, Measure, Moves, Fair, Exact;
    RunsKeepSessionInv(st, trace, i);
    var s := trace[i];
    if s.toAgent != [] {
      NothingQueued(s);
    }
    if !Ended(s) {
      SomebodyMoves(st, s);
    }
  }

  lemma FairIsValid(st: Setting)
    requires Fair(st)
    ensures st.cfg.Valid()
  {
  }

  /** The room of the buffer that the Agent has the next frame read into. */
  function Room(phase: AgentPhase): nat {
    if phase == AwaitAck then OPTIONS_SIZE else MAX_PAYLOAD
  }

  /** In every state of every run, the frame on its way to the Agent fits the buffer that the Agent has for it. */
  lemma FramesFitTheirBuffers(st: Setting, trace: seq<State>, i: nat, behind: Octets)
    requires Fair(st) && Run(st, trace) && i < |trace| && trace[i].toAgent != []
    ensures var m := trace[i].toAgent[0];
            AgentFrame(WireBytes(m) + behind, Room(trace[i].agent.phase)) == Whole(Code(m.kind), m.payload, behind)
  {
    hide Run, CollectorModel.Inv, Talks, Readable, AcceptHello, Expected, Measure, Moves, Fair, Exact, AgentFrame, WireBytes,
         Queue, Ack, NextWire, Sound, AllLegal;
    RunsKeepSessionInv(st, trace, i);
    FairIsValid(st);
    AckSize(st.cfg);
    var m := trace[i].toAgent[0];
    AgentFrameIs(WireBytes(m) + behind, Room(trace[i].agent.phase), m, behind);
    NextWireInverse(WireBytes(m) + behind, m, behind);
  }

  /** No run goes on for longer than the measure of its start. */
  lemma SessionEnds(st: Setting, trace: seq<State>)
    requires Fair(st) && Run(st, trace)
    ensures AllLegal(Start(st).toCollector) && |trace| <= Measure(st, Start(st)) + 1
  {
    hide SessionInv, Measure, Start, Fair, Run;
    NotEmpty(st, trace);
    RunsKeepSessionInv(st, trace, |trace| - 1);
  }

  lemma NotEmpty(st: Setting, trace: seq<State>)
    requires Fair(st) && Run(st, trace)
    ensures trace != []
  {
  }

  /** Before a batch is done, every object asked for has been written, in the order of the requests. */
  lemma BatchIsAnswered(st: Setting, trace: seq<State>, i: nat)
    requires Fair(st) && Run(st, trace) && i < |trace|
    requires trace[i].collector.phase.AwaitBatchDone? || trace[i].collector.phase.AwaitComplete? ||
             trace[i].collector.phase.Finished?
    ensures AllOf(trace[i].collector.requests) == Addresses(trace[i].collector.written)
  {
    hide Run, Start, CollectorModel.Inv, Readable, AcceptHello, Expected, HasSaid, Measure, Moves, Fair, Honest, Channel,
         Sound, Addresses, AllOf;
    RunsKeepSessionInv(st, trace, i);
    assert Addresses(trace[i].collector.written) + [] == Addresses(trace[i].collector.written);
  }

  /**
   * A finished session: nothing is left on the way, the Agent is done, and what was written is exactly what
   * is reachable in the process from its roots and the well-known types, each object once and as it is.
   */
  lemma SessionDelivers(st: Setting, trace: seq<State>, i: nat)
    requires Fair(st) && Run(st, trace) && i < |trace| && trace[i].collector.phase.Finished?
    ensures trace[i].toAgent == [] && trace[i].toCollector == [] && trace[i].inbox == []
    ensures trace[i].agent == AgentState([], [], Over)
    ensures trace[i].collector.roots == st.process.roots && trace[i].collector.wellKnown == st.process.wellKnown
    ensures WrittenIsReachable(trace[i].collector) && Exact(st, trace[i].collector.written)
  {
    hide Run, Start, Readable, AcceptHello, Measure, Moves, Fair, WrittenIsReachable, Exact, Talks;
    RunsKeepSessionInv(st, trace, i);
    FinishedIsReachable(trace[i].collector);
    hide CollectorModel.Inv;
    NothingQueued(trace[i]);
  }

  // ---------------------------------------------------------------- the Collector's own run

  /** The Collector of a session is the machine on some messages: all that is known of its runs holds here. */
  lemma {:induction false} CollectorHasRun(st: Setting, trace: seq<State>, i: nat) returns (messages: seq<Message>)
    requires Fair(st) && Run(st, trace) && i < |trace|
    ensures Runs(st.cfg, messages, trace[i].collector)
    decreases i
  {
    hide Runs, AgentMoves, Receives, Step, Readable, AcceptHello;
    if i == 0 {
      messages := [];
      Collector.RunsNothing(st.cfg);
    } else {
      messages := CollectorHasRun(st, trace, i - 1);
      var s, s' := trace[i - 1], trace[i];
      assert Moves(st, s, s');
      if AgentMoves(st, s, s') {
        AgentLeavesCollector(st, s, s');
      } else {
        var m :| Receives(s, m, s'.inbox, s'.toCollector) && Step(st.cfg, s.collector, m, s'.collector);
        RunsMore(st.cfg, messages, s.collector, m, s'.collector);
        messages := messages + [m];
      }
    }
  }

  lemma AgentLeavesCollector(st: Setting, s: State, s': State)
    requires AgentMoves(st, s, s')
    ensures s'.collector == s.collector
  {
    hide RecordsBytes, OnFrame;
  }

  lemma RunOf(st: Setting, trace: seq<State>, i: nat) returns (messages: seq<Message>)
    requires Fair(st) && Run(st, trace) && i < |trace|
    ensures st.cfg.Valid() && Runs(st.cfg, messages, trace[i].collector)
  {
    hide Runs, Run;
    messages := CollectorHasRun(st, trace, i);
  }
}
