/**
 * The Agent of the composed session against the Agent's own session: in every state of every run, the machine has
 * sent, frame for frame, what the program sends when it hears the same.
 */
module AgentMachine {
  import opened GraphTheory
  import opened Bytes
  import opened Protocol
  import opened Framing
  import opened Handshake
  import opened ObjectStream
  import opened ArtifactEncoding
  import opened AgentBuffers
  import opened AgentSession
  import opened CollectorModel
  import opened Session
  import opened SessionRuns
  import opened SessionBytes
  import Collector

  /** The frames that messages still to be sent leave in, behind what is buffered. */
  function Remaining(buffer: seq<Message>, todo: seq<Out>): seq<Message>
    decreases |todo|
  {
    if todo == [] then []
    else
      var m := todo[0].m;
      if todo[0].Record? then GatherOne(buffer, m).0 + Remaining(GatherOne(buffer, m).1, todo[1..])
      else FlushFrames(buffer) + [m] + Remaining([], todo[1..])
  }

  /** What is on its way and what is still to be sent, all in frames. */
  function Outgoing(s: State): seq<Message> {
    s.toCollector + Remaining(s.agent.buffer, s.agent.todo)
  }

  /** Each sending step of the machine is a step of the buffer. */
  lemma SendingIsGathering(st: Setting, s: State, s': State)
    requires s.agent.todo != [] && AgentMoves(st, s, s')
    ensures Outgoing(s') == Outgoing(s)
  {
    hide Remaining, GatherOne, RecordsBytes;
    var a := s.agent;
    var m, rest := a.todo[0].m, a.todo[1..];
    NoRecordBytes();
    if s' == Flushed(s) {
      assert a.buffer != [];
      FlushedFirst(a.buffer, a.todo);
    } else if a.todo[0].Record? {
      RecordGoes(a.buffer, m, a.todo);
    } else {
      FrameGoes(m, a.todo);
    }
  }

  /** A record joins the buffer, or leaves by itself. */
  lemma RecordGoes(buffer: seq<Message>, m: Message, todo: seq<Out>)
    requires todo != [] && todo[0] == Record(m)
    requires Size(m) > BULK_PAYLOAD_SIZE ==> buffer == []
    requires Size(m) <= BULK_PAYLOAD_SIZE ==> |RecordsBytes(buffer)| + Size(m) <= BULK_PAYLOAD_SIZE
    ensures Remaining(buffer, todo) ==
            if Size(m) > BULK_PAYLOAD_SIZE then [Batch([m])] + Remaining([], todo[1..])
            else Remaining(buffer + [m], todo[1..])
  {
    hide RecordsBytes;
    NoRecordBytes();
    assert Remaining(buffer, todo) == GatherOne(buffer, m).0 + Remaining(GatherOne(buffer, m).1, todo[1..]);
  }

  lemma FrameGoes(m: Message, todo: seq<Out>)
    requires todo != [] && todo[0] == Direct(m)
    ensures Remaining([], todo) == [m] + Remaining([], todo[1..])
  {
    hide GatherOne;
    var rest := todo[1..];
    assert FlushFrames([]) == [];
    assert Remaining([], todo) == [] + [m] + Remaining([], rest);
  }

  lemma FlushedFirst(buffer: seq<Message>, todo: seq<Out>)
    requires buffer != [] && todo != []
    requires todo[0].Record? ==>
               Size(todo[0].m) > BULK_PAYLOAD_SIZE || |RecordsBytes(buffer)| + Size(todo[0].m) > BULK_PAYLOAD_SIZE
    ensures Remaining(buffer, todo) == [Batch(buffer)] + Remaining([], todo)
  {
    hide RecordsBytes;
    NoRecordBytes();
    var m, rest := todo[0].m, todo[1..];
    if todo[0].Record? {
      assert [] + [m] == [m];
    }
  }

  lemma {:induction false} RemainingRecords(buffer: seq<Message>, records: seq<Message>, last: Message)
    ensures Remaining(buffer, Records(records) + [Direct(last)]) ==
            Gathered(buffer, records).0 + FlushFrames(Gathered(buffer, records).1) + [last]
    decreases |records|
  {
    hide GatherOne, FlushFrames;
    var todo := Records(records) + [Direct(last)];
    if records == [] {
      assert todo[1..] == [];
    } else {
      var one := GatherOne(buffer, records[0]);
      assert todo[1..] == Records(records[1..]) + [Direct(last)];
      RemainingRecords(one.1, records[1..], last);
    }
  }

  /** One answer, in the frames in which the program sends it. */
  lemma RemainingGathered(records: seq<Message>, last: Message)
    ensures Remaining([], Records(records) + [Direct(last)]) == Gather(records) + [last]
  {
    RemainingRecords([], records, last);
  }

  lemma RemainingDirect(m: Message, todo: seq<Out>)
    ensures Remaining([], [Direct(m)] + todo) == [m] + Remaining([], todo)
  {
    assert ([Direct(m)] + todo)[1..] == todo;
  }

  // ---------------------------------------------------------------- what the Agent has heard, and says to that

  datatype Heard = Nothing | Serving(q: seq<seq<Address>>) | Dismissed(q: seq<seq<Address>>)

  ghost function HeardFrames(cfg: Config, h: Heard): seq<Message>
    requires cfg.Valid()
  {
    match h
    case Nothing => []
    case Serving(q) => [Ack(cfg)] + Requests(q)
    case Dismissed(q) => [Ack(cfg)] + Requests(q) + [Message(FINISH, [])]
  }

  function PhaseOf(h: Heard): AgentPhase {
    match h
    case Nothing => AwaitAck
    case Serving(_) => AwaitRequest
    case Dismissed(_) => Over
  }

  /** What the program sends when it hears this, and no more yet. */
  function SentFor(p: Process, hello: Hello, h: Heard): seq<Message>
    requires |hello.nonce| == NONCE_SIZE
  {
    match h
    case Nothing => [Message(HELLO, EncodeHello(hello).value)]
    case Serving(q) => OpeningFrames(p, hello) + AnswersFrames(p, q)
    case Dismissed(q) => SessionFrames(p, hello, q)
  }

  ghost predicate Wide(h: Heard) {
    h.Nothing? || Receivable(h.q)
  }

  lemma OpeningAfterHello(st: Setting)
    requires Fair(st)
    ensures var a := OnFrame(st.process, AwaitAck, Ack(st.cfg));
            && a.phase == AwaitRequest && a.buffer == []
            && SentFor(st.process, st.hello, Nothing) + Remaining([], a.todo) ==
               SentFor(st.process, st.hello, Serving([]))
  {
    hide Readable, AcceptHello, EncodeHello, EncodeAddresses, AddressRecords, Remaining, Gather, Ack;
    var p := st.process;
    AckSize(st.cfg);
    var roots := Records(AddressRecords(ROOT_BATCH, p.roots)) + [Direct(Message(ROOTS_DONE, []))];
    RemainingDirect(Message(WELL_KNOWN, EncodeAddresses(p.wellKnown)), roots);
    RemainingGathered(AddressRecords(ROOT_BATCH, p.roots), Message(ROOTS_DONE, []));
  }

  lemma AnswerAfterRequest(p: Process, hello: Hello, q: seq<seq<Address>>, batch: seq<Address>)
    requires |hello.nonce| == NONCE_SIZE && AllWide(batch)
    ensures var a := OnFrame(p, AwaitRequest, Request(batch));
            && a.phase == AwaitRequest && a.buffer == []
            && SentFor(p, hello, Serving(q)) + Remaining([], a.todo) == SentFor(p, hello, Serving(q + [batch]))
  {
    hide EncodeAddresses, Remaining, Gather, Gathered, AnswerRecords, OpeningFrames, AnswersFrames, Words;
    AddressesInverse(batch, Request(batch).payload);
    RequestSize(batch);
    RemainingGathered(AnswerRecords(p, batch), Message(BATCH_DONE, []));
    AnswersFramesNext(p, q, batch);
    assert OpeningFrames(p, hello) + AnswersFrames(p, q) + AnswerFrames(p, batch) ==
           OpeningFrames(p, hello) + (AnswersFrames(p, q) + AnswerFrames(p, batch));
  }

  lemma CompleteAfterFinish(p: Process, hello: Hello, q: seq<seq<Address>>)
    requires |hello.nonce| == NONCE_SIZE
    ensures var a := OnFrame(p, AwaitRequest, Message(FINISH, []));
            && a.phase == Over && a.buffer == []
            && SentFor(p, hello, Serving(q)) + Remaining([], a.todo) == SentFor(p, hello, Dismissed(q))
  {
    hide OpeningFrames, AnswersFrames;
    RemainingDirect(Message(COMPLETE, []), []);
    var done := [Message(COMPLETE, [])];
    assert [Direct(Message(COMPLETE, []))] + [] == [Direct(Message(COMPLETE, []))];
    assert done + [] == done;
    var opening, answers := OpeningFrames(p, hello), AnswersFrames(p, q);
    assert opening + answers + done == opening + (answers + done);
  }

  /** What the Agent hears in a run, and how what it sends goes on. */
  lemma HearsNext(st: Setting, c: CollectorState, h: Heard, m: Message) returns (h': Heard)
    requires Fair(st) && Honest(st, c) && CollectorModel.Inv(c) && HasSaid(st, c, m) && Wide(h)
    requires PhaseOf(h) == if c.phase.AwaitWellKnown? then AwaitAck else AwaitRequest
    ensures Wide(h') && HeardFrames(st.cfg, h') == HeardFrames(st.cfg, h) + [m]
    ensures var a := OnFrame(st.process, PhaseOf(h), m);
            && a.phase == PhaseOf(h') && a.buffer == []
            && SentFor(st.process, st.hello, h) + Remaining([], a.todo) == SentFor(st.process, st.hello, h')
  {
    hide Readable, AcceptHello, CollectorModel.Inv, Exact, Captured, OnFrame, Remaining, SentFor, Request, Ack, Requests;
    match c.phase
    case AwaitWellKnown =>
      OpeningAfterHello(st);
      h' := Serving([]);
      NoRequestFrames(st.cfg);
    case AwaitObject(seen, expected, remaining) =>
      var batch := [expected] + remaining;
      BatchIsBelow(c);
      AnswerAfterRequest(st.process, st.hello, h.q, batch);
      RequestsNext(h.q, batch);
      h' := Serving(h.q + [batch]);
    case AwaitComplete =>
      CompleteAfterFinish(st.process, st.hello, h.q);
      h' := Dismissed(h.q);
    case _ =>
      h' := h;
  }

  lemma NoRequestFrames(cfg: Config)
    requires cfg.Valid()
    ensures HeardFrames(cfg, Serving([])) == [] + [Ack(cfg)]
  {
  }

  // ---------------------------------------------------------------- every state of every run

  /** The account of a state: what was heard, which frames the Collector took, and the messages it made of them. */
  ghost predicate Accounted(st: Setting, s: State, h: Heard, taken: seq<Message>, messages: seq<Message>)
    requires Fair(st)
  {
    && Wide(h) && s.agent.phase == PhaseOf(h) && s.collector.sent == HeardFrames(st.cfg, h) + s.toAgent
    && AllLegal(taken) && Flatten(taken) == messages + s.inbox && Runs(st.cfg, messages, s.collector)
    && taken + Outgoing(s) == SentFor(st.process, st.hello, h)
  }

  lemma StartAccounted(st: Setting)
    requires Fair(st)
    ensures Accounted(st, Start(st), Nothing, [], [])
  {
    hide Readable, AcceptHello;
    RemainingDirect(Message(HELLO, EncodeHello(st.hello).value), []);
    var s := Start(st);
    assert [Direct(Message(HELLO, EncodeHello(st.hello).value))] + [] == s.agent.todo;
    Collector.RunsNothing(st.cfg);
  }

  lemma SendingAccounted(st: Setting, s: State, s': State, h: Heard, taken: seq<Message>, messages: seq<Message>)
    requires Fair(st) && SessionInv(st, s) && Accounted(st, s, h, taken, messages)
    requires s.agent.todo != [] && AgentMoves(st, s, s')
    ensures Accounted(st, s', h, taken, messages)
  {
    SendingIsGathering(st, s, s');
    SendingKeepsQueue(st, s, s');
    hide AgentMoves, Runs, Flatten, SentFor, Outgoing, HeardFrames, SessionInv, Fair;
  }

  /** Who hears has nothing on the way. */
  lemma HeardIsSaid(st: Setting, s: State)
    requires SessionInv(st, s) && s.toAgent != []
    ensures |s.toAgent| == 1 && HasSaid(st, s.collector, s.toAgent[0])
    ensures Honest(st, s.collector) && CollectorModel.Inv(s.collector)
    ensures s.agent.phase == if s.collector.phase.AwaitWellKnown? then AwaitAck else AwaitRequest
  {
    hide Honest, CollectorModel.Inv, Talks, Expected, HasSaid, Fair, Queue, Sound;
  }

  lemma HearingIs(st: Setting, s: State, s': State)
    requires s.agent.todo == [] && AgentMoves(st, s, s')
    ensures s.toAgent != []
    ensures s' == s.(agent := OnFrame(st.process, s.agent.phase, s.toAgent[0]), toAgent := s.toAgent[1..])
  {
    hide OnFrame;
  }

  lemma HearingAccounted(st: Setting, s: State, s': State, h: Heard, taken: seq<Message>, messages: seq<Message>)
    returns (h': Heard)
    requires Fair(st) && SessionInv(st, s) && Accounted(st, s, h, taken, messages)
    requires s.agent.todo == [] && AgentMoves(st, s, s')
    ensures Accounted(st, s', h', taken, messages)
  {
    hide Runs, Flatten, SentFor, HeardFrames, SessionInv, Fair, OnFrame, HasSaid, Honest, CollectorModel.Inv, AgentMoves,
         Expected, AllLegal, Remaining;
    FairIsValid(st);
    HearingIs(st, s, s');
    ReceivingKeepsChannel(st, s, s');
    HeardIsSaid(st, s);
    h' := HearsNext(st, s.collector, h, s.toAgent[0]);
    assert s.toAgent == [s.toAgent[0]];
    NothingRemains();
    assert taken + [] == taken && s.toAgent + [] == s.toAgent;
    assert HeardFrames(st.cfg, h') + [] == HeardFrames(st.cfg, h');
    assert [] + Remaining([], s'.agent.todo) == Remaining([], s'.agent.todo);
  }

  lemma NothingRemains()
    ensures Remaining([], []) == []
  {
  }

  /** A frame is taken when the inbox has run out. */
  lemma FrameIsTaken(s: State, s': State, m: Message, taken: seq<Message>, messages: seq<Message>)
    returns (taken': seq<Message>)
    requires AllLegal(taken) && Flatten(taken) == messages + s.inbox && Receives(s, m, s'.inbox, s'.toCollector)
    ensures AllLegal(taken') && Flatten(taken') == messages + [m] + s'.inbox
    ensures taken' + s'.toCollector == taken + s.toCollector
  {
    hide Logical, Flatten;
    if s.inbox != [] {
      taken' := taken;
      assert messages + s.inbox == messages + [m] + s'.inbox;
    } else {
      var frame := s.toCollector[0];
      taken' := taken + [frame];
      FlattenOne(frame);
      FlattenAppend(taken, [frame]);
      assert messages + [] == messages;
      assert Logical(frame).value == [m] + s'.inbox;
    }
  }

  lemma TakingAccounted(st: Setting, s: State, s': State, h: Heard, taken: seq<Message>, messages: seq<Message>)
    returns (taken': seq<Message>, messages': seq<Message>)
    requires Fair(st) && SessionInv(st, s) && Accounted(st, s, h, taken, messages) && CollectorMoves(st, s, s')
    ensures Accounted(st, s', h, taken', messages')
  {
    hide Step, Runs, SessionInv, Fair, Expected, CollectorMoves, Receives, Queue, AgentPhaseFor, Accounted, AllLegal;
    FairIsValid(st);
    CollectorStepIs(st, s, s');
    var m := Expected(st, s.collector)[0];
    messages' := messages + [m];
    AccountedRuns(st, s, h, taken, messages);
    RunsMore(st.cfg, messages, s.collector, m, s'.collector);
    taken' := TakenAccounted(st, s, s', m, h, taken, messages);
  }

  lemma AccountedRuns(st: Setting, s: State, h: Heard, taken: seq<Message>, messages: seq<Message>)
    requires Fair(st) && Accounted(st, s, h, taken, messages)
    ensures Runs(st.cfg, messages, s.collector)
  {
  }

  lemma TakenAccounted(st: Setting, s: State, s': State, m: Message, h: Heard, taken: seq<Message>,
                       messages: seq<Message>) returns (taken': seq<Message>)
    requires Fair(st) && Accounted(st, s, h, taken, messages) && Receives(s, m, s'.inbox, s'.toCollector)
    requires s'.agent == s.agent && s.toAgent == [] && s.collector.sent <= s'.collector.sent
    requires s'.toAgent == s'.collector.sent[|s.collector.sent|..]
    requires Runs(st.cfg, messages + [m], s'.collector)
    ensures Accounted(st, s', h, taken', messages + [m])
  {
    hide Runs, SentFor, HeardFrames, Fair, Remaining, Receives, Flatten, AllLegal;
    FairIsValid(st);
    taken' := FrameIsTaken(s, s', m, taken, messages);
    var more := s'.toAgent;
    assert s'.collector.sent == s.collector.sent + more;
    assert s.collector.sent == HeardFrames(st.cfg, h) + [] == HeardFrames(st.cfg, h);
    var rest := Remaining(s.agent.buffer, s.agent.todo);
    assert taken' + (s'.toCollector + rest) == taken' + s'.toCollector + rest;
    assert taken + (s.toCollector + rest) == taken + s.toCollector + rest;
  }

  lemma {:induction false} EveryStateAccounted(st: Setting, trace: seq<State>, i: nat)
    returns (h: Heard, taken: seq<Message>, messages: seq<Message>)
    requires Fair(st) && Run(st, trace) && i < |trace|
    ensures Accounted(st, trace[i], h, taken, messages)
    decreases i
  {
    hide Accounted, SessionInv, AgentMoves, CollectorMoves, Start, Fair, Measure;
    if i == 0 {
      h, taken, messages := Nothing, [], [];
      StartAccounted(st);
    } else {
      h, taken, messages := EveryStateAccounted(st, trace, i - 1);
      FairIsValid(st);
      RunsKeepSessionInv(st, trace, i - 1);
      var s, s' := trace[i - 1], trace[i];
      assert Moves(st, s, s');
      if !AgentMoves(st, s, s') {
        taken, messages := TakingAccounted(st, s, s', h, taken, messages);
      } else if s.agent.todo != [] {
        SendingAccounted(st, s, s', h, taken, messages);
      } else {
        h := HearingAccounted(st, s, s', h, taken, messages);
      }
    }
  }

  lemma GreetingFirst(p: Process, hello: Hello, s: Octets)
    requires |hello.nonce| == NONCE_SIZE
    ensures [Message(HELLO, EncodeHello(hello).value)] <= ProgramFrames(p, hello, s)
  {
    hide EncodeHello, AnswersFrames, RootFrames, Demands, AgentFrame, Acknowledged, ProgramOutcome, LastFrames;
  }

  /** What the program demands of a stream that begins with what the Agent has heard. */
  lemma HeardIsDemanded(cfg: Config, h: Heard, more: Octets)
    requires cfg.Valid() && Wide(h) && !h.Nothing?
    ensures var s := Wire(HeardFrames(cfg, h)) + more;
            && Acknowledged(s).Some? && !ProgramOutcome(s).Overran?
            && Demands(Acknowledged(s).value) ==
               if h.Dismissed? then (h.q, Finishes, more) else DemandsBehind(h.q, Demands(more))
  {
    hide WireBytes, Ack, Demands, Requests, Wire, Acknowledged, ProgramOutcome, Receivable;
    var last := if h.Dismissed? then [Message(FINISH, [])] else [];
    assert HeardFrames(cfg, h) == [Ack(cfg)] + (Requests(h.q) + last);
    WireAppend([Ack(cfg)], Requests(h.q) + last);
    WireAppend(Requests(h.q), last);
    WireOne(Ack(cfg));
    var behind := Wire(last) + more;
    assert Wire(HeardFrames(cfg, h)) + more == WireBytes(Ack(cfg)) + (Wire(Requests(h.q)) + behind);
    AckIsHeard(cfg, Wire(Requests(h.q)) + behind);
    RequestsAreDemanded(h.q, behind);
    if h.Dismissed? {
      WireOne(Message(FINISH, []));
      FinishIsDemanded(more);
      assert h.q + [] == h.q;
    } else {
      assert Wire([]) == [] by {
        NoRequests([]);
        NothingWired();
      }
      assert behind == more;
    }
  }

  lemma NothingWired()
    ensures Wire([]) == []
  {
  }

  /** What the Agent's program sends on a stream begins with what `SentFor` says for the part heard so far. */
  lemma ProgramSends(st: Setting, h: Heard, more: Octets)
    requires Fair(st) && Wide(h)
    ensures SentFor(st.process, st.hello, h) <=
            ProgramFrames(st.process, st.hello, Wire(HeardFrames(st.cfg, h)) + more)
    ensures h.Dismissed? ==>
              SentFor(st.process, st.hello, h) ==
              ProgramFrames(st.process, st.hello, Wire(HeardFrames(st.cfg, h)) + more)
  {
    hide Readable, AcceptHello, HeardFrames, Wire, Demands, Acknowledged, ProgramOutcome, OpeningFrames, AnswersFrames,
         EncodeHello, Receivable;
    var p, hello := st.process, st.hello;
    var s := Wire(HeardFrames(st.cfg, h)) + more;
    if h.Nothing? {
      GreetingFirst(p, hello, s);
    } else {
      HeardIsDemanded(st.cfg, h, more);
      var d := Demands(Acknowledged(s).value);
      if h.Serving? {
        AnswersFramesAppend(p, h.q, Demands(more).0);
        var opening, mine, rest := OpeningFrames(p, hello), AnswersFrames(p, h.q), AnswersFrames(p, Demands(more).0);
        assert opening + (mine + rest + LastFrames(d.1)) == opening + mine + (rest + LastFrames(d.1));
      }
    }
  }

  /** When the Agent hears nothing more, its program gives up, or has finished. */
  lemma ProgramEnds(st: Setting, h: Heard)
    requires Fair(st) && Wide(h)
    ensures ProgramFrames(st.process, st.hello, Wire(HeardFrames(st.cfg, h))) ==
            SentFor(st.process, st.hello, h) + if h.Dismissed? then [] else [Message(ERROR, SESSION_FAILED)]
  {
    hide Readable, AcceptHello, HeardFrames, Wire, Demands, Acknowledged, ProgramOutcome, OpeningFrames, AnswersFrames,
         EncodeHello, Receivable;
    var p, hello := st.process, st.hello;
    NothingIsDemanded();
    NothingWired();
    var s := Wire(HeardFrames(st.cfg, h));
    assert s + [] == s;
    if h.Nothing? {
      NothingHeard(st.cfg);
    } else {
      HeardIsDemanded(st.cfg, h, []);
      if h.Serving? {
        assert h.q + [] == h.q;
        var opening, mine := OpeningFrames(p, hello), AnswersFrames(p, h.q);
        assert opening + (mine + []) == opening + mine;
      }
    }
  }

  lemma NothingHeard(cfg: Config)
    requires cfg.Valid()
    ensures HeardFrames(cfg, Nothing) == []
  {
  }

  /**
   * In every state of every run, the frames that the Collector has taken and those on their way begin what the
   * Agent's program sends on the bytes that the Collector has sent, whatever comes behind them. The Collector has
   * made of them what a receiver makes of such frames. When it has finished, they are all that the program sends.
   */
  lemma AgentSendsAsItsProgram(st: Setting, trace: seq<State>, i: nat, more: Octets)
    returns (h: Heard, taken: seq<Message>, messages: seq<Message>)
    requires Fair(st) && Run(st, trace) && i < |trace|
    ensures trace[i].collector.sent == HeardFrames(st.cfg, h) + trace[i].toAgent
    ensures taken + trace[i].toCollector <= SentFor(st.process, st.hello, h)
    ensures taken + trace[i].toCollector <=
            ProgramFrames(st.process, st.hello, Wire(trace[i].collector.sent) + more)
    ensures AllLegal(taken) && Flatten(taken) == messages + trace[i].inbox
    ensures Runs(st.cfg, messages, trace[i].collector)
    ensures trace[i].collector.phase.Finished? ==>
              && h.Dismissed? && taken == SessionFrames(st.process, st.hello, h.q)
              && taken == ProgramFrames(st.process, st.hello, Wire(trace[i].collector.sent) + more)
  {
    hide Run, Runs, Flatten, Readable, AcceptHello, Remaining, Start, Measure, HeardFrames, SentFor, WrittenIsReachable,
         Exact, ProgramFrames, Wire, Wide, SessionFrames;
    h, taken, messages := EveryStateAccounted(st, trace, i);
    var s := trace[i];
    assert taken + s.toCollector <= taken + Outgoing(s);
    WireAppend(HeardFrames(st.cfg, h), s.toAgent);
    var behind := Wire(s.toAgent) + more;
    assert Wire(s.collector.sent) + more == Wire(HeardFrames(st.cfg, h)) + behind;
    ProgramSends(st, h, behind);
    if s.collector.phase.Finished? {
      SessionDelivers(st, trace, i);
      NothingRemains();
      assert taken + [] == taken;
      SentWhenDismissed(st, h);
    }
  }

  lemma SentWhenDismissed(st: Setting, h: Heard)
    requires Fair(st) && PhaseOf(h) == Over
    ensures h.Dismissed? && SentFor(st.process, st.hello, h) == SessionFrames(st.process, st.hello, h.q)
  {
    hide SessionFrames;
  }

  /** Having heard less, the program has sent a part of what it sends in the whole session. */
  lemma SentIsPrefix(p: Process, hello: Hello, h: Heard, more: seq<seq<Address>>)
    requires |hello.nonce| == NONCE_SIZE
    ensures SentFor(p, hello, h) <=
            SessionFrames(p, hello, if h.Nothing? then more else if h.Serving? then h.q + more else h.q)
  {
    hide EncodeHello, RootFrames, AnswersFrames;
    if h.Serving? {
      AnswersFramesAppend(p, h.q, more);
    }
  }

  lemma {:induction false} AnswersFramesAppend(p: Process, a: seq<seq<Address>>, b: seq<seq<Address>>)
    ensures AnswersFrames(p, a + b) == AnswersFrames(p, a) + AnswersFrames(p, b)
    decreases |a|
  {
    hide AnswerFrames;
    if a == [] {
      assert a + b == b;
    } else {
      AnswersFramesAppend(p, a[1..], b);
      assert (a + b)[1..] == a[1..] + b;
    }
  }
}
