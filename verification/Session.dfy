/**
 * Agent and Collector joined by two byte streams. Both are machines: the Agent has messages to send, which
 * leave as frames or wait in its batch buffer; the Collector takes one message at a time. Any interleaving
 * of their steps is a run.
 */
module Session {
  import opened GraphTheory
  import opened Bytes
  import opened Protocol
  import opened Framing
  import opened Handshake
  import opened ObjectStream
  import opened CaptureModel
  import opened ArtifactEncoding
  import opened AgentBuffers
  import opened AgentSession
  import opened CollectorModel

  /** What the Agent still has to send: records go through the batch buffer, frames go out behind it. */
  datatype Out = Record(m: Message) | Direct(m: Message)

  datatype AgentPhase = AwaitAck | AwaitRequest | Over

  datatype AgentState = AgentState(todo: seq<Out>, buffer: seq<Message>, phase: AgentPhase)

  datatype State = State(agent: AgentState, toCollector: seq<Message>, toAgent: seq<Message>, inbox: seq<Message>,
                         collector: CollectorState)

  datatype Setting = Setting(process: Process, hello: Hello, cfg: Config)

  /** A readable process, an Agent of a supported Python in the Collector's session, and requests that fit a frame. */
  ghost predicate Fair(st: Setting) {
    && Readable(st.process) && st.cfg.Valid()
    && |st.hello.nonce| == NONCE_SIZE && AcceptHello(EncodeHello(st.hello).value, st.cfg.nonce).Ok?
    && ADDRESS_SIZE * st.cfg.batchSize <= MAX_PAYLOAD
  }

  function Records(messages: seq<Message>): seq<Out> {
    seq(|messages|, i requires 0 <= i < |messages| => Record(messages[i]))
  }

  function Messages(todo: seq<Out>): seq<Message> {
    seq(|todo|, i requires 0 <= i < |todo| => todo[i].m)
  }

  ghost function Start(st: Setting): State
    requires Fair(st)
  {
    State(AgentState([Direct(Message(HELLO, EncodeHello(st.hello).value))], [], AwaitAck), [], [], [], Initial())
  }

  /** What the Agent does on a frame from the Collector, which fits its buffer in every run (`FramesFitTheirBuffers`). */
  function OnFrame(p: Process, phase: AgentPhase, m: Message): AgentState {
    if phase == AwaitAck then
      if m.kind == HELLO_ACK && |m.payload| == OPTIONS_SIZE then
        AgentState([Direct(Message(WELL_KNOWN, EncodeAddresses(p.wellKnown)))] +
                     (Records(AddressRecords(ROOT_BATCH, p.roots)) + [Direct(Message(ROOTS_DONE, []))]),
                   [], AwaitRequest)
      else AgentState([Direct(Message(ERROR, SESSION_FAILED))], [], Over)
    else if m == Message(FINISH, []) then AgentState([Direct(Message(COMPLETE, []))], [], Over)
    else if m.kind == REQUEST_OBJECTS && |m.payload| % ADDRESS_SIZE == 0 then
      AgentState(Records(AnswerRecords(p, Words(m.payload))) + [Direct(Message(BATCH_DONE, []))], [], AwaitRequest)
    else AgentState([Direct(Message(ERROR, EXPECTED_REQUEST)), Direct(Message(ERROR, SESSION_FAILED))], [], Over)
  }

  /** The buffer goes out. */
  function Flushed(s: State): State {
    s.(agent := s.agent.(buffer := []), toCollector := s.toCollector + [Batch(s.agent.buffer)])
  }

  /** The Agent's step: it sends or buffers the next message, or else takes a frame. */
  ghost predicate AgentMoves(st: Setting, s: State, s': State) {
    var a := s.agent;
    if a.todo != [] then
      var m, rest := a.todo[0].m, a.todo[1..];
      if a.todo[0].Record? && Size(m) <= BULK_PAYLOAD_SIZE then
        if |RecordsBytes(a.buffer)| + Size(m) > BULK_PAYLOAD_SIZE then s' == Flushed(s)
        else s' == s.(agent := a.(todo := rest, buffer := a.buffer + [m]))
      else if a.buffer != [] then s' == Flushed(s)
      else if a.todo[0].Record? then s' == s.(agent := a.(todo := rest), toCollector := s.toCollector + [Batch([m])])
      else s' == s.(agent := a.(todo := rest), toCollector := s.toCollector + [m])
    else
      && a.phase != Over && s.toAgent != []
      && s' == s.(agent := OnFrame(st.process, a.phase, s.toAgent[0]), toAgent := s.toAgent[1..])
  }

  /** The message the Collector's next receive gives, and what is left of its inbox and of the stream. */
  ghost predicate Receives(s: State, m: Message, inbox: seq<Message>, toCollector: seq<Message>) {
    if s.inbox != [] then m == s.inbox[0] && inbox == s.inbox[1..] && toCollector == s.toCollector
    else
      && s.toCollector != [] && Legal(s.toCollector[0])
      && m == Logical(s.toCollector[0]).value[0] && inbox == Logical(s.toCollector[0]).value[1..]
      && toCollector == s.toCollector[1..]
  }

  /** The Collector's step: it takes a message, and whatever it says is on its way to the Agent. */
  ghost predicate CollectorMoves(st: Setting, s: State, s': State)
    requires st.cfg.Valid()
  {
    exists m ::
      && Receives(s, m, s'.inbox, s'.toCollector) && Step(st.cfg, s.collector, m, s'.collector)
      && s.collector.sent <= s'.collector.sent
      && s' == s.(inbox := s'.inbox, toCollector := s'.toCollector, collector := s'.collector,
                  toAgent := s.toAgent + s'.collector.sent[|s.collector.sent|..])
  }

  ghost predicate Moves(st: Setting, s: State, s': State)
    requires st.cfg.Valid()
  {
    AgentMoves(st, s, s') || CollectorMoves(st, s, s')
  }

  // ---------------------------------------------------------------- the messages on their way

  ghost predicate SoundRecord(m: Message) {
    IsBulkRecord(m.kind) && Size(m) <= MAX_PAYLOAD
  }

  ghost predicate SoundOut(o: Out) {
    if o.Record? then SoundRecord(o.m) else o.m.kind != BULK_BATCH && |o.m.payload| <= MAX_PAYLOAD
  }

  ghost predicate SoundRecords(records: seq<Message>) {
    forall i | 0 <= i < |records| :: SoundRecord(records[i])
  }

  /** The Agent's buffer holds records within 32 KiB, and every frame on its way is legal. */
  ghost predicate Sound(s: State) {
    && (forall i | 0 <= i < |s.agent.todo| :: SoundOut(s.agent.todo[i]))
    && SoundRecords(s.agent.buffer) && |RecordsBytes(s.agent.buffer)| <= BULK_PAYLOAD_SIZE
    && AllLegal(s.toCollector)
    && (s.agent.todo != [] ==> s.agent.todo[|s.agent.todo| - 1].Direct?)
    && (s.agent.buffer != [] ==> s.agent.todo != [])
  }

  /** All that the Collector has yet to take before the Agent hears from it again. */
  ghost function Queue(s: State): seq<Message>
    requires AllLegal(s.toCollector)
  {
    s.inbox + (Flatten(s.toCollector) + (s.agent.buffer + Messages(s.agent.todo)))
  }

  lemma SoundAreBulk(records: seq<Message>)
    requires SoundRecords(records)
    ensures BulkRecords(records)
  {
    Powers();
    forall i | 0 <= i < |records| ensures IsBulkRecord(records[i].kind) && |records[i].payload| < Pow256(4) {
      assert SoundRecord(records[i]);
    }
  }

  lemma BatchIsLegal(records: seq<Message>)
    requires SoundRecords(records) && records != [] && |RecordsBytes(records)| <= MAX_PAYLOAD
    ensures Legal(Batch(records)) && Logical(Batch(records)) == Ok(records)
  {
    hide RecordsBytes, SoundRecords;
    SoundAreBulk(records);
    BulkInverse(records, RecordsBytes(records));
  }

  lemma FlattenOne(m: Message)
    requires Legal(m)
    ensures AllLegal([m]) && Flatten([m]) == Logical(m).value
  {
    assert [m][1..] == [];
  }

  lemma OneRecordSize(m: Message)
    ensures |RecordsBytes([m])| == Size(m)
  {
    RecordsBytesOne(m);
  }

  lemma MessagesNext(todo: seq<Out>)
    requires todo != []
    ensures Messages(todo) == [todo[0].m] + Messages(todo[1..])
  {
  }

  /** The Agent's sending steps neither lose nor reorder anything. */
  lemma SendingKeepsQueue(st: Setting, s: State, s': State)
    requires Sound(s) && s.agent.todo != [] && AgentMoves(st, s, s')
    ensures Sound(s') && Queue(s') == Queue(s)
    ensures s'.inbox == s.inbox && s'.toAgent == s.toAgent && s'.collector == s.collector && s'.agent.phase == s.agent.phase
  {
    hide RecordsBytes, Logical, Messages, Flatten;
    var a := s.agent;
    var m, rest := a.todo[0].m, a.todo[1..];
    assert SoundOut(a.todo[0]);
    MessagesNext(a.todo);
    NoRecordBytes();
    if s'.agent.buffer == a.buffer + [m] && s'.agent.todo == rest {
      RecordsBytesAppend(a.buffer, [m]);
      OneRecordSize(m);
      assert s.agent.buffer + Messages(a.todo) == s'.agent.buffer + Messages(rest);
    } else if s' == Flushed(s) {
      FlushKeeps(s);
    } else {
      var frame := s'.toCollector[|s.toCollector|];
      if a.todo[0].Record? {
        OneRecordSize(m);
        BatchIsLegal([m]);
      } else {
        assert Logical(m) == Ok([m]) by {
          PlainIsLogical(m);
        }
      }
      FlattenOne(frame);
      FlattenAppend(s.toCollector, [frame]);
      assert Flatten(s'.toCollector) == Flatten(s.toCollector) + [m];
      assert Flatten(s.toCollector) + ([] + ([m] + Messages(rest))) == Flatten(s.toCollector) + [m] + ([] + Messages(rest));
    }
  }

  lemma PlainIsLogical(m: Message)
    requires m.kind != BULK_BATCH
    ensures Logical(m) == Ok([m])
  {
  }

  lemma FlushKeeps(s: State)
    requires Sound(s) && s.agent.buffer != []
    ensures Sound(Flushed(s)) && Queue(Flushed(s)) == Queue(s)
  {
    hide RecordsBytes, Logical, Messages, Flatten, SoundOut;
    var buffer := s.agent.buffer;
    BatchIsLegal(buffer);
    FlattenOne(Batch(buffer));
    FlattenAppend(s.toCollector, [Batch(buffer)]);
    assert |RecordsBytes([])| == 0 by {
      NoRecordBytes();
    }
    assert Flatten(s.toCollector) + buffer + ([] + Messages(s.agent.todo)) ==
           Flatten(s.toCollector) + (buffer + Messages(s.agent.todo));
  }

  lemma NoRecordBytes()
    ensures RecordsBytes([]) == []
  {
  }

  /** The Collector takes the front of the queue. */
  lemma ReceivingTakesFront(s: State, m: Message, inbox: seq<Message>, toCollector: seq<Message>)
    requires Sound(s) && Receives(s, m, inbox, toCollector)
    ensures AllLegal(toCollector)
    ensures Queue(s) == [m] + Queue(s.(inbox := inbox, toCollector := toCollector))
  {
    hide Logical, Messages;
    var rest := s.agent.buffer + Messages(s.agent.todo);
    if s.inbox != [] {
      assert s.inbox + (Flatten(s.toCollector) + rest) == [m] + (inbox + (Flatten(toCollector) + rest));
    } else {
      var records := Logical(s.toCollector[0]).value;
      assert records == [m] + inbox;
      assert Flatten(s.toCollector) == records + Flatten(toCollector);
      assert [] + (Flatten(s.toCollector) + rest) == [m] + (inbox + (Flatten(toCollector) + rest));
    }
  }

  /** As long as anything is on its way, one of the two can move. */
  lemma QueueMoves(st: Setting, s: State)
    requires Sound(s) && Queue(s) != []
    ensures s.agent.todo != [] || exists m, inbox, toCollector :: Receives(s, m, inbox, toCollector)
  {
    hide Logical;
    if s.inbox != [] {
      assert Receives(s, s.inbox[0], s.inbox[1..], s.toCollector);
    } else if s.toCollector != [] {
      var records := Logical(s.toCollector[0]).value;
      assert Receives(s, records[0], records[1..], s.toCollector[1..]);
    }
  }

  // ---------------------------------------------------------------- what the Collector still expects

  ghost function Rest(st: Setting, seen: seq<Message>, expected: Address): seq<Message> {
    var records := ObjectRecords(st.process.objectAt(expected));
    if |seen| <= |records| then records[|seen|..] else []
  }

  /** The messages a Collector in this state takes before it says anything again. */
  ghost function Expected(st: Setting, c: CollectorState): seq<Message>
    requires Fair(st)
  {
    match c.phase
    case AwaitHello => [Message(HELLO, EncodeHello(st.hello).value)]
    case AwaitWellKnown => [Message(WELL_KNOWN, EncodeAddresses(st.process.wellKnown))] + RootMessages(st.process)
    case AwaitRoots =>
      AddressRecords(ROOT_BATCH, if |c.roots| <= |st.process.roots| then st.process.roots[|c.roots|..] else []) +
      [Message(ROOTS_DONE, [])]
    case AwaitObject(seen, expected, remaining) => Rest(st, seen, expected) + Answer(st.process, remaining)
    case AwaitBatchDone => [Message(BATCH_DONE, [])]
    case AwaitComplete => [Message(COMPLETE, [])]
    case Finished => []
    case Failed(_) => []
  }

  ghost function AgentPhaseFor(c: CollectorState): AgentPhase {
    match c.phase
    case AwaitHello => AwaitAck
    case AwaitComplete => Over
    case Finished => Over
    case _ => AwaitRequest
  }

  /** What the Collector has learnt so far is true of the process. */
  ghost predicate Honest(st: Setting, c: CollectorState)
    requires Fair(st)
  {
    var p := st.process;
    && (c.phase.AwaitHello? || c.phase.AwaitWellKnown? ==> c.roots == [])
    && (!c.phase.AwaitHello? && !c.phase.AwaitWellKnown? ==> c.wellKnown == p.wellKnown)
    && c.roots <= p.roots
    && (!c.phase.AwaitHello? && !c.phase.AwaitWellKnown? && !c.phase.AwaitRoots? ==> c.roots == p.roots)
    && (c.phase.AwaitObject? ==> SeenSoFar(st, c.phase.seen, c.phase.expected))
    && Exact(st, c.written)
    && AllBelow(c.work.scheduled)
    && (c.phase.Failed? ==> c.phase.problem == WriterFailed)
  }

  ghost predicate SeenSoFar(st: Setting, seen: seq<Message>, expected: Address) {
    var records := ObjectRecords(st.process.objectAt(expected));
    expected < U64 && seen <= records && |seen| < |records|
  }

  /** Every object written is the one in the process. */
  ghost predicate Exact(st: Setting, written: seq<CapturedObject>) {
    forall i | 0 <= i < |written| :: written[i] == Captured(st.process.objectAt(written[i].address), st.cfg.strReprLen)
  }

  ghost predicate AllBelow(s: set<Address>) {
    forall a | a in s :: a < U64
  }

  /** The Collector in this state has just said `m`. */
  ghost predicate HasSaid(st: Setting, c: CollectorState, m: Message)
    requires Fair(st)
  {
    match c.phase
    case AwaitWellKnown => m == Ack(st.cfg)
    case AwaitObject(seen, expected, remaining) =>
      seen == [] && m == Request([expected] + remaining) && |m.payload| <= MAX_PAYLOAD
    case AwaitComplete => m == Message(FINISH, [])
    case _ => false
  }

  /** Either nothing more is to come, or one more message was said. */
  ghost predicate Taken(st: Setting, c: CollectorState, c': CollectorState)
    requires Fair(st) && Expected(st, c) != []
  {
    || c'.phase.Failed?
    || (c'.sent == c.sent && Expected(st, c') == Expected(st, c)[1..] && AgentPhaseFor(c') == AgentPhaseFor(c))
    || (Expected(st, c)[1..] == [] && JustSaid(st, c') && c'.sent == c.sent + [c'.sent[|c'.sent| - 1]])
  }

  ghost predicate JustSaid(st: Setting, c: CollectorState)
    requires Fair(st)
  {
    c.sent != [] && HasSaid(st, c, c.sent[|c.sent| - 1])
  }

  lemma RequestTakes(st: Setting, c: CollectorState, c0: CollectorState)
    requires Fair(st) && Honest(st, c) && !c.phase.Failed? && InFlight(c) == []
    requires Account(Addresses(c.written), [], c.work.pending, c.work.scheduled)
    requires c.wellKnown == st.process.wellKnown && c.roots == st.process.roots
    requires c0.sent == c.sent && Expected(st, c0) != [] && Expected(st, c0)[1..] == []
    ensures Honest(st, NextRequest(st.cfg, c)) && Taken(st, c0, NextRequest(st.cfg, c))
  {
    hide Popped, ObjectRecords, Captured, Request, Addresses, Expected, Account, Readable;
    var pending := c.work.pending;
    if pending != [] {
      var n := if st.cfg.batchSize < |pending| then st.cfg.batchSize else |pending|;
      PoppedAll(pending, n);
      var batch := Popped(pending, n);
      assert batch == [batch[0]] + batch[1..];
      RequestSize(batch);
      AccountRequest(Addresses(c.written), pending, c.work.scheduled, n);
      AccountWritten(Addresses(c.written), batch[0], batch[1..], pending[..|pending| - n], c.work.scheduled);
      ObjectHasRecords(st.process.objectAt(batch[0]));
    }
  }

  lemma RequestSize(batch: seq<Address>)
    ensures |Request(batch).payload| == ADDRESS_SIZE * |batch|
  {
  }

  lemma ObjectHasRecords(o: AgentObject)
    ensures |ObjectRecords(o)| >= 2
  {
    hide AddressRecords, BeginRecord;
  }

  lemma TakesHello(st: Setting, c: CollectorState, c': CollectorState)
    requires Fair(st) && c.phase.AwaitHello? && Honest(st, c)
    requires Step(st.cfg, c, Expected(st, c)[0], c')
    ensures Honest(st, c') && Taken(st, c, c')
  {
    hide AcceptHello, EncodeHello, EncodeOptions, Captured, Readable;
  }

  lemma TakesWellKnown(st: Setting, c: CollectorState, c': CollectorState)
    requires Fair(st) && c.phase.AwaitWellKnown? && Honest(st, c)
    requires Step(st.cfg, c, Expected(st, c)[0], c')
    ensures Honest(st, c') && Taken(st, c, c')
  {
    hide DecodeAddresses, EncodeAddresses, AddressRecords, Captured, AcceptHello, FitsWire;
    var p := st.process;
    AddressesInverse(p.wellKnown, EncodeAddresses(p.wellKnown));
    assert p.roots[0..] == p.roots;
    assert Expected(st, c)[1..] == RootMessages(p);
  }

  lemma FirstChunk(roots: seq<Address>, k: nat)
    requires k < |roots|
    ensures var rest := roots[k..];
            var chunk := if |rest| <= IO_BATCH then rest else rest[..IO_BATCH];
            && AddressRecords(ROOT_BATCH, rest) ==
               [Message(ROOT_BATCH, EncodeAddresses(chunk))] + AddressRecords(ROOT_BATCH, roots[k + |chunk|..])
            && roots[..k] + chunk == roots[..k + |chunk|]
  {
    hide EncodeAddresses;
    var rest := roots[k..];
    if |rest| > IO_BATCH {
      assert rest[IO_BATCH..] == roots[k + IO_BATCH..];
    } else {
      assert roots[k + |rest|..] == [];
    }
  }

  lemma TakesRoots(st: Setting, c: CollectorState, c': CollectorState)
    requires Fair(st) && c.phase.AwaitRoots? && Honest(st, c) && CollectorModel.Inv(c)
    requires Step(st.cfg, c, Expected(st, c)[0], c')
    ensures Honest(st, c') && Taken(st, c, c')
  {
    hide DecodeAddresses, EncodeAddresses, Captured, AcceptHello, FitsWire, Schedule, NextRequest, WellKnownTypes,
         AddressRecords, Reachable, Account, Balanced;
    var p, k := st.process, |c.roots|;
    if k < |p.roots| {
      FirstChunk(p.roots, k);
      var rest := p.roots[k..];
      var chunk := if |rest| <= IO_BATCH then rest else rest[..IO_BATCH];
      AddressesInverse(chunk, EncodeAddresses(chunk));
      ScheduleAll(c.work, chunk);
      assert c.roots == p.roots[..k];
      assert Expected(st, c)[1..] == AddressRecords(ROOT_BATCH, p.roots[k + |chunk|..]) + [Message(ROOTS_DONE, [])];
    } else {
      assert p.roots[k..] == [];
      assert AddressRecords(ROOT_BATCH, []) == [] by {
        NoAddressRecords();
      }
      ScheduleAll(c.work, c.wellKnown);
      AccountSchedule(Addresses(c.written), [], c.work, Schedule(c.work, c.wellKnown));
      var ready := c.(work := Schedule(c.work, c.wellKnown), types := WellKnownTypes(c.wellKnown));
      RequestTakes(st, ready, c);
    }
  }

  lemma NoAddressRecords()
    ensures AddressRecords(ROOT_BATCH, []) == []
  {
  }

  lemma CapturedBelow(o: AgentObject, strReprLen: int)
    requires FitsWire(o)
    ensures AllBelow(Targets(Captured(o, strReprLen)))
  {
    hide ObjectRecords, Flat;
    var obj := Captured(o, strReprLen);
    forall a | a in ContentEdges(obj) ensures a < U64 {
      if o.contentKind == DICT {
        var i :| 0 <= i < |Flat(o.entries)| && Flat(o.entries)[i] == a;
      } else {
        var i :| 0 <= i < |obj.sequenceContent| && obj.sequenceContent[i] == a;
      }
    }
    forall a | a in obj.referents ensures a < U64 {
      assert a in o.referents;
      var i :| 0 <= i < |o.referents| && o.referents[i] == a;
    }
  }

  /** A whole object of the process parses as that object; any earlier part of it is unfinished. */
  lemma ObjectParses(st: Setting, expected: Address, taken: seq<Message>)
    requires Fair(st) && expected < U64 && taken <= ObjectRecords(st.process.objectAt(expected))
    ensures ParseObject(taken, expected, st.cfg.strReprLen) ==
            if taken == ObjectRecords(st.process.objectAt(expected))
            then Complete(Captured(st.process.objectAt(expected), st.cfg.strReprLen), []) else Unfinished
  {
    hide ParseObject, ObjectRecords, Captured;
    var o := st.process.objectAt(expected);
    ObjectArrives(o, [], st.cfg.strReprLen);
    assert ObjectRecords(o) + [] == ObjectRecords(o);
    if taken != ObjectRecords(o) {
      EarlierUnfinished(ObjectRecords(o), |taken|, expected, st.cfg.strReprLen);
      assert ObjectRecords(o)[..|taken|] == taken;
    }
  }

  lemma CapturedAddress(o: AgentObject, strReprLen: int)
    ensures Captured(o, strReprLen).address == o.address
  {
  }

  lemma {:induction false} AnswersFirst(st: Setting, remaining: seq<Address>)
    requires remaining != []
    ensures Answer(st.process, remaining) ==
            ObjectRecords(st.process.objectAt(remaining[0])) + Answer(st.process, remaining[1..])
  {
    hide ObjectRecords;
  }

  /** The last record of an object leads to the next one, or to the end of the batch. */
  lemma TakesLastRecord(st: Setting, c: CollectorState, order: seq<Address>)
    requires Fair(st) && c.phase.AwaitObject? && Honest(st, c) && CollectorModel.Inv(c)
    requires |Rest(st, c.phase.seen, c.phase.expected)| == 1
    requires Enumerates(order, Captured(st.process.objectAt(c.phase.expected), st.cfg.strReprLen).referents)
    ensures var obj := Captured(st.process.objectAt(c.phase.expected), st.cfg.strReprLen);
            var c' := AfterObject(c, obj, order, c.phase.remaining);
            Honest(st, c') && Taken(st, c, c')
  {
    hide Captured, ObjectRecords, Schedule, Account, Reachable, Readable, Balanced, Targets, ContentEdges, Addresses,
         Answer, AcceptHello;
    var p, expected, remaining := st.process, c.phase.expected, c.phase.remaining;
    var o := p.objectAt(expected);
    var obj := Captured(o, st.cfg.strReprLen);
    var c' := AfterObject(c, obj, order, remaining);
    assert o.address == expected && FitsWire(o) by {
      ProcessObject(p, expected);
    }
    CapturedAddress(o, st.cfg.strReprLen);
    EdgesAreTargets(obj, order);
    CapturedBelow(o, st.cfg.strReprLen);
    ScheduleAll(c.work, order + ContentEdges(obj) + [obj.typeAddress]);
    AccountWritten(Addresses(c.written), expected, remaining, c.work.pending, c.work.scheduled);
    if remaining == [] {
      assert Answer(p, []) == [Message(BATCH_DONE, [])] by {
        NoObjects(p);
      }
    } else {
      AnswersFirst(st, remaining);
      ObjectHasRecords(p.objectAt(remaining[0]));
      NextIsBelow(c, remaining);
      assert Rest(st, [], remaining[0]) == ObjectRecords(p.objectAt(remaining[0]));
    }
    assert (Rest(st, c.phase.seen, expected) + Answer(p, remaining))[1..] == Answer(p, remaining);
  }

  lemma ProcessObject(p: Process, a: Address)
    requires Readable(p) && a < U64
    ensures FitsWire(p.objectAt(a)) && p.objectAt(a).address == a
  {
  }

  lemma NoObjects(p: Process)
    ensures Answer(p, []) == [Message(BATCH_DONE, [])]
  {
    assert [] + [Message(BATCH_DONE, [])] == [Message(BATCH_DONE, [])];
  }

  lemma NextIsBelow(c: CollectorState, remaining: seq<Address>)
    requires c.phase.AwaitObject? && c.phase.remaining == remaining && remaining != []
    requires AllBelow(c.work.scheduled) && CollectorModel.Inv(c)
    ensures remaining[0] < U64
  {
    hide Reachable, Addresses;
    var all := [c.phase.expected] + remaining;
    assert all[1] in multiset(all);
    assert remaining[0] in multiset(c.work.scheduled);
  }

  lemma TakesObject(st: Setting, c: CollectorState, c': CollectorState)
    requires Fair(st) && c.phase.AwaitObject? && Honest(st, c) && CollectorModel.Inv(c)
    requires Expected(st, c) != [] && Step(st.cfg, c, Expected(st, c)[0], c')
    ensures Honest(st, c') && Taken(st, c, c')
  {
    hide ParseObject, Captured, ObjectRecords, AfterObject, FitsObject, Enumerates, Readable, AcceptHello, Answer,
         CollectorModel.Inv, Expected;
    var seen, expected := c.phase.seen, c.phase.expected;
    var records := ObjectRecords(st.process.objectAt(expected));
    ExpectedObject(st, c);
    var m := records[|seen|];
    assert seen == records[..|seen|] && records[..|seen| + 1] == seen + [m];
    ObjectParses(st, expected, seen + [m]);
    if seen + [m] != records {
      ExpectedObject(st, c');
      assert records[|seen|..][1..] == records[|seen| + 1..];
    } else {
      var obj := Captured(st.process.objectAt(expected), st.cfg.strReprLen);
      if FitsObject(obj) {
        var order :| Enumerates(order, obj.referents) && c' == AfterObject(c, obj, order, c.phase.remaining);
        TakesLastRecord(st, c, order);
      }
    }
  }

  lemma ExpectedObject(st: Setting, c: CollectorState)
    requires Fair(st) && c.phase.AwaitObject? && SeenSoFar(st, c.phase.seen, c.phase.expected)
    ensures var records, k := ObjectRecords(st.process.objectAt(c.phase.expected)), |c.phase.seen|;
            && Expected(st, c) == records[k..] + Answer(st.process, c.phase.remaining)
            && Expected(st, c)[0] == records[k]
            && Expected(st, c)[1..] == records[k..][1..] + Answer(st.process, c.phase.remaining)
  {
    hide ObjectRecords, Answer;
  }

  lemma TakesEnd(st: Setting, c: CollectorState, c': CollectorState)
    requires Fair(st) && (c.phase.AwaitBatchDone? || c.phase.AwaitComplete?) && Honest(st, c) && CollectorModel.Inv(c)
    requires Step(st.cfg, c, Expected(st, c)[0], c')
    ensures Honest(st, c') && Taken(st, c, c')
  {
    hide Captured, Readable, AcceptHello, NextRequest, CanFinish, Account, Reachable;
    if c.phase.AwaitBatchDone? {
      RequestTakes(st, c, c);
    }
  }

  /** Whatever the honest Agent sends is what the Collector is waiting for. */
  lemma CollectorTakes(st: Setting, c: CollectorState, c': CollectorState)
    requires Fair(st) && Honest(st, c) && CollectorModel.Inv(c)
    requires Expected(st, c) != [] && Step(st.cfg, c, Expected(st, c)[0], c')
    ensures Honest(st, c') && Taken(st, c, c')
  {
    hide Honest, Taken, Step, CollectorModel.Inv, Fair;
    match c.phase
    case AwaitHello => TakesHello(st, c, c');
    case AwaitWellKnown => TakesWellKnown(st, c, c');
    case AwaitRoots => TakesRoots(st, c, c');
    case AwaitObject(_, _, _) => TakesObject(st, c, c');
    case AwaitBatchDone => TakesEnd(st, c, c');
    case AwaitComplete => TakesEnd(st, c, c');
    case Finished =>
    case Failed(_) =>
  }

  // ---------------------------------------------------------------- the invariant of the session

  /**
   * At most one direction is in use: either the Agent's messages are on their way to a Collector that expects
   * exactly them, or one frame of the Collector is on its way to an Agent with nothing left to send.
   */
  ghost predicate Channel(st: Setting, s: State)
    requires Fair(st) && AllLegal(s.toCollector)
  {
    || (s.toAgent == [] && Queue(s) == Expected(st, s.collector) && s.agent.phase == AgentPhaseFor(s.collector))
    || (Queue(s) == [] && |s.toAgent| == 1 && HasSaid(st, s.collector, s.toAgent[0])
        && s.agent.phase == if s.collector.phase.AwaitWellKnown? then AwaitAck else AwaitRequest)
  }

  ghost predicate SessionInv(st: Setting, s: State) {
    && Fair(st) && Sound(s) && CollectorModel.Inv(s.collector) && Talks(st.cfg, s.collector) && Honest(st, s.collector)
    && if s.collector.phase.Failed? then s.toAgent == [] else Channel(st, s)
  }

  lemma StartKeepsInv(st: Setting)
    requires Fair(st)
    ensures SessionInv(st, Start(st))
  {
    hide AcceptHello, Readable, Captured;
    InitialInv();
    var s := Start(st);
    NoRecordBytes();
    HelloFits(st.hello);
    assert Messages(s.agent.todo) == [Message(HELLO, EncodeHello(st.hello).value)];
    assert Queue(s) == Expected(st, s.collector);
  }

  lemma HelloFits(h: Hello)
    requires |h.nonce| == NONCE_SIZE
    ensures |EncodeHello(h).value| == HELLO_SIZE
  {
  }

  lemma NothingQueued(s: State)
    requires Sound(s) && Queue(s) == []
    ensures s.agent.todo == [] && s.agent.buffer == [] && s.inbox == [] && s.toCollector == []
  {
    hide Logical;
    assert |Messages(s.agent.todo)| == 0 && |Flatten(s.toCollector)| == 0;
  }

  lemma {:induction false} AddressRecordsSound(kind: Kind, addresses: seq<Address>)
    requires IsBulkRecord(kind)
    ensures SoundRecords(AddressRecords(kind, addresses))
    decreases |addresses|
  {
    hide EncodeAddresses;
    if |addresses| > IO_BATCH {
      AddressRecordsSound(kind, addresses[IO_BATCH..]);
    }
  }

  lemma ObjectRecordsSound(o: AgentObject)
    ensures SoundRecords(ObjectRecords(o))
  {
    hide AddressRecords, Be, Flat;
    AddressRecordsSound(DICT_CONTENT, Flat(o.entries));
    AddressRecordsSound(SEQUENCE_CONTENT, o.sequence);
    AddressRecordsSound(REFERENTS, o.referents);
    assert SoundRecord(BeginRecord(o));
  }

  lemma {:induction false} AnswerRecordsSound(p: Process, addresses: seq<Address>)
    ensures SoundRecords(AnswerRecords(p, addresses))
    decreases |addresses|
  {
    hide ObjectRecords;
    if addresses != [] {
      ObjectRecordsSound(p.objectAt(addresses[0]));
      AnswerRecordsSound(p, addresses[1..]);
    }
  }

  ghost predicate SoundTodo(todo: seq<Out>) {
    && (forall i | 0 <= i < |todo| :: SoundOut(todo[i]))
    && (todo != [] ==> todo[|todo| - 1].Direct?)
  }

  lemma TodoOf(records: seq<Message>, last: Message)
    requires SoundRecords(records) && last.kind != BULK_BATCH && |last.payload| <= MAX_PAYLOAD
    ensures SoundTodo(Records(records) + [Direct(last)])
    ensures Messages(Records(records) + [Direct(last)]) == records + [last]
  {
  }

  lemma TodoBehind(first: Message, todo: seq<Out>)
    requires SoundTodo(todo) && todo != [] && first.kind != BULK_BATCH && |first.payload| <= MAX_PAYLOAD
    ensures SoundTodo([Direct(first)] + todo) && Messages([Direct(first)] + todo) == [first] + Messages(todo)
  {
  }

  lemma BatchIsBelow(c: CollectorState)
    requires c.phase.AwaitObject? && AllBelow(c.work.scheduled) && CollectorModel.Inv(c)
    ensures AllWide(InFlight(c))
  {
    hide Reachable, Addresses;
    var all := InFlight(c);
    forall i | 0 <= i < |all| ensures ArtifactEncoding.Wide(all[i]) {
      assert all[i] in multiset(all);
      assert all[i] in multiset(c.work.scheduled);
    }
  }

  /** What the Collector said makes the Agent send exactly what the Collector then expects. */
  lemma AgentAnswers(st: Setting, c: CollectorState, m: Message)
    requires Fair(st) && Honest(st, c) && CollectorModel.Inv(c) && HasSaid(st, c, m)
    ensures var a := OnFrame(st.process, if c.phase.AwaitWellKnown? then AwaitAck else AwaitRequest, m);
            && SoundTodo(a.todo) && Messages(a.todo) == Expected(st, c) && a.buffer == []
            && a.phase == AgentPhaseFor(c)
  {
    hide AddressRecords, ObjectRecords, EncodeAddresses, EncodeOptions, Readable, AcceptHello, CollectorModel.Inv, Captured,
         SoundTodo, Records, Messages, AnswerRecords, Exact;
    var p := st.process;
    match c.phase
    case AwaitWellKnown =>
      AddressRecordsSound(ROOT_BATCH, p.roots);
      TodoOf(AddressRecords(ROOT_BATCH, p.roots), Message(ROOTS_DONE, []));
      assert |EncodeAddresses(p.wellKnown)| == ADDRESS_SIZE * WELL_KNOWN_COUNT by {
        WellKnownCount(p);
      }
      TodoBehind(Message(WELL_KNOWN, EncodeAddresses(p.wellKnown)),
                 Records(AddressRecords(ROOT_BATCH, p.roots)) + [Direct(Message(ROOTS_DONE, []))]);
      AckSize(st.cfg);
    case AwaitObject(seen, expected, remaining) =>
      var batch := [expected] + remaining;
      BatchIsBelow(c);
      AddressesInverse(batch, m.payload);
      AnswerRecordsSound(p, batch);
      TodoOf(AnswerRecords(p, batch), Message(BATCH_DONE, []));
      AnswersFirst(st, batch);
      assert batch[1..] == remaining;
      assert Rest(st, [], expected) == ObjectRecords(p.objectAt(expected));
    case AwaitComplete =>
      DirectTodo(Message(COMPLETE, []));
    case _ =>
  }

  lemma DirectTodo(m: Message)
    requires m.kind != BULK_BATCH && |m.payload| <= MAX_PAYLOAD
    ensures SoundTodo([Direct(m)]) && Messages([Direct(m)]) == [m]
  {
  }

  lemma WellKnownCount(p: Process)
    requires Readable(p)
    ensures |p.wellKnown| == WELL_KNOWN_COUNT
  {
  }

  lemma AckSize(cfg: Config)
    requires cfg.Valid()
    ensures Ack(cfg).kind == HELLO_ACK && |Ack(cfg).payload| == OPTIONS_SIZE
  {
  }

  lemma AgentKeepsInv(st: Setting, s: State, s': State)
    requires SessionInv(st, s) && AgentMoves(st, s, s')
    ensures SessionInv(st, s')
  {
    hide Honest, CollectorModel.Inv, Talks, Expected, HasSaid, Fair, OnFrame, Queue;
    if s.agent.todo != [] {
      SendingKeepsQueue(st, s, s');
      ChannelSame(st, s, s');
    } else {
      ReceivingKeepsChannel(st, s, s');
    }
  }

  lemma ChannelSame(st: Setting, s: State, s': State)
    requires SessionInv(st, s) && Sound(s') && Queue(s') == Queue(s) && s'.toAgent == s.toAgent
    requires s'.collector == s.collector && s'.agent.phase == s.agent.phase
    ensures SessionInv(st, s')
  {
    hide Honest, CollectorModel.Inv, Talks, Expected, HasSaid, Fair, Queue, Sound;
    SoundLegal(s);
    SoundLegal(s');
  }

  lemma SoundLegal(s: State)
    requires Sound(s)
    ensures AllLegal(s.toCollector)
  {
  }

  lemma ReceivingKeepsChannel(st: Setting, s: State, s': State)
    requires SessionInv(st, s) && s.agent.todo == [] && AgentMoves(st, s, s')
    ensures SessionInv(st, s') && !s.collector.phase.Failed?
    ensures s'.toAgent == [] && Messages(s'.agent.todo) == Expected(st, s.collector) && s'.collector == s.collector
    ensures s.toAgent != [] && s'.inbox == [] && s'.toCollector == [] && s'.agent.buffer == []
    ensures s.inbox == [] && s.toCollector == [] && s.agent.buffer == []
  {
    hide Honest, CollectorModel.Inv, Talks, Expected, Fair, OnFrame, HasSaid, Messages;
    NothingQueued(s);
    AgentAnswers(st, s.collector, s.toAgent[0]);
    NoRecordBytes();
    assert s'.toAgent == [];
    assert Queue(s') == [] + ([] + ([] + Messages(s'.agent.todo)));
  }

  lemma StepSends(cfg: Config, c: CollectorState, m: Message, c': CollectorState)
    requires cfg.Valid() && Step(cfg, c, m, c')
    ensures c.sent <= c'.sent && (c'.phase.Failed? ==> c'.sent == c.sent)
  {
    hide Schedule, FitsObject, ParseObject, WellKnownTypes, DecodeAddresses, Popped, AcceptHello, EncodeOptions,
         ContentEdges, Enumerates, CanFinish, Request;
  }

  /** The Collector's step, spelt out. */
  lemma CollectorStepIs(st: Setting, s: State, s': State)
    requires SessionInv(st, s) && CollectorMoves(st, s, s')
    ensures s.toAgent == [] && Expected(st, s.collector) != []
    ensures Step(st.cfg, s.collector, Expected(st, s.collector)[0], s'.collector)
    ensures AllLegal(s'.toCollector) && Queue(s') == Expected(st, s.collector)[1..] && s'.agent == s.agent
    ensures s.collector.sent <= s'.collector.sent && s'.toAgent == s'.collector.sent[|s.collector.sent|..]
    ensures Receives(s, Expected(st, s.collector)[0], s'.inbox, s'.toCollector)
    ensures !s.collector.phase.Failed? && s.agent.phase == AgentPhaseFor(s.collector)
  {
    hide Step, Honest, CollectorModel.Inv, Talks, Expected, HasSaid, Messages, Logical, AgentPhaseFor, Readable,
         AcceptHello;
    var m :| Receives(s, m, s'.inbox, s'.toCollector) && Step(st.cfg, s.collector, m, s'.collector);
    NotFailedWhenMoving(st.cfg, s.collector, m, s'.collector);
    ReceivingTakesFront(s, m, s'.inbox, s'.toCollector);
    assert Queue(s) != [];
    assert Queue(s') == Queue(s.(inbox := s'.inbox, toCollector := s'.toCollector));
    assert s.toAgent == [] && Queue(s) == Expected(st, s.collector);
    assert ([m] + Queue(s'))[1..] == Queue(s');
  }

  lemma NotFailedWhenMoving(cfg: Config, c: CollectorState, m: Message, c': CollectorState)
    requires cfg.Valid() && Step(cfg, c, m, c')
    ensures !c.phase.Failed? && !c.phase.Finished?
  {
  }

  lemma CollectorKeepsInv(st: Setting, s: State, s': State)
    requires SessionInv(st, s) && CollectorMoves(st, s, s')
    ensures SessionInv(st, s')
  {
    CollectorStepIs(st, s, s');
    var c, c' := s.collector, s'.collector;
    var m := Expected(st, c)[0];
    StepKeepsInv(st.cfg, c, m, c');
    StepTalks(st.cfg, c, m, c');
    CollectorTakes(st, c, c');
    StepSends(st.cfg, c, m, c');
    SoundAfter(s, s');
    hide Step, Honest, CollectorModel.Inv, Talks, Expected, HasSaid, Fair, Queue, Receives, Sound, AllLegal;
    SoundLegal(s');
    if !c'.phase.Failed? && c'.sent != c.sent {
      var x := c'.sent[|c'.sent| - 1];
      assert s'.toAgent == [x];
      SpeakersPhase(st, c, c', x);
    }
  }

  lemma SoundAfter(s: State, s': State)
    requires Sound(s) && s'.agent == s.agent && AllLegal(s'.toCollector)
    ensures Sound(s')
  {
    hide SoundOut, RecordsBytes;
  }

  /** Who hears the Collector speak is an Agent that waits for just that. */
  lemma SpeakersPhase(st: Setting, c: CollectorState, c': CollectorState, x: Message)
    requires Fair(st) && Expected(st, c) != [] && Expected(st, c)[1..] == [] && HasSaid(st, c', x)
    requires Step(st.cfg, c, Expected(st, c)[0], c')
    ensures AgentPhaseFor(c) == if c'.phase.AwaitWellKnown? then AwaitAck else AwaitRequest
  {
    hide Schedule, FitsObject, ParseObject, WellKnownTypes, DecodeAddresses, Popped, AcceptHello, EncodeOptions,
         ContentEdges, Enumerates, CanFinish, Request, ObjectRecords, AddressRecords, Answer;
  }

  /** Every interleaving keeps the invariant. */
  lemma MovesKeepInv(st: Setting, s: State, s': State)
    requires SessionInv(st, s) && Moves(st, s, s')
    ensures SessionInv(st, s')
  {
    hide SessionInv, AgentMoves, CollectorMoves;
    if AgentMoves(st, s, s') {
      AgentKeepsInv(st, s, s');
    } else {
      CollectorKeepsInv(st, s, s');
    }
  }
}
