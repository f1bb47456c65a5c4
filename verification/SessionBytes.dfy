/**
 * The Agent's session and the Collector's capture joined by their bytes: each reads exactly what the other writes,
 * in whatever pieces it arrives.
 */
module SessionBytes {
  import opened GraphTheory
  import opened HeapModel
  import opened Bytes
  import opened Protocol
  import opened Framing
  import opened Handshake
  import opened ObjectStream
  import opened ArtifactEncoding
  import opened AgentSession
  import opened CollectorModel
  import opened Session
  import opened SessionRuns
  import Collector

  /** All that a Collector says to an Agent that serves it these requests. */
  ghost function AllSaid(cfg: Config, r: seq<seq<Address>>): seq<Message>
    requires cfg.Valid()
  {
    [Ack(cfg)] + Requests(r) + [Message(FINISH, [])]
  }

  /** What comes behind the messages that the Collector expects now. */
  ghost function Later(st: Setting, r: seq<seq<Address>>, c: CollectorState): seq<Message>
    requires Fair(st) && |c.requests| <= |r|
  {
    match c.phase
    case AwaitHello =>
      [Message(WELL_KNOWN, EncodeAddresses(st.process.wellKnown))] + RootMessages(st.process) +
      (Answers(st.process, r) + [Message(COMPLETE, [])])
    case AwaitComplete => []
    case Finished => []
    case Failed(_) => []
    case _ => Answers(st.process, r[|c.requests|..]) + [Message(COMPLETE, [])]
  }

  /** The Collector is where a served session must have brought it. */
  ghost predicate InStep(st: Setting, r: seq<seq<Address>>, messages: seq<Message>, c: CollectorState)
    requires Fair(st)
  {
    && Honest(st, c) && CollectorModel.Inv(c) && Talks(st.cfg, c)
    && (!c.phase.Failed? ==> |c.requests| <= |r| && Continues(st, r, messages, Expected(st, c) + Later(st, r, c)))
  }

  ghost predicate Continues(st: Setting, r: seq<seq<Address>>, messages: seq<Message>, rest: seq<Message>)
    requires Fair(st)
  {
    messages + rest == SessionMessages(st.process, st.hello, r)
  }

  lemma {:induction false} RequestsAt(requests: seq<seq<Address>>)
    ensures |Requests(requests)| == |requests|
    ensures forall k | 0 <= k < |requests| :: Requests(requests)[k] == Request(requests[k])
    decreases |requests|
  {
    hide Request;
    if requests != [] {
      RequestsAt(requests[1..]);
    }
  }

  /** Where a message that the Collector says stands among all it says, and what it therefore is. */
  lemma NextSaid(cfg: Config, r: seq<seq<Address>>, c: CollectorState, x: Message)
    requires cfg.Valid() && Talks(cfg, c) && !c.phase.Failed? && !c.phase.AwaitHello?
    requires !c.phase.AwaitComplete? && !c.phase.Finished?
    requires c.sent + [x] <= AllSaid(cfg, r)
    ensures |c.requests| <= |r|
    ensures x == if |c.requests| < |r| then Request(r[|c.requests|]) else Message(FINISH, [])
  {
    hide Request, Ack, AllOf, Addresses, Sized;
    RequestsAt(c.requests);
    RequestsAt(r);
    assert x == AllSaid(cfg, r)[|c.sent|];
  }

  lemma SameRequest(a: seq<Address>, b: seq<Address>)
    requires AllWide(a) && AllWide(b) && Request(a) == Request(b)
    ensures a == b
  {
    hide EncodeAddresses, DecodeAddresses;
    AddressesInverse(a, Request(a).payload);
    AddressesInverse(b, Request(b).payload);
  }

  lemma SilentStep(st: Setting, r: seq<seq<Address>>, c: CollectorState, m: Message, c': CollectorState)
    requires Fair(st) && |c.requests| <= |r| && Step(st.cfg, c, m, c') && !c'.phase.Failed? && c'.sent == c.sent
    requires Talks(st.cfg, c) && Talks(st.cfg, c')
    ensures c'.requests == c.requests && Later(st, r, c') == Later(st, r, c)
  {
    hide Step, Fair, Answers, Ack, AllOf, Addresses, Sized;
    FairIsValid(st);
    NotFailedWhenMoving(st.cfg, c, m, c');
    StepAsks(st.cfg, c, m, c');
  }

  /** What the Collector has just asked for is what comes next. */
  lemma SpokenStep(st: Setting, r: seq<seq<Address>>, c: CollectorState, m: Message, c': CollectorState)
    requires Fair(st) && |c.requests| <= |r| && Step(st.cfg, c, m, c') && !c'.phase.Failed? && c'.sent != c.sent
    requires Talks(st.cfg, c) && Talks(st.cfg, c') && JustSaid(st, c') && c'.sent == c.sent + [c'.sent[|c'.sent| - 1]]
    requires Honest(st, c') && CollectorModel.Inv(c')
    requires c'.sent <= AllSaid(st.cfg, r) && Receivable(r)
    ensures |c'.requests| <= |r| && Later(st, r, c) == Expected(st, c') + Later(st, r, c')
  {
    hide Step, Answers, Ack, AllOf, Addresses, Sized, Readable, AcceptHello, AllSaid, Request, CollectorModel.Inv, Exact,
         RootMessages, Answer, ObjectRecords, AnswerRecords, Talks;
    NotFailedWhenMoving(st.cfg, c, m, c');
    StepAsks(st.cfg, c, m, c');
    var p, k := st.process, |c.requests|;
    if c.phase.AwaitHello? {
      NothingAsked(st.cfg, c);
      assert r[0..] == r;
    } else {
      NextSaid(st.cfg, r, c, c'.sent[|c.sent|]);
      if c'.phase.AwaitObject? {
        BatchIsBelow(c');
        RequestKind(InFlight(c'));
        SameRequest(InFlight(c'), r[k]);
        AnswersFrom(p, r, k);
        AnswerOf(st, c');
        assert Answer(p, r[k]) + Answers(p, r[k + 1..]) + [Message(COMPLETE, [])] ==
               Answer(p, r[k]) + (Answers(p, r[k + 1..]) + [Message(COMPLETE, [])]);
      } else {
        if k < |r| {
          RequestKind(r[k]);
        }
        assert r[k..] == [];
        NoAnswers(p);
      }
    }
  }

  lemma NothingAsked(cfg: Config, c: CollectorState)
    requires cfg.Valid() && Talks(cfg, c) && c.phase.AwaitHello?
    ensures c.requests == []
  {
    hide AllOf, Addresses, Sized;
  }

  lemma RequestKind(addresses: seq<Address>)
    ensures Request(addresses).kind == REQUEST_OBJECTS
  {
  }

  lemma NoAnswers(p: Process)
    ensures Answers(p, []) == [] && [] + [Message(COMPLETE, [])] + [] == [Message(COMPLETE, [])]
  {
  }

  lemma AnswersFrom(p: Process, r: seq<seq<Address>>, k: nat)
    requires k < |r|
    ensures Answers(p, r[k..]) == Answer(p, r[k]) + Answers(p, r[k + 1..])
  {
    hide Answer;
    assert r[k..][1..] == r[k + 1..];
  }

  lemma AnswerOf(st: Setting, c: CollectorState)
    requires Fair(st) && c.phase.AwaitObject? && c.phase.seen == []
    ensures Expected(st, c) == Answer(st.process, InFlight(c))
  {
    hide ObjectRecords, Readable, AcceptHello;
    var batch := [c.phase.expected] + c.phase.remaining;
    AnswersFirst(st, batch);
    assert batch[1..] == c.phase.remaining;
    assert Rest(st, [], c.phase.expected) == ObjectRecords(st.process.objectAt(c.phase.expected));
  }

  lemma StepInStep(st: Setting, r: seq<seq<Address>>, messages: seq<Message>, c: CollectorState, m: Message,
                   c': CollectorState)
    requires Fair(st) && InStep(st, r, messages, c) && Step(st.cfg, c, m, c')
    requires messages + [m] <= SessionMessages(st.process, st.hello, r)
    requires c'.sent <= AllSaid(st.cfg, r) && Receivable(r)
    ensures InStep(st, r, messages + [m], c')
  {
    hide Fair, SessionMessages, Step, Honest, CollectorModel.Inv, Talks, Expected, AllSaid, Later, Receivable, HasSaid;
    FairIsValid(st);
    NotFailedWhenMoving(st.cfg, c, m, c');
    ExpectsSomething(st, c);
    var rest := Expected(st, c) + Later(st, r, c);
    assert m == rest[0] by {
      assert (messages + [m])[|messages|] == (messages + rest)[|messages|];
    }
    StepKeepsInv(st.cfg, c, m, c');
    StepTalks(st.cfg, c, m, c');
    CollectorTakes(st, c, c');
    StepSends(st.cfg, c, m, c');
    if !c'.phase.Failed? {
      if c'.sent == c.sent {
        SilentStep(st, r, c, m, c');
        assert rest == [m] + (Expected(st, c') + Later(st, r, c'));
      } else {
        SpokenStep(st, r, c, m, c');
        assert rest == [m] + (Expected(st, c') + Later(st, r, c'));
      }
      assert messages + rest == messages + [m] + (Expected(st, c') + Later(st, r, c'));
    }
  }

  /** Fed with what a served session says, and having said what that session was asked, a Collector stays in step. */
  lemma {:induction false} RunsInStep(st: Setting, r: seq<seq<Address>>, messages: seq<Message>, c: CollectorState)
    requires Fair(st) && Runs(st.cfg, messages, c) && messages <= SessionMessages(st.process, st.hello, r)
    requires c.sent <= AllSaid(st.cfg, r) && Receivable(r)
    ensures InStep(st, r, messages, c)
    decreases |messages|
  {
    hide Fair, SessionMessages, Step, InStep, AllSaid, Receivable;
    FairIsValid(st);
    if messages == [] {
      StartInStep(st, r);
    } else {
      var m := messages[|messages| - 1];
      var before :| Runs(st.cfg, Earlier(messages), before) && Step(st.cfg, before, m, c);
      StepSends(st.cfg, before, m, c);
      assert Earlier(messages) + [m] == messages;
      RunsInStep(st, r, Earlier(messages), before);
      StepInStep(st, r, Earlier(messages), before, m, c);
    }
  }

  lemma StartInStep(st: Setting, r: seq<seq<Address>>)
    requires Fair(st)
    ensures InStep(st, r, [], Initial())
  {
    hide Readable, AcceptHello, Answers, RootMessages, EncodeHello, EncodeAddresses;
    InitialInv();
    var c := Initial();
    assert Talks(st.cfg, c) by {
      InitialTalks(st.cfg);
    }
    assert [] + (Expected(st, c) + Later(st, r, c)) == SessionMessages(st.process, st.hello, r);
  }

  lemma InitialTalks(cfg: Config)
    requires cfg.Valid()
    ensures Talks(cfg, Initial())
  {
    Collector.RunsNothing(cfg);
    RunsTalk(cfg, [], Initial());
  }

  // ---------------------------------------------------------------- from frames to bytes

  ghost predicate AllFit(frames: seq<Message>) {
    forall i | 0 <= i < |frames| :: |frames[i].payload| <= MAX_PAYLOAD
  }

  /** Frames are read off the bytes in one way only. */
  lemma {:induction false} FramesFirst(a: seq<Message>, b: seq<Message>, rest: Octets)
    requires AllFit(a) && AllFit(b) && Wire(a) == Wire(b) + rest
    ensures b <= a
    decreases |b|
  {
    hide WireBytes, NextWire;
    if b != [] {
      assert Wire(b) + rest == WireBytes(b[0]) + (Wire(b[1..]) + rest);
      NextWireInverse(Wire(a), b[0], Wire(b[1..]) + rest);
      if a == [] {
        NoFrame();
      } else {
        NextWireInverse(Wire(a), a[0], Wire(a[1..]));
        FramesFirst(a[1..], b[1..], rest);
      }
    }
  }

  lemma NoFrame()
    ensures NextWire([]).Error?
  {
  }

  /** What a Collector has said at any time, failed or not. */
  ghost predicate SaidSoFar(cfg: Config, sent: seq<Message>, q: seq<seq<Address>>)
    requires cfg.Valid()
  {
    Sized(cfg, q) && (sent == [] || sent == [Ack(cfg)] + Requests(q) || sent == AllSaid(cfg, q))
  }

  lemma RunsSay(cfg: Config, messages: seq<Message>, c: CollectorState) returns (q: seq<seq<Address>>)
    requires cfg.Valid() && Runs(cfg, messages, c)
    ensures SaidSoFar(cfg, c.sent, q)
  {
    hide Step, Ack, AllOf, Addresses;
    if messages == [] {
      q := [];
    } else {
      var m := messages[|messages| - 1];
      var before :| Runs(cfg, Earlier(messages), before) && Step(cfg, before, m, c);
      RunsTalk(cfg, Earlier(messages), before);
      RunsTalk(cfg, messages, c);
      StepSends(cfg, before, m, c);
      NotFailedWhenMoving(cfg, before, m, c);
      q := if c.phase.Failed? then before.requests else c.requests;
      assert [Ack(cfg)] + Requests(q) + [] == [Ack(cfg)] + Requests(q);
    }
  }

  /** Whatever the peer says, the Collector's first frame fits the Agent's buffer for the options. */
  lemma CaptureNeverOverruns(cfg: Config, messages: seq<Message>, c: CollectorState, behind: Octets)
    requires cfg.Valid() && Runs(cfg, messages, c)
    ensures c.sent != [] ==> !AgentFrame(Wire(c.sent) + behind, OPTIONS_SIZE).Overrun?
    ensures !AgentFrame(Wire(c.sent), OPTIONS_SIZE).Overrun?
  {
    hide Runs, AgentFrame, WireBytes, Ack;
    var q := RunsSay(cfg, messages, c);
    AckSize(cfg);
    if c.sent == [] {
      NothingReceived();
    } else {
      assert c.sent[0] == Ack(cfg);
      assert Wire(c.sent) + behind == WireBytes(Ack(cfg)) + (Wire(c.sent[1..]) + behind);
      LongFramesOverrun(Ack(cfg), Wire(c.sent[1..]) + behind, OPTIONS_SIZE);
      LongFramesOverrun(Ack(cfg), Wire(c.sent[1..]), OPTIONS_SIZE);
    }
  }

  lemma NothingReceived()
    ensures AgentFrame(Wire([]), OPTIONS_SIZE) == Refused
  {
  }

  lemma FinishIsLast(cfg: Config, sent: seq<Message>, q: seq<seq<Address>>, options: Octets, r: seq<seq<Address>>)
    requires cfg.Valid() && SaidSoFar(cfg, sent, q)
    requires [Message(HELLO_ACK, options)] + Requests(r) + [Message(FINISH, [])] <= sent
    ensures sent == AllSaid(cfg, r)
  {
    hide Request, Ack;
    RequestsAt(q);
    RequestsAt(r);
    var n := |r| + 1;
    assert sent[n] == Message(FINISH, []);
    if n < |q| + 1 {
      RequestKind(q[n - 1]);
    }
    assert sent[0] == Ack(cfg);
  }

  lemma SaidFits(cfg: Config, sent: seq<Message>, q: seq<seq<Address>>)
    requires cfg.Valid() && ADDRESS_SIZE * cfg.batchSize <= MAX_PAYLOAD && SaidSoFar(cfg, sent, q)
    ensures AllFit(sent)
  {
    hide Request, Ack;
    AckSize(cfg);
    RequestsAt(q);
    forall k | 0 <= k < |q| ensures |Request(q[k]).payload| <= MAX_PAYLOAD {
      RequestSize(q[k]);
    }
  }

  lemma ServedFits(options: Octets, r: seq<seq<Address>>)
    requires |options| == OPTIONS_SIZE && Receivable(r)
    ensures AllFit([Message(HELLO_ACK, options)] + Requests(r) + [Message(FINISH, [])])
  {
    hide Request;
    RequestsAt(r);
  }

  /** The Agent that served these requests heard from this Collector, and from it alone. */
  ghost predicate HeardFrom(c: CollectorState, options: Octets, r: seq<seq<Address>>, behind: Octets) {
    && |options| == OPTIONS_SIZE
    && Wire(c.sent) == Wire([Message(HELLO_ACK, options)]) + (Wire(Requests(r) + [Message(FINISH, [])]) + behind)
  }

  lemma HeardAll(st: Setting, messages: seq<Message>, c: CollectorState, options: Octets, r: seq<seq<Address>>,
                 behind: Octets)
    requires Fair(st) && Runs(st.cfg, messages, c) && Receivable(r) && HeardFrom(c, options, r, behind)
    ensures c.sent == AllSaid(st.cfg, r)
  {
    hide Runs, Readable, AcceptHello, Requests, Wire, Receivable, SaidSoFar, AllSaid, AllFit;
    var q := RunsSay(st.cfg, messages, c);
    var ack, rest := [Message(HELLO_ACK, options)], Requests(r) + [Message(FINISH, [])];
    SaidFits(st.cfg, c.sent, q);
    ServedFits(options, r);
    WireAppend(ack, rest);
    assert ack + rest == ack + Requests(r) + [Message(FINISH, [])];
    assert Wire(ack) + (Wire(rest) + behind) == Wire(ack + rest) + behind;
    FramesFirst(c.sent, ack + rest, behind);
    FinishIsLast(st.cfg, c.sent, q, options, r);
  }

  lemma NothingMore(sent: Octets, frames: seq<Message>, messages: seq<Message>)
    requires Says([], frames, messages, sent)
    ensures ReceiveAll([], sent).0 == messages
  {
    hide Says, ReceiveAll;
    SaidIsReceived([], frames, messages, sent, []);
    assert sent[0..] + [] == sent;
    assert ReceiveAll([], []).0 == [] by {
      NextIsHead([], []);
      NoFrame();
    }
    assert messages + [] == messages;
  }

  /**
   * A capture that reads what a served session wrote, while the session read what the capture wrote: it ends well,
   * unless the artifact cannot hold an object or the whole; every object it has written is the one in the process;
   * and once it ends well it has written exactly what is reachable there.
   */
  lemma CaptureOfServedSession(st: Setting, options: Octets, r: seq<seq<Address>>, behind: Octets, sent: Octets,
                               messages: seq<Message>, c: CollectorState, result: Result<nat>)
    requires Fair(st)
    requires Receivable(r)
    requires Says([], SessionFrames(st.process, st.hello, r), SessionMessages(st.process, st.hello, r), sent)
    requires Collector.Ended(st.cfg, ReceiveAll([], sent), messages, c, result)
    requires HeardFrom(c, options, r, behind)
    ensures result.Error? ==> c.phase == Failed(WriterFailed)
    ensures Exact(st, c.written)
    ensures result.Ok? ==>
              && result.value == |c.written| && messages == SessionMessages(st.process, st.hello, r)
              && c.roots == st.process.roots && c.wellKnown == st.process.wellKnown
              && WrittenIsReachable(c)
  {
    hide Runs, Readable, AcceptHello, ReceiveAll, Says, HeardFrom, Receivable, SessionMessages, AllSaid,
         WrittenIsReachable, Exact, CollectorModel.Inv, Talks, Expected, Later;
    FairIsValid(st);
    NothingMore(sent, SessionFrames(st.process, st.hello, r), SessionMessages(st.process, st.hello, r));
    HeardAll(st, messages, c, options, r, behind);
    RunsInStep(st, r, messages, c);
    if c.phase.Finished? {
      CaptureIsReachable(st.cfg, messages, c);
      assert Expected(st, c) + Later(st, r, c) == [] by {
        NothingLater(st, r, c);
      }
      assert messages + [] == messages;
    } else if !c.phase.Failed? {
      ExpectsSomething(st, c);
    }
  }

  lemma NothingLater(st: Setting, r: seq<seq<Address>>, c: CollectorState)
    requires Fair(st) && |c.requests| <= |r| && c.phase.Finished?
    ensures Expected(st, c) + Later(st, r, c) == []
  {
  }

  // ---------------------------------------------------------------- each hears all that the other says, and no more

  /** Requests as an Agent reads them, which are the same frames. */
  lemma {:induction false} Reread(q: seq<seq<Address>>) returns (r: seq<seq<Address>>)
    requires AllFit(Requests(q))
    ensures Receivable(r) && Requests(r) == Requests(q)
    decreases |q|
  {
    hide EncodeAddresses, Words;
    if q == [] {
      r := [];
    } else {
      var first := Words(Request(q[0]).payload);
      RequestSize(q[0]);
      RequestRead(Request(q[0]).payload);
      assert Requests(q)[0] == Request(q[0]);
      assert AllFit(Requests(q[1..])) by {
        forall i | 0 <= i < |Requests(q[1..])| ensures |Requests(q[1..])[i].payload| <= MAX_PAYLOAD {
          assert Requests(q)[i + 1] == Requests(q[1..])[i];
        }
      }
      var rest := Reread(q[1..]);
      r := [first] + rest;
      assert r[1..] == rest;
    }
  }

  lemma AckIsHeard(cfg: Config, behind: Octets)
    requires cfg.Valid()
    ensures Acknowledged(WireBytes(Ack(cfg)) + behind) == Some(behind)
    ensures !ProgramOutcome(WireBytes(Ack(cfg)) + behind).Overran?
  {
    hide WireBytes, Ack, AgentFrame, NextWire, Demands;
    AckSize(cfg);
    NextWireInverse(WireBytes(Ack(cfg)) + behind, Ack(cfg), behind);
    AgentFrameIs(WireBytes(Ack(cfg)) + behind, OPTIONS_SIZE, Ack(cfg), behind);
  }

  /** What the Agent makes of an acknowledgement and these requests, with or without the finish. */
  lemma AgentHears(cfg: Config, r: seq<seq<Address>>, last: seq<Message>)
    requires cfg.Valid() && Receivable(r) && (last == [] || last == [Message(FINISH, [])])
    ensures var s := Wire([Ack(cfg)] + Requests(r) + last);
            && Acknowledged(s).Some? && !ProgramOutcome(s).Overran?
            && Demands(Acknowledged(s).value) == (r, if last == [] then BreaksOff else Finishes, [])
  {
    hide WireBytes, Ack, Demands, Requests, Wire, Acknowledged, ProgramOutcome;
    var behind := Wire(Requests(r) + last);
    AckIsHeard(cfg, behind);
    WireOne(Ack(cfg));
    WireAppend([Ack(cfg)], Requests(r) + last);
    WireAppend(Requests(r), last);
    assert [Ack(cfg)] + Requests(r) + last == [Ack(cfg)] + (Requests(r) + last);
    RequestsAreDemanded(r, Wire(last));
    assert r + [] == r;
    if last == [] {
      NothingIsDemanded();
    } else {
      WireOne(Message(FINISH, []));
      FinishIsDemanded([]);
      assert WireBytes(Message(FINISH, [])) + [] == WireBytes(Message(FINISH, []));
    }
  }

  lemma NothingIsDemanded()
    ensures Demands(Wire([])) == ([], BreaksOff, []) && Acknowledged(Wire([])) == None
    ensures !ProgramOutcome(Wire([])).Overran?
  {
  }

  /** Any earlier state of a run. */
  lemma {:induction false} RunsThrough(cfg: Config, messages: seq<Message>, c: CollectorState, k: nat)
    returns (earlier: CollectorState)
    requires cfg.Valid() && Runs(cfg, messages, c) && k <= |messages|
    ensures Runs(cfg, messages[..k], earlier) && earlier.sent <= c.sent
    ensures k < |messages| ==> !earlier.phase.Failed? && !earlier.phase.Finished?
    ensures k == |messages| ==> earlier == c
    decreases |messages|
  {
    hide Step;
    if k == |messages| {
      earlier := c;
      assert messages[..k] == messages;
    } else {
      var m := messages[|messages| - 1];
      var before :| Runs(cfg, Earlier(messages), before) && Step(cfg, before, m, c);
      StepSends(cfg, before, m, c);
      NotFailedWhenMoving(cfg, before, m, c);
      earlier := RunsThrough(cfg, Earlier(messages), before, k);
      assert Earlier(messages)[..k] == messages[..k];
    }
  }

  /** The hello of a fair session is acknowledged. */
  lemma HelloIsAcknowledged(st: Setting, c: CollectorState)
    requires Fair(st) && Runs(st.cfg, [Message(HELLO, EncodeHello(st.hello).value)], c)
    ensures c.sent != []
  {
    hide Readable, AcceptHello, EncodeOptions;
    var m := Message(HELLO, EncodeHello(st.hello).value);
    var before :| Runs(st.cfg, Earlier([m]), before) && Step(st.cfg, before, m, c);
    assert Earlier([m]) == [];
    assert before == Initial();
  }

  /** A Collector that hears hello and error has acknowledged the hello. */
  lemma SpeakingCollector(st: Setting, sent: Octets, frames: seq<Message>, messages: seq<Message>, c: CollectorState,
                        result: Result<nat>)
    requires Fair(st)
    requires var greeting, failed := Message(HELLO, EncodeHello(st.hello).value), Message(ERROR, SESSION_FAILED);
             Says([], frames, [greeting] + [failed], sent)
    requires Collector.Ended(st.cfg, ReceiveAll([], sent), messages, c, result)
    ensures c.sent != []
  {
    hide Runs, Readable, AcceptHello, ReceiveAll, Says;
    FairIsValid(st);
    var greeting, failed := Message(HELLO, EncodeHello(st.hello).value), Message(ERROR, SESSION_FAILED);
    NothingMore(sent, frames, [greeting] + [failed]);
    if messages == [] {
      NothingRun(st.cfg, c);
      assert false;
    } else {
      var earlier := RunsThrough(st.cfg, messages, c, 1);
      assert messages[..1] == [greeting];
      HelloIsAcknowledged(st, earlier);
    }
  }

  lemma NothingRun(cfg: Config, c: CollectorState)
    requires cfg.Valid() && Runs(cfg, [], c)
    ensures c.phase.AwaitHello?
  {
  }

  /** What comes before the last word of a session in which these requests are answered. */
  function AnsweredSoFar(st: Setting, r: seq<seq<Address>>): seq<Message>
    requires |st.hello.nonce| == NONCE_SIZE
  {
    OpeningMessages(st.process, st.hello) + Answers(st.process, r)
  }

  lemma BeforeLastWord(st: Setting, r: seq<seq<Address>>)
    requires |st.hello.nonce| == NONCE_SIZE
    ensures SessionMessages(st.process, st.hello, r) == AnsweredSoFar(st, r) + [Message(COMPLETE, [])]
  {
    hide OpeningMessages, Answers;
    assert OpeningMessages(st.process, st.hello) + (Answers(st.process, r) + [Message(COMPLETE, [])]) ==
           OpeningMessages(st.process, st.hello) + Answers(st.process, r) + [Message(COMPLETE, [])];
  }

  /** Once everything asked for has been answered, the Collector has spoken again. */
  lemma AllAnswered(st: Setting, r: seq<seq<Address>>, c: CollectorState)
    requires Fair(st) && InStep(st, r, AnsweredSoFar(st, r), c) && !c.phase.Failed?
    ensures c.phase.AwaitComplete?
  {
    hide Honest, CollectorModel.Inv, Talks, Readable, AcceptHello, Answers, Answer, RootMessages, ObjectRecords,
         AddressRecords, EncodeAddresses, OpeningMessages, EncodeHello;
    BeforeLastWord(st, r);
    var rest := Expected(st, c) + Later(st, r, c);
    assert AnsweredSoFar(st, r) + rest == AnsweredSoFar(st, r) + [Message(COMPLETE, [])];
    assert rest == (AnsweredSoFar(st, r) + rest)[|AnsweredSoFar(st, r)|..];
    assert |rest| == 1;
    if !c.phase.Finished? {
      ExpectsOne(st, c);
    }
  }

  lemma ExpectsOne(st: Setting, c: CollectorState)
    requires Fair(st) && Honest(st, c) && !c.phase.Finished? && !c.phase.Failed?
    ensures |Expected(st, c)| >= 1
  {
    ExpectsSomething(st, c);
  }

  lemma FinishWasSaid(cfg: Config, c: CollectorState, r: seq<seq<Address>>)
    requires cfg.Valid() && Talks(cfg, c) && (c.phase.AwaitComplete? || c.phase.Finished?)
    ensures !(c.sent <= [Ack(cfg)] + Requests(r))
  {
    hide Ack, Request, AllOf, Addresses, Sized;
    RequestsAt(r);
    RequestsAt(c.requests);
    var k := |c.requests| + 1;
    assert c.sent[k] == Message(FINISH, []);
    if c.sent <= [Ack(cfg)] + Requests(r) {
      assert c.sent[k] == ([Ack(cfg)] + Requests(r))[k];
      RequestKind(r[k - 1]);
    }
  }

  /** As long as it has not said the finish, a Collector has taken no more than the answers to what it asked for. */
  lemma UnfinishedCollector(st: Setting, r: seq<seq<Address>>, sent: Octets, frames: seq<Message>,
                            messages: seq<Message>, c: CollectorState, result: Result<nat>)
    requires Fair(st) && Receivable(r) && c.sent == [Ack(st.cfg)] + Requests(r)
    requires Says([], frames, AnsweredSoFar(st, r) + [Message(ERROR, SESSION_FAILED)], sent)
    requires Collector.Ended(st.cfg, ReceiveAll([], sent), messages, c, result)
    ensures c.phase == Failed(WriterFailed) && Exact(st, c.written)
  {
    hide Runs, Readable, AcceptHello, ReceiveAll, Says, Receivable, Requests, Ack, Exact, CollectorModel.Inv, Talks,
         Expected, Later, AnsweredSoFar, SessionMessages, Continues;
    FairIsValid(st);
    var failed, told := [Message(ERROR, SESSION_FAILED)], AnsweredSoFar(st, r);
    NothingMore(sent, frames, told + failed);
    BeforeLastWord(st, r);
    assert c.sent <= AllSaid(st.cfg, r);
    if |messages| > |told| {
      var earlier := RunsThrough(st.cfg, messages, c, |told|);
      assert messages[..|told|] == told;
      RunsInStep(st, r, told, earlier);
      AllAnswered(st, r, earlier);
      FinishWasSaid(st.cfg, earlier, r);
      assert false;
    }
    assert messages <= told;
    RunsInStep(st, r, messages, c);
    if c.phase.Finished? {
      FinishWasSaid(st.cfg, c, r);
    }
  }

  /**
   * The two programs joined by their bytes, each hearing all that the other says and no more, in whatever pieces it
   * arrives: the capture ends well, unless the artifact cannot hold an object or the whole; the session is then
   * served; every object written is the one in the process, and they are exactly those reachable there.
   */
  lemma CaptureMeetsAgent(st: Setting, sent: Octets, messages: seq<Message>, c: CollectorState, result: Result<nat>)
    requires Fair(st)
    requires Says([], ProgramFrames(st.process, st.hello, Wire(c.sent)),
                  ProgramMessages(st.process, st.hello, Wire(c.sent)), sent)
    requires Collector.Ended(st.cfg, ReceiveAll([], sent), messages, c, result)
    ensures result.Error? ==> c.phase == Failed(WriterFailed)
    ensures Exact(st, c.written)
    ensures result.Ok? ==>
              && ProgramOutcome(Wire(c.sent)) == Served
              && result.value == |c.written|
              && c.roots == st.process.roots && c.wellKnown == st.process.wellKnown
              && WrittenIsReachable(c)
  {
    hide Runs, Readable, AcceptHello, EncodeHello, ReceiveAll, Says, Receivable, Requests, Ack, Exact, Wire, Demands,
         Acknowledged, OpeningMessages, OpeningFrames, Answers, AnswersFrames, WrittenIsReachable, AllFit;
    FairIsValid(st);
    var q := RunsSay(st.cfg, messages, c);
    var frames := ProgramFrames(st.process, st.hello, Wire(c.sent));
    if c.sent == [] {
      NothingIsDemanded();
      SpeakingCollector(st, sent, frames, messages, c, result);
    } else {
      SaidFits(st.cfg, c.sent, q);
      RequestsFit(st.cfg, c.sent, q);
      var r := Reread(q);
      if c.sent == AllSaid(st.cfg, q) {
        AgentHears(st.cfg, r, [Message(FINISH, [])]);
        ServedIsHeard(st, r, c);
        CaptureOfServedSession(st, Ack(st.cfg).payload, r, [], sent, messages, c, result);
      } else {
        assert [Ack(st.cfg)] + Requests(r) + [] == c.sent;
        AgentHears(st.cfg, r, []);
        assert Answers(st.process, r) + [] == Answers(st.process, r);
        UnfinishedCollector(st, r, sent, frames, messages, c, result);
      }
    }
  }

  lemma RequestsFit(cfg: Config, sent: seq<Message>, q: seq<seq<Address>>)
    requires cfg.Valid() && SaidSoFar(cfg, sent, q) && sent != [] && AllFit(sent)
    ensures AllFit(Requests(q))
  {
    hide Ack, Requests;
    forall i | 0 <= i < |Requests(q)| ensures |Requests(q)[i].payload| <= MAX_PAYLOAD {
      assert sent[i + 1] == Requests(q)[i];
    }
  }

  lemma ServedIsHeard(st: Setting, r: seq<seq<Address>>, c: CollectorState)
    requires Fair(st) && Receivable(r) && c.sent == [Ack(st.cfg)] + Requests(r) + [Message(FINISH, [])]
    requires Acknowledged(Wire(c.sent)).Some? && !ProgramOutcome(Wire(c.sent)).Overran?
    requires Demands(Acknowledged(Wire(c.sent)).value) == (r, Finishes, [])
    ensures HeardFrom(c, Ack(st.cfg).payload, r, [])
    ensures ProgramFrames(st.process, st.hello, Wire(c.sent)) == SessionFrames(st.process, st.hello, r)
    ensures ProgramMessages(st.process, st.hello, Wire(c.sent)) == SessionMessages(st.process, st.hello, r)
  {
    hide Readable, AcceptHello, Requests, Ack, Wire, Demands, Acknowledged, OpeningMessages, OpeningFrames, Answers,
         AnswersFrames, Receivable;
    AckSize(st.cfg);
    var rest := Requests(r) + [Message(FINISH, [])];
    assert c.sent == [Ack(st.cfg)] + rest;
    WireAppend([Ack(st.cfg)], rest);
    assert Wire(rest) + [] == Wire(rest);
  }
}
