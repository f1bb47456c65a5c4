/** The Collector: it drives the graph walk over one connection and writes the artifact as it goes. */
module Collector {
  import opened GraphTheory
  import opened HeapModel
  import opened Bytes
  import opened Protocol
  import opened Framing
  import opened Handshake
  import opened ObjectStream
  import opened CaptureModel
  import opened ArtifactEncoding
  import opened ArtifactRoundTrip
  import opened CollectorModel
  import Artifact
  import Parsing
  import W = HeapWriter

  // ---------------------------------------------------------------- receiving one object

  /** After `taken`, parsing goes on with `obj` as the object so far. */
  ghost predicate Partial(taken: seq<Message>, expected: Address, strReprLen: int, obj: CapturedObject) {
    forall more :: ParseObject(taken + more, expected, strReprLen) == ParseRecords(obj, more, strReprLen)
  }

  lemma PartialBegin(m: Message, expected: Address, strReprLen: int)
    requires BeginObject(m, expected).Ok?
    ensures Partial([m], expected, strReprLen, BeginObject(m, expected).value)
  {
    hide BeginObject, ParseRecords;
    forall more ensures ParseObject([m] + more, expected, strReprLen) ==
                        ParseRecords(BeginObject(m, expected).value, more, strReprLen)
    {
      assert ([m] + more)[1..] == more;
    }
  }

  lemma BrokenBegin(m: Message, expected: Address, strReprLen: int)
    ensures BeginObject(m, expected).Error? ==>
              ParseObject([m], expected, strReprLen) == Broken(BeginObject(m, expected).problem)
  {
  }

  /** What one more record does to the parse. */
  lemma PartialNext(taken: seq<Message>, expected: Address, strReprLen: int, obj: CapturedObject, m: Message)
    requires Partial(taken, expected, strReprLen, obj)
    ensures match OnRecord(obj, m, strReprLen)
            case Error(problem) => ParseObject(taken + [m], expected, strReprLen) == Broken(problem)
            case Ok(Done(obj')) => ParseObject(taken + [m], expected, strReprLen) == Complete(obj', [])
            case Ok(More(obj')) => Partial(taken + [m], expected, strReprLen, obj')
  {
    hide OnRecord, ParseObject;
    assert [m][1..] == [];
    if OnRecord(obj, m, strReprLen).Ok? && OnRecord(obj, m, strReprLen).value.More? {
      var obj' := OnRecord(obj, m, strReprLen).value.obj;
      forall more ensures ParseObject(taken + [m] + more, expected, strReprLen) == ParseRecords(obj', more, strReprLen) {
        assert taken + [m] + more == taken + ([m] + more);
        assert ParseObject(taken + ([m] + more), expected, strReprLen) == ParseRecords(obj, [m] + more, strReprLen);
        assert ([m] + more)[1..] == more;
      }
    }
  }

  lemma PartialIsUnfinished(taken: seq<Message>, expected: Address, strReprLen: int, obj: CapturedObject)
    requires Partial(taken, expected, strReprLen, obj)
    ensures ParseObject(taken, expected, strReprLen) == Unfinished
  {
    assert taken + [] == taken;
  }

  /** How a reading of the upcoming messages went wrong: on a message, or because they ran out. */
  ghost predicate ObjectFails(all: (seq<Message>, Problem), taken: seq<Message>, expected: Address, strReprLen: int,
                              problem: Problem) {
    || (taken != [] && taken <= all.0 && ParseObject(Earlier(taken), expected, strReprLen) == Unfinished
        && ParseObject(taken, expected, strReprLen) == Broken(problem))
    || (all == (taken, problem) && ParseObject(taken, expected, strReprLen) == Unfinished)
  }

  lemma TakeOne(all: (seq<Message>, Problem), taken: seq<Message>, m: Message, rest: (seq<Message>, Problem))
    requires all == Before(taken, Before([m], rest))
    ensures all == Before(taken + [m], rest) && taken + [m] <= all.0
  {
    assert taken + ([m] + rest.0) == taken + [m] + rest.0;
  }

  /** One object, put together from its records. */
  method ReceiveObject(channel: FramedSocket, expected: Address, strReprLen: int)
    returns (r: Result<CapturedObject>, ghost taken: seq<Message>)
    modifies channel`pending, channel.socket`incoming
    ensures r.Ok? ==> ParseObject(taken, expected, strReprLen) == Complete(r.value, [])
    ensures r.Ok? ==> old(channel.Upcoming()) == Before(taken, channel.Upcoming())
    ensures r.Error? ==> ObjectFails(old(channel.Upcoming()), taken, expected, strReprLen, r.problem)
  {
    hide ParseObject, ParseRecords, Partial, WithRepr, DecodeObjectBegin, ReceiveAll, Next, DecodeAddresses, Pairs;
    ghost var all := channel.Upcoming();
    taken := [];
    NothingTaken(all, expected, strReprLen);
    var first := channel.Receive();
    if first.Error? {
      return Error(first.problem), [];
    }
    var m := first.value;
    taken := [m];
    TakeOne(all, [], m, channel.Upcoming());
    BrokenBegin(m, expected, strReprLen);
    assert Earlier(taken) == [];
    if m.kind == ERROR {
      return Error(AgentFailed), taken;
    }
    if m.kind != OBJECT_BEGIN {
      return Error(UnexpectedFrame), taken;
    }
    var begin := DecodeObjectBegin(m.payload);
    if begin.Error? {
      return Error(begin.problem), taken;
    }
    var b := begin.value;
    if b.address != expected {
      return Error(InvalidPayload), taken;
    }
    var kind := ContentKindOf(b.kindCode);
    if kind.None? {
      return Error(InvalidPayload), taken;
    }
    var obj := CapturedObject(b.address, b.typeAddress, b.typeName, b.shallowSize, kind.value, [], [], {}, [], []);
    PartialBegin(m, expected, strReprLen);
    while true
      invariant all == Before(taken, channel.Upcoming()) && Partial(taken, expected, strReprLen, obj)
      decreases |channel.Upcoming().0|
    {
      PartialIsUnfinished(taken, expected, strReprLen, obj);
      ghost var before := taken;
      var next := channel.Receive();
      if next.Error? {
        assert taken + [] == taken;
        return Error(next.problem), taken;
      }
      var frame := next.value;
      TakeOne(all, taken, frame, channel.Upcoming());
      PartialNext(taken, expected, strReprLen, obj, frame);
      taken := taken + [frame];
      assert Earlier(taken) == before;
      if frame.kind == REFERENTS {
        var addresses := DecodeAddresses(frame.payload);
        if addresses.Error? {
          return Error(addresses.problem), taken;
        }
        obj := obj.(referents := obj.referents + Artifact.SetOf(addresses.value));
      } else if frame.kind == SEQUENCE_CONTENT {
        var addresses := DecodeAddresses(frame.payload);
        if addresses.Error? {
          return Error(addresses.problem), taken;
        }
        obj := obj.(sequenceContent := obj.sequenceContent + addresses.value);
      } else if frame.kind == DICT_CONTENT {
        var entries := DecodeDictEntries(frame.payload);
        if entries.Error? {
          return Error(entries.problem), taken;
        }
        obj := obj.(dictContent := obj.dictContent + entries.value);
      } else if frame.kind == PREVIEW {
        obj := obj.(strRepr := frame.payload);
      } else if frame.kind == WARNING {
      } else if frame.kind == OBJECT_END {
        return Ok(WithRepr(obj, strReprLen)), taken;
      } else {
        return Error(if frame.kind == ERROR then AgentFailed else UnexpectedFrame), taken;
      }
    }
  }

  lemma NothingTaken(all: (seq<Message>, Problem), expected: Address, strReprLen: int)
    ensures all == Before([], all) && ParseObject([], expected, strReprLen) == Unfinished
  {
    assert [] + all.0 == all.0;
  }

  // ---------------------------------------------------------------- the worklist

  /** The addresses seen so far, and those of them not yet requested. */
  class PendingWork {
    var scheduled: set<Address>
    var pending: seq<Address>

    ghost function View(): Worklist
      reads this
    {
      Worklist(scheduled, pending)
    }

    constructor ()
      ensures View() == Worklist({}, [])
    {
      scheduled, pending := {}, [];
    }

    method Schedule(addresses: seq<Address>)
      modifies this
      ensures View() == CollectorModel.Schedule(old(View()), addresses)
    {
      hide CollectorModel.Schedule;
      ScheduleNext(View(), [], 0);
      for i := 0 to |addresses|
        invariant View() == CollectorModel.Schedule(old(View()), addresses[..i])
      {
        var address := addresses[i];
        ScheduleNext(old(View()), addresses[..i], address);
        assert addresses[..i + 1] == addresses[..i] + [address];
        if address != 0 && address !in scheduled {
          scheduled := scheduled + {address};
          pending := pending + [address];
        }
      }
      assert addresses[..|addresses|] == addresses;
    }

    /** Takes the last `n` addresses, last first. */
    method PopBatch(n: nat) returns (batch: seq<Address>)
      requires n <= |pending|
      modifies this`pending
      ensures batch == Popped(old(pending), n) && pending == old(pending)[..|old(pending)| - n]
    {
      hide Popped;
      batch := [];
      ghost var all := pending;
      assert [] + Popped(all, n) == Popped(all, n);
      for i := 0 to n
        invariant |pending| == |all| - i && pending <= all && Popped(all, n) == batch + Popped(pending, n - i)
      {
        PopStep(batch, pending, n - i);
        batch := batch + [pending[|pending| - 1]];
        pending := pending[..|pending| - 1];
      }
      PoppedNext(pending, 0);
      assert pending == all[..|pending|];
    }
  }

  lemma PopStep(batch: seq<Address>, pending: seq<Address>, n: nat)
    requires 0 < n <= |pending|
    ensures batch + Popped(pending, n) == batch + [pending[|pending| - 1]] + Popped(pending[..|pending| - 1], n - 1)
  {
    hide Popped;
    PoppedNext(pending, n);
  }

  // ---------------------------------------------------------------- the artifact being written

  /** The header's table of well-known types. */
  function KnownOf(addresses: seq<Address>): map<Text, Address>
    requires |addresses| == |WELL_KNOWN_TYPE_NAMES|
  {
    Artifact.MapOf(seq(|addresses|, i requires 0 <= i < |addresses| => (WELL_KNOWN_TYPE_NAMES[i], addresses[i])))
  }

  /** Each name has the address at its place, and no other name is in the table. */
  lemma KnownByPosition(addresses: seq<Address>)
    requires |addresses| == |WELL_KNOWN_TYPE_NAMES|
    ensures forall i | 0 <= i < |addresses| ::
              WELL_KNOWN_TYPE_NAMES[i] in KnownOf(addresses) && KnownOf(addresses)[WELL_KNOWN_TYPE_NAMES[i]] == addresses[i]
    ensures forall n | n in KnownOf(addresses) :: n in WELL_KNOWN_TYPE_NAMES
    ensures KnownRead(KnownOf(addresses)) == KnownOf(addresses)
  {
    hide Artifact.MapOf, Artifact.Ascii;
    var pairs := seq(|addresses|, i requires 0 <= i < |addresses| => (WELL_KNOWN_TYPE_NAMES[i], addresses[i]));
    NamesDiffer();
    forall i | 0 <= i < |addresses|
      ensures WELL_KNOWN_TYPE_NAMES[i] in KnownOf(addresses)
      ensures KnownOf(addresses)[WELL_KNOWN_TYPE_NAMES[i]] == addresses[i]
    {
      Artifact.LastEntryStays(pairs, i);
    }
    forall n | n in KnownOf(addresses) ensures n in WELL_KNOWN_TYPE_NAMES {
      var i := Artifact.KeyHasEntry(pairs, n);
      assert pairs[i].0 == n;
    }
  }

  lemma KnownIsComplete(addresses: seq<Address>)
    requires |addresses| == |WELL_KNOWN_TYPE_NAMES| && AllWide(addresses)
    ensures NamesAll(KnownOf(addresses)) && FitsNames(KnownPairs(KnownOf(addresses)))
  {
    hide Artifact.Ascii, KnownOf;
    KnownByPosition(addresses);
  }

  ghost function ObjectContext(known: map<Text, Address>, withStrRepr: bool): Artifact.Context {
    Artifact.Context(KnownRead(known), withStrRepr, [], {})
  }

  /** The file holds the head of an artifact, with room for the count, and the objects written so far. */
  ghost predicate Writing(writer: W.HeapWriter, head: Octets, known: map<Text, Address>, written: seq<CapturedObject>)
    reads writer, writer.file
  {
    && writer.AtEnd() && |head| >= 4 && writer.objectCountOffset == Some(|head| - 4)
    && writer.objectCount == |written| && NamesAll(known) && ObjectContext(known, writer.withStrRepr).Valid()
    && writer.file.bytes == head + ObjectsBytes(written, ObjectContext(known, writer.withStrRepr))
  }

  ghost function HeadBytes(known: map<Text, Address>, createdAt: Text, withStrRepr: bool): Octets
    requires NamesAll(known)
  {
    ArtifactRoundTrip.HeaderBytes(known, createdAt, withStrRepr) + Parsing.CountedBytes([]) + Be(0, 4) + Be(0, 4) + Be(0, 4)
  }

  method BeginArtifact(writer: W.HeapWriter, known: map<Text, Address>, createdAt: Text) returns (ok: bool)
    requires writer.AtEnd() && writer.file.bytes == [] && writer.objectCount == 0
    requires NamesAll(known) && FitsNames(KnownPairs(known))
    modifies writer, writer.file
    ensures ok && Writing(writer, HeadBytes(known, createdAt, writer.withStrRepr), known, [])
  {
    hide NamesAll, FitsNames, KnownPairs, ArtifactRoundTrip.HeaderBytes, Be, KnownRead, Artifact.HasContainers, FitsThread;
    ContainersNamed(known);
    ok := writer.WriteHeader(known, createdAt);
    ok := writer.WriteThreads([]);
    writer.BeginObjects();
  }

  method WriteOne(writer: W.HeapWriter, ghost head: Octets, known: map<Text, Address>, ghost written: seq<CapturedObject>,
                  obj: CapturedObject) returns (ok: bool)
    requires Writing(writer, head, known, written)
    modifies writer`objectCount, writer.file
    ensures ok == FitsObject(obj)
    ensures ok ==> Writing(writer, head, known, written + [obj])
  {
    hide NamesAll, FitsObject, ObjectBytes, ObjectsBytes, KnownRead, Artifact.HasContainers;
    W.SameObjectBytes(obj, known, writer.withStrRepr);
    ok := writer.WriteObject(obj, known);
    W.ObjectsBytesNext(written, obj, ObjectContext(known, writer.withStrRepr));
  }

  /** The finished file: the count in its place, the objects, the type table. */
  ghost function FinishedBytes(head: Octets, known: map<Text, Address>, withStrRepr: bool, written: seq<CapturedObject>,
                               types: map<Address, Text>): Octets
    requires |head| >= 4 && ObjectContext(known, withStrRepr).Valid()
  {
    head[..|head| - 4] + Be(|written|, 4) + ObjectsBytes(written, ObjectContext(known, withStrRepr)) + FooterBytes(types)
  }

  method FinishArtifact(writer: W.HeapWriter, ghost head: Octets, known: map<Text, Address>, types: map<Address, Text>,
                        ghost written: seq<CapturedObject>) returns (ok: bool)
    requires Writing(writer, head, known, written)
    modifies writer, writer.file
    ensures ok == (|written| <= MAX_UINT32 && W.FitsTypes(types)) && writer.objectCount == |written|
    ensures |head| >= 4 && ObjectContext(known, writer.withStrRepr).Valid()
    ensures ok ==> writer.file.bytes == FinishedBytes(head, known, writer.withStrRepr, written, types)
  {
    hide NamesAll, ObjectsBytes, FooterBytes, Be, KnownRead, Artifact.HasContainers, W.FitsTypes;
    ghost var before, o := writer.file.bytes, |head| - 4;
    ghost var objects := ObjectsBytes(written, ObjectContext(known, writer.withStrRepr));
    ok := writer.Finish(types);
    assert before[..o] == head[..o] && before[o + 4..] == objects;
  }

  // ---------------------------------------------------------------- the capture

  /**
   * A capture that ended with a problem: either a message led the machine to fail with it, or the messages
   * ran out with it.
   */
  ghost predicate Stopped(cfg: Config, all: (seq<Message>, Problem), messages: seq<Message>, c: CollectorState,
                          problem: Problem)
    requires cfg.Valid()
  {
    && Runs(cfg, messages, c) && messages <= all.0
    && (c.phase == Failed(problem) || (all == (messages, problem) && !c.phase.Finished?))
  }

  lemma StoppedByStream(cfg: Config, all: (seq<Message>, Problem), messages: seq<Message>, c: CollectorState,
                        problem: Problem)
    requires cfg.Valid() && Runs(cfg, messages, c) && !c.phase.Finished? && all == Before(messages, ([], problem))
    ensures Stopped(cfg, all, messages, c, problem)
  {
    hide Runs;
    assert messages + [] == messages;
  }

  lemma StoppedByMessage(cfg: Config, all: (seq<Message>, Problem), messages: seq<Message>, c: CollectorState, m: Message,
                         c': CollectorState, rest: (seq<Message>, Problem), problem: Problem)
    requires cfg.Valid() && Runs(cfg, messages, c) && Step(cfg, c, m, c') && c'.phase == Failed(problem)
    requires all == Before(messages, Before([m], rest))
    ensures Stopped(cfg, all, messages + [m], c', problem)
  {
    hide Runs, Step;
    RunsMore(cfg, messages, c, m, c');
    TakeOne(all, messages, m, rest);
  }

  ghost function Listed(taken: Option<Message>): seq<Message> {
    if taken.Some? then [taken.value] else []
  }

  /** A frame that did not come, or was not the expected one. */
  lemma FrameFails(cfg: Config, all: (seq<Message>, Problem), messages: seq<Message>, c: CollectorState,
                   taken: Option<Message>, c': CollectorState, rest: (seq<Message>, Problem), problem: Problem)
    requires cfg.Valid() && Runs(cfg, messages, c) && !c.phase.Finished?
    requires taken.Some? ==>
               && Step(cfg, c, taken.value, c') && c'.phase == Failed(problem)
               && all == Before(messages, Before([taken.value], rest))
    requires taken.None? ==> c' == c && all == Before(messages, ([], problem))
    ensures Stopped(cfg, all, messages + Listed(taken), c', problem)
  {
    hide Runs, Step, Stopped;
    if taken.Some? {
      StoppedByMessage(cfg, all, messages, c, taken.value, c', rest, problem);
    } else {
      StoppedByStream(cfg, all, messages, c, problem);
      assert messages + [] == messages;
    }
  }

  method ExpectFrame(channel: FramedSocket, kind: Kind) returns (r: Result<Octets>, ghost taken: Option<Message>)
    modifies channel`pending, channel.socket`incoming
    ensures taken.Some? ==> r == Expect(taken.value, kind)
    ensures taken.Some? ==> old(channel.Upcoming()) == Before([taken.value], channel.Upcoming())
    ensures taken.None? ==> r.Error? && old(channel.Upcoming()) == ([], r.problem)
  {
    hide ReceiveAll, Next;
    var frame := channel.Receive();
    if frame.Error? {
      return Error(frame.problem), None;
    }
    taken := Some(frame.value);
    if frame.value.kind == ERROR && kind != ERROR {
      return Error(AgentFailed), taken;
    }
    if frame.value.kind != kind {
      return Error(UnexpectedFrame), taken;
    }
    return Ok(frame.value.payload), taken;
  }

  /** What the artifact of a capture is to hold. */
  ghost function CaptureOf(cfg: Config, createdAt: Text, c: CollectorState): Capture
    requires |c.wellKnown| == |WELL_KNOWN_TYPE_NAMES|
  {
    Capture(KnownOf(c.wellKnown), createdAt, cfg.strReprLen >= 0, [], c.written, c.types)
  }

  /** What the file of a finished capture holds. */
  ghost function FileOf(cfg: Config, createdAt: Text, c: CollectorState): Octets
    requires |c.wellKnown| == |WELL_KNOWN_TYPE_NAMES| && NamesAll(KnownOf(c.wellKnown))
  {
    var known, withStrRepr := KnownOf(c.wellKnown), cfg.strReprLen >= 0;
    ContainersNamed(known);
    FinishedBytes(HeadBytes(known, createdAt, withStrRepr), known, withStrRepr, c.written, c.types)
  }

  /** It is the artifact of the capture: one that a reader reads back. */
  lemma FileIsArtifact(cfg: Config, createdAt: Text, c: CollectorState)
    requires |c.wellKnown| == |WELL_KNOWN_TYPE_NAMES| && Fits(CaptureOf(cfg, createdAt, c))
    ensures NamesAll(KnownOf(c.wellKnown)) && FileOf(cfg, createdAt, c) == ArtifactBytes(CaptureOf(cfg, createdAt, c))
    ensures Artifact.ReadArtifact(FileOf(cfg, createdAt, c)) ==
            Parsing.Ok(HeapRead(CaptureOf(cfg, createdAt, c)), |FileOf(cfg, createdAt, c)|)
  {
    RoundTrip(CaptureOf(cfg, createdAt, c));
    InOrder(cfg, createdAt, c);
  }

  lemma InOrder(cfg: Config, createdAt: Text, c: CollectorState)
    requires |c.wellKnown| == |WELL_KNOWN_TYPE_NAMES| && Fits(CaptureOf(cfg, createdAt, c))
    ensures NamesAll(KnownOf(c.wellKnown)) && FileOf(cfg, createdAt, c) == ArtifactBytes(CaptureOf(cfg, createdAt, c))
  {
    hide FitsNames, KnownPairs, KnownRead, NamesAll, ArtifactRoundTrip.HeaderBytes, FitsThread,
         ObjectsBytes, FooterBytes, Be, FitsObjects, ArtifactBytes, Artifact.HasContainers, KnownOf, Parsing.CountedBytes;
    var cap := CaptureOf(cfg, createdAt, c);
    var zero, count := Be(0, 4), Be(|c.written|, 4);
    assert ThreadParts([]) == [];
    W.ArtifactInOrder(cap);
    var head := ArtifactRoundTrip.HeaderBytes(cap.known, createdAt, cap.withStrRepr) + Parsing.CountedBytes([]);
    var all := head + zero + zero + zero;
    assert all[..|all| - 4] == head + zero + zero;
    assert FinishedBytes(all, cap.known, cap.withStrRepr, c.written, c.types) ==
           head + (zero + (zero + (count + (ObjectsBytes(c.written, ContextOf(cap)) + FooterBytes(c.types)))));
  }

  class Collector {
    const cfg: Config

    constructor (cfg: Config)
      requires cfg.Valid()
      ensures this.cfg == cfg
    {
      this.cfg := cfg;
    }

    /** The Agent's hello, checked and acknowledged. */
    method Greet(channel: FramedSocket) returns (r: Result<()>, ghost messages: seq<Message>, ghost c: CollectorState)
      requires cfg.Valid()
      modifies channel`pending, channel.socket
      ensures r.Ok? ==> Runs(cfg, messages, c) && c == Initial().(phase := AwaitWellKnown, sent := [Ack(cfg)])
      ensures r.Ok? ==> old(channel.Upcoming()) == Before(messages, channel.Upcoming())
      ensures r.Error? ==> Stopped(cfg, old(channel.Upcoming()), messages, c, r.problem)
      ensures channel.socket.sent == old(channel.socket.sent) + Wire(c.sent)
    {
      hide Runs, Stopped, ReceiveAll, DecodeHello, EncodeOptions, WireBytes;
      ghost var all, before := channel.Upcoming(), Initial();
      RunsNothing(cfg);
      StartTaking(all);
      var hello;
      ghost var taken;
      hello, taken := ExpectFrame(channel, HELLO);
      messages, c := Listed(taken), if taken.Some? then OnSetup(cfg, before, taken.value) else before;
      assert [] + messages == messages;
      if hello.Error? {
        FrameFails(cfg, all, [], before, taken, c, channel.Upcoming(), hello.problem);
        return Error(hello.problem), messages, c;
      }
      ghost var m := taken.value;
      var decoded := DecodeHello(hello.value);
      if decoded.Error? {
        StoppedByMessage(cfg, all, [], before, m, c, channel.Upcoming(), decoded.problem);
        return Error(decoded.problem), messages, c;
      }
      var h := decoded.value;
      if h.nonce != cfg.nonce || h.pythonMajor != 3 || h.pythonMinor < 10 || h.pointerSize != 8 || !h.littleEndian {
        StoppedByMessage(cfg, all, [], before, m, c, channel.Upcoming(), InvalidPayload);
        return Error(InvalidPayload), messages, c;
      }
      RunsMore(cfg, [], before, m, c);
      AckFits(cfg);
      WireSingle(Ack(cfg));
      r := channel.Send(HELLO_ACK, EncodeOptions(cfg.strReprLen, cfg.dumpAttributes));
    }

    method ReceiveWellKnown(channel: FramedSocket, ghost messages0: seq<Message>, ghost c0: CollectorState)
      returns (r: Result<seq<Address>>, ghost messages: seq<Message>, ghost c: CollectorState)
      requires cfg.Valid() && Runs(cfg, messages0, c0) && c0.phase.AwaitWellKnown?
      modifies channel`pending, channel.socket`incoming
      ensures r.Ok? ==> Runs(cfg, messages, c) && c == c0.(phase := AwaitRoots, wellKnown := r.value)
      ensures r.Ok? ==> |r.value| == |WELL_KNOWN_TYPE_NAMES| && AllWide(r.value)
      ensures r.Ok? ==> Before(messages0, old(channel.Upcoming())) == Before(messages, channel.Upcoming())
      ensures r.Error? ==> Stopped(cfg, Before(messages0, old(channel.Upcoming())), messages, c, r.problem)
      ensures c.sent == c0.sent
    {
      hide Runs, Stopped, ReceiveAll, DecodeAddresses;
      ghost var all := Before(messages0, channel.Upcoming());
      var known;
      ghost var taken;
      known, taken := ExpectFrame(channel, WELL_KNOWN);
      messages, c := messages0 + Listed(taken), if taken.Some? then OnSetup(cfg, c0, taken.value) else c0;
      if known.Error? {
        FrameFails(cfg, all, messages0, c0, taken, c, channel.Upcoming(), known.problem);
        return Error(known.problem), messages, c;
      }
      ghost var m := taken.value;
      r := DecodeAddresses(known.value);
      if r.Ok? && |r.value| != |WELL_KNOWN_TYPE_NAMES| {
        r := Error(InvalidPayload);
      }
      if r.Error? {
        StoppedByMessage(cfg, all, messages0, c0, m, c, channel.Upcoming(), r.problem);
        return r, messages, c;
      }
      RunsMore(cfg, messages0, c0, m, c);
      TakeOne(all, messages0, m, channel.Upcoming());
      AddressesInverse(r.value, known.value);
    }

    /** Root batches until the roots are done; the first request comes after that. */
    method ReceiveRoots(channel: FramedSocket, work: PendingWork, ghost messages0: seq<Message>, ghost c0: CollectorState)
      returns (r: Result<()>, ghost messages: seq<Message>, ghost c: CollectorState)
      requires cfg.Valid() && Runs(cfg, messages0, c0) && c0.phase.AwaitRoots?
      requires |c0.wellKnown| == |WELL_KNOWN_TYPE_NAMES| && c0.work == work.View()
      modifies channel`pending, channel.socket`incoming, work
      ensures r.Ok? ==> exists done :: RootsTaken(c0, done) && c == done.(types := WellKnownTypes(c0.wellKnown))
      ensures r.Ok? ==> Runs(cfg, messages, NextRequest(cfg, c.(work := CollectorModel.Schedule(c.work, c0.wellKnown))))
      ensures r.Ok? ==> work.View() == c.work
      ensures r.Ok? ==> Before(messages0, old(channel.Upcoming())) == Before(messages, channel.Upcoming())
      ensures r.Error? ==> Stopped(cfg, Before(messages0, old(channel.Upcoming())), messages, c, r.problem)
      ensures c.sent == c0.sent
    {
      hide Runs, Stopped, ReceiveAll, DecodeAddresses, CollectorModel.Schedule, NextRequest, WellKnownTypes;
      ghost var all := Before(messages0, channel.Upcoming());
      messages, c := messages0, c0;
      while true
        invariant Runs(cfg, messages, c) && all == Before(messages, channel.Upcoming())
        invariant RootsTaken(c0, c) && work.View() == c.work
        decreases |channel.Upcoming().0|
      {
        var received := channel.Receive();
        if received.Error? {
          StoppedByStream(cfg, all, messages, c, received.problem);
          return Error(received.problem), messages, c;
        }
        var frame := received.value;
        ghost var before, c' := messages, OnRoots(cfg, c, frame);
        TakeOne(all, messages, frame, channel.Upcoming());
        if frame.kind == ROOT_BATCH {
          var addresses := DecodeAddresses(frame.payload);
          if addresses.Error? {
            StoppedByMessage(cfg, all, messages, c, frame, c', channel.Upcoming(), addresses.problem);
            return Error(addresses.problem), messages + [frame], c';
          }
          work.Schedule(addresses.value);
        } else if frame.kind == ROOTS_DONE {
          RunsMore(cfg, messages, c, frame, c');
          messages, c := messages + [frame], c.(types := WellKnownTypes(c0.wellKnown));
          return Ok(()), messages, c;
        } else {
          r := Error(if frame.kind == ERROR then AgentFailed else UnexpectedFrame);
          StoppedByMessage(cfg, all, messages, c, frame, c', channel.Upcoming(), r.problem);
          return r, messages + [frame], c';
        }
        RunsMore(cfg, messages, c, frame, c');
        messages, c := messages + [frame], c';
      }
    }

    method ScheduleContent(work: PendingWork, obj: CapturedObject)
      modifies work
      ensures work.View() == CollectorModel.Schedule(old(work.View()), ContentEdges(obj))
    {
      hide CollectorModel.Schedule, Flat;
      if obj.contentKind.DICT? {
        ghost var before := work.View();
        var entries := obj.dictContent;
        ScheduleNext(before, [], 0);
        assert Flat(entries[..0]) == [] by {
          assert |Flat(entries[..0])| == 0;
        }
        for i := 0 to |entries|
          invariant work.View() == CollectorModel.Schedule(before, Flat(entries[..i]))
        {
          var pair := [entries[i].0, entries[i].1];
          work.Schedule(pair);
          ScheduleMore(before, Flat(entries[..i]), pair);
          FlatNext(entries[..i], entries[i]);
          assert entries[..i + 1] == entries[..i] + [entries[i]];
          assert Flat(entries[..i]) + [entries[i].0] + [entries[i].1] == Flat(entries[..i]) + pair;
        }
        assert entries[..|entries|] == entries;
      } else {
        work.Schedule(obj.sequenceContent);
      }
    }

    /** Referents in whatever order the set gives them, content, type. */
    method ScheduleObject(work: PendingWork, obj: CapturedObject) returns (ghost order: seq<Address>)
      modifies work
      ensures Enumerates(order, obj.referents)
      ensures work.View() ==
              CollectorModel.Schedule(old(work.View()), order + ContentEdges(obj) + [obj.typeAddress])
    {
      hide CollectorModel.Schedule, ContentEdges;
      ghost var before := work.View();
      var referents := ListOf(obj.referents);
      order := referents;
      work.Schedule(referents);
      ScheduleContent(work, obj);
      ScheduleMore(before, order, ContentEdges(obj));
      work.Schedule([obj.typeAddress]);
      ScheduleMore(before, order + ContentEdges(obj), [obj.typeAddress]);
    }

    /** One requested object: received, written, and everything it refers to scheduled. */
    method CaptureObject(channel: FramedSocket, writer: W.HeapWriter, work: PendingWork, types: map<Address, Text>,
                         known: map<Text, Address>, expected: Address, ghost head: Octets,
                         ghost messages0: seq<Message>, ghost c0: CollectorState)
      returns (r: Result<map<Address, Text>>, ghost messages: seq<Message>, ghost c: CollectorState)
      requires cfg.Valid() && Runs(cfg, messages0, c0) && c0.phase.AwaitObject? && c0.phase.seen == []
      requires c0.phase.expected == expected && c0.work == work.View() && c0.types == types
      requires Writing(writer, head, known, c0.written)
      modifies channel`pending, channel.socket`incoming, work, writer`objectCount, writer.file
      ensures r.Ok? ==> Runs(cfg, messages, c) && Advanced(c0, c) && c.work == work.View() && c.types == r.value
      ensures r.Ok? ==> Writing(writer, head, known, c.written)
      ensures r.Ok? ==> Before(messages0, old(channel.Upcoming())) == Before(messages, channel.Upcoming())
      ensures r.Ok? ==> |messages| > |messages0|
      ensures r.Error? ==> Stopped(cfg, Before(messages0, old(channel.Upcoming())), messages, c, r.problem)
      ensures c.sent == c0.sent
    {
      hide Runs, Stopped, ReceiveAll, ParseObject, CollectorModel.Schedule, Writing, FitsObject, Enumerates, AfterObject,
           ObjectFails, Waiting;
      ghost var all := Before(messages0, channel.Upcoming());
      var received;
      ghost var taken;
      received, taken := ReceiveObject(channel, expected, cfg.strReprLen);
      messages := messages0 + taken;
      if received.Error? {
        c := ObjectStops(cfg, all, messages0, c0, taken, old(channel.Upcoming()), received.problem);
        return Error(received.problem), messages, c;
      }
      var obj := received.value;
      assert all == Before(messages, channel.Upcoming()) by {
        assert messages0 + (taken + channel.Upcoming().0) == messages0 + taken + channel.Upcoming().0;
      }
      var ok := WriteOne(writer, head, known, c0.written, obj);
      if !ok {
        RunsObjectFails(cfg, messages0, c0, taken, WriterFailed);
        c := Fail(c0, WriterFailed);
        StoppedAt(cfg, all, messages, c, WriterFailed);
        return Error(WriterFailed), messages, c;
      }
      ghost var order := ScheduleObject(work, obj);
      ObjectNeedsMessages(taken, expected, cfg.strReprLen);
      RunsObject(cfg, messages0, c0, taken, obj, order);
      c := AfterObject(c0, obj, order, c0.phase.remaining);
      AfterIs(c0, obj, order);
      return Ok(types[obj.typeAddress := obj.typeName]), messages, c;
    }

    /** All objects of one request, and the end of the batch. */
    method CaptureBatch(channel: FramedSocket, writer: W.HeapWriter, work: PendingWork, types: map<Address, Text>,
                        known: map<Text, Address>, batch: seq<Address>, ghost head: Octets,
                        ghost messages0: seq<Message>, ghost c0: CollectorState)
      returns (r: Result<map<Address, Text>>, ghost messages: seq<Message>, ghost c: CollectorState)
      requires cfg.Valid() && Runs(cfg, messages0, c0) && batch != []
      requires c0.phase == AwaitObject([], batch[0], batch[1..]) && c0.work == work.View() && c0.types == types
      requires Writing(writer, head, known, c0.written)
      modifies channel`pending, channel.socket`incoming, work, writer`objectCount, writer.file
      ensures r.Ok? ==> Runs(cfg, messages, NextRequest(cfg, c)) && BatchTaken(c0, c) && c.phase.AwaitBatchDone?
      ensures r.Ok? ==> c.work == work.View() && c.types == r.value && Writing(writer, head, known, c.written)
      ensures r.Ok? ==> Before(messages0, old(channel.Upcoming())) == Before(messages, channel.Upcoming())
      ensures r.Ok? ==> |messages| > |messages0|
      ensures r.Error? ==> Stopped(cfg, Before(messages0, old(channel.Upcoming())), messages, c, r.problem)
      ensures c.sent == c0.sent
    {
      hide Runs, Stopped, ReceiveAll, Writing, NextRequest;
      ghost var all := Before(messages0, channel.Upcoming());
      messages, c := messages0, c0;
      var entered := types;
      for i := 0 to |batch|
        invariant Runs(cfg, messages, c) && BatchTaken(c0, c) && |messages| >= |messages0|
        invariant c.phase == if i < |batch| then AwaitObject([], batch[i], batch[i + 1..]) else AwaitBatchDone
        invariant c.work == work.View() && c.types == entered && Writing(writer, head, known, c.written)
        invariant all == Before(messages, channel.Upcoming())
      {
        ghost var before := messages;
        var result;
        result, messages, c := CaptureObject(channel, writer, work, entered, known, batch[i], head, messages, c);
        if result.Error? {
          return result, messages, c;
        }
        entered := result.value;
        assert i + 1 < |batch| ==> batch[i + 1..][0] == batch[i + 1] && batch[i + 1..][1..] == batch[i + 2..];
      }
      var done;
      ghost var taken;
      done, taken := ExpectFrame(channel, BATCH_DONE);
      ghost var c' := if taken.None? then c else if done.Error? then Fail(c, done.problem) else NextRequest(cfg, c);
      if done.Error? {
        FrameFails(cfg, all, messages, c, taken, c', channel.Upcoming(), done.problem);
        return Error(done.problem), messages + Listed(taken), c';
      }
      RunsMore(cfg, messages, c, taken.value, c');
      TakeOne(all, messages, taken.value, channel.Upcoming());
      return Ok(entered), messages + [taken.value], c;
    }

    /** Requests, batch by batch, until nothing is pending. */
    method CapturePending(channel: FramedSocket, writer: W.HeapWriter, work: PendingWork, types0: map<Address, Text>,
                          known: map<Text, Address>, ghost head: Octets, ghost messages0: seq<Message>,
                          ghost c0: CollectorState)
      returns (r: Result<map<Address, Text>>, ghost messages: seq<Message>, ghost c: CollectorState)
      requires cfg.Valid() && Runs(cfg, messages0, NextRequest(cfg, c0)) && c0.work == work.View() && c0.types == types0
      requires Writing(writer, head, known, c0.written)
      modifies channel`pending, channel.socket, work, writer`objectCount, writer.file
      ensures r.Ok? ==> Runs(cfg, messages, NextRequest(cfg, c)) && c.work.pending == [] && Known(c0, c)
      ensures r.Ok? ==> c.types == r.value && Writing(writer, head, known, c.written)
      ensures r.Ok? ==> Before(messages0, old(channel.Upcoming())) == Before(messages, channel.Upcoming())
      ensures r.Error? ==> Stopped(cfg, Before(messages0, old(channel.Upcoming())), messages, c, r.problem)
      ensures old(channel.socket.sent) + Wire(Since(c0, c)) == channel.socket.sent && c0.sent <= c.sent
    {
      hide Runs, Stopped, ReceiveAll, Writing, Popped, Wire, WireBytes, EncodeAddresses;
      ghost var all := Before(messages0, channel.Upcoming());
      messages, c := messages0, c0;
      var types := types0;
      SentNothing(c0);
      while work.pending != []
        invariant Runs(cfg, messages, NextRequest(cfg, c)) && all == Before(messages, channel.Upcoming())
        invariant c.work == work.View() && c.types == types && Writing(writer, head, known, c.written) && Known(c0, c)
        invariant old(channel.socket.sent) + Wire(Since(c0, c)) == channel.socket.sent && c0.sent <= c.sent
        decreases |all.0| - |messages|
      {
        var n := if cfg.batchSize < |work.pending| then cfg.batchSize else |work.pending|;
        PoppedAll(work.pending, n);
        var batch := work.PopBatch(n);
        ghost var before := c;
        c := NextRequest(cfg, before);
        var sent := channel.Send(REQUEST_OBJECTS, EncodeAddresses(batch));
        if sent.Error? {
          StoppedAt(cfg, all, messages, c, PayloadTooLarge);
          return Error(PayloadTooLarge), messages, c;
        }
        SentMore(c0, before, c, Request(batch));
        assert batch == [batch[0]] + batch[1..];
        var result;
        ghost var asked := c;
        result, messages, c := CaptureBatch(channel, writer, work, types, known, batch, head, messages, asked);
        if result.Error? {
          return result, messages, c;
        }
        types := result.value;
      }
      return Ok(types), messages, c;
    }

    /** The end: the Agent lets go of its process, and the artifact is finished. */
    method Complete(channel: FramedSocket, writer: W.HeapWriter, types: map<Address, Text>, known: map<Text, Address>,
                    ghost head: Octets, ghost messages0: seq<Message>, ghost c0: CollectorState)
      returns (r: Result<nat>, ghost messages: seq<Message>, ghost c: CollectorState)
      requires cfg.Valid() && Runs(cfg, messages0, NextRequest(cfg, c0)) && c0.work.pending == [] && c0.types == types
      requires Writing(writer, head, known, c0.written)
      modifies channel`pending, channel.socket, writer, writer.file
      ensures Ended(cfg, Before(messages0, old(channel.Upcoming())), messages, c, r)
      ensures c.written == c0.written && c.types == types && Known(c0, c) && c.sent == c0.sent + [Message(FINISH, [])]
      ensures |head| >= 4 && ObjectContext(known, writer.withStrRepr).Valid()
      ensures r.Ok? ==> writer.file.bytes == FinishedBytes(head, known, writer.withStrRepr, c.written, types)
      ensures channel.socket.sent == old(channel.socket.sent) + WireBytes(Message(FINISH, []))
    {
      hide ReceiveAll, WireBytes, FinishedBytes, Ended, Writing, NextRequest, Runs, Known, Before, W.FitsTypes;
      ghost var all := Before(messages0, channel.Upcoming());
      var _ := channel.Send(FINISH, []);
      var complete;
      ghost var taken;
      complete, taken := ExpectFrame(channel, COMPLETE);
      ghost var outcome;
      messages, c, outcome := LastStep(cfg, all, messages0, c0, taken, complete, channel.Upcoming());
      WritingHead(writer, head, known, c0.written);
      if complete.Error? {
        return Error(complete.problem), messages, c;
      }
      var finished := FinishArtifact(writer, head, known, types, c0.written);
      if !finished {
        return Error(WriterFailed), messages, c;
      }
      return Ok(writer.objectCount), messages, c;
    }

    /** From the hello to the first objects: the header of the artifact is written as soon as the types are known. */
    method Setup(channel: FramedSocket, writer: W.HeapWriter, work: PendingWork, createdAt: Text)
      returns (r: Result<seq<Address>>, ghost messages: seq<Message>, ghost c: CollectorState)
      requires cfg.Valid() && writer.AtEnd() && writer.file.bytes == [] && writer.objectCount == 0
      requires work.View() == Worklist({}, [])
      modifies channel`pending, channel.socket, writer, writer.file, work
      ensures r.Ok? ==> Runs(cfg, messages, NextRequest(cfg, c)) && c.work == work.View() && c.wellKnown == r.value
      ensures r.Ok? ==> |r.value| == |WELL_KNOWN_TYPE_NAMES| && c.types == WellKnownTypes(r.value) && c.written == []
      ensures r.Ok? ==> old(channel.Upcoming()) == Before(messages, channel.Upcoming())
      ensures r.Ok? ==>
                && NamesAll(KnownOf(r.value))
                && Writing(writer, HeadBytes(KnownOf(r.value), createdAt, writer.withStrRepr), KnownOf(r.value), [])
      ensures r.Error? ==> Stopped(cfg, old(channel.Upcoming()), messages, c, r.problem)
      ensures channel.socket.sent == old(channel.socket.sent) + Wire(c.sent)
    {
      hide Runs, ReceiveAll, Writing, Wire, WireBytes, CollectorModel.Schedule, WellKnownTypes, HeadBytes, KnownOf,
           NextRequest, Stopped, NamesAll;
      var greeted;
      greeted, messages, c := Greet(channel);
      if greeted.Error? {
        return Error(greeted.problem), messages, c;
      }
      r, messages, c := ReceiveWellKnown(channel, messages, c);
      if r.Error? {
        return;
      }
      KnownIsComplete(r.value);
      var _ := BeginArtifact(writer, KnownOf(r.value), createdAt);
      var roots;
      roots, messages, c := ReceiveRoots(channel, work, messages, c);
      if roots.Error? {
        return Error(roots.problem), messages, c;
      }
      work.Schedule(r.value);
      c := c.(work := CollectorModel.Schedule(c.work, c.wellKnown));
    }

    /**
     * A whole capture against any peer. It ends well exactly when the messages take the machine to its end;
     * the file then is the artifact of what the machine has written.
     */
    method Capture(channel: FramedSocket, writer: W.HeapWriter, createdAt: Text)
      returns (r: Result<nat>, ghost messages: seq<Message>, ghost c: CollectorState)
      requires cfg.Valid() && writer.AtEnd() && writer.file.bytes == [] && writer.objectCount == 0
      requires writer.withStrRepr == (cfg.strReprLen >= 0)
      modifies channel`pending, channel.socket, writer, writer.file
      ensures Ended(cfg, old(channel.Upcoming()), messages, c, r)
      ensures r.Ok? ==> |c.wellKnown| == |WELL_KNOWN_TYPE_NAMES|
      ensures r.Ok? ==> NamesAll(KnownOf(c.wellKnown)) && writer.file.bytes == FileOf(cfg, createdAt, c)
      ensures channel.socket.sent == old(channel.socket.sent) + Wire(c.sent)
    {
      hide Runs, ReceiveAll, Writing, Wire, WireBytes, WellKnownTypes, HeadBytes, KnownOf, FinishedBytes, NextRequest,
           Stopped, NamesAll, Ended, Before, Since;
      ghost var all, sent0 := channel.Upcoming(), channel.socket.sent;
      var work := new PendingWork();
      var wellKnown;
      wellKnown, messages, c := Setup(channel, writer, work, createdAt);
      if wellKnown.Error? {
        StoppedEnds(cfg, all, messages, c, wellKnown.problem);
        return Error(wellKnown.problem), messages, c;
      }
      var known := KnownOf(wellKnown.value);
      ghost var head := HeadBytes(known, createdAt, writer.withStrRepr);
      var types;
      ghost var start := c;
      types, messages, c :=
        CapturePending(channel, writer, work, WellKnownTypes(wellKnown.value), known, head, messages, c);
      SentInAll(start, c, sent0, channel.socket.sent);
      if types.Error? {
        StoppedEnds(cfg, all, messages, c, types.problem);
        return Error(types.problem), messages, c;
      }
      start := c;
      r, messages, c := Complete(channel, writer, types.value, known, head, messages, c);
      SentLast(sent0, start.sent, Message(FINISH, []));
    }
  }

  /** One object later. */
  ghost predicate Advanced(c0: CollectorState, c: CollectorState)
    requires c0.phase.AwaitObject?
  {
    && c.phase == (if c0.phase.remaining == [] then AwaitBatchDone
                   else AwaitObject([], c0.phase.remaining[0], c0.phase.remaining[1..]))
    && c == c0.(phase := c.phase, work := c.work, types := c.types, written := c.written)
  }

  /** Some objects later, with nothing sent in between. */
  ghost predicate BatchTaken(c0: CollectorState, c: CollectorState) {
    c == c0.(phase := c.phase, work := c.work, types := c.types, written := c.written)
  }

  /** What was learnt before the requests stays. */
  ghost predicate Known(c0: CollectorState, c: CollectorState) {
    c.wellKnown == c0.wellKnown && c.roots == c0.roots
  }

  /** Messages sent since an earlier state. */
  ghost function Since(c0: CollectorState, c: CollectorState): seq<Message> {
    if c0.sent <= c.sent then c.sent[|c0.sent|..] else []
  }

  lemma SentNothing(c: CollectorState)
    ensures Wire(Since(c, c)) == []
  {
  }

  lemma SentMore(c0: CollectorState, c: CollectorState, c': CollectorState, m: Message)
    requires c0.sent <= c.sent && c'.sent == c.sent + [m]
    ensures Wire(Since(c0, c')) == Wire(Since(c0, c)) + WireBytes(m)
  {
    assert Since(c0, c') == Since(c0, c) + [m];
    WireAppend(Since(c0, c), [m]);
    WireSingle(m);
  }

  lemma SentLast(sent0: Octets, sent: seq<Message>, m: Message)
    ensures sent0 + Wire(sent + [m]) == sent0 + Wire(sent) + WireBytes(m)
  {
    WireAppend(sent, [m]);
    WireSingle(m);
  }

  lemma SentInAll(c0: CollectorState, c: CollectorState, sent0: Octets, sent: Octets)
    requires c0.sent <= c.sent && sent == sent0 + Wire(c0.sent) + Wire(Since(c0, c))
    ensures sent == sent0 + Wire(c.sent)
  {
    hide Wire;
    var first, more := c0.sent, Since(c0, c);
    assert c.sent == first + more;
    WireAppend(first, more);
    assert sent0 + Wire(first) + Wire(more) == sent0 + (Wire(first) + Wire(more));
  }

  lemma AfterIs(c0: CollectorState, obj: CapturedObject, order: seq<Address>)
    requires c0.phase.AwaitObject?
    ensures var c := AfterObject(c0, obj, order, c0.phase.remaining);
            && Advanced(c0, c) && c.types == c0.types[obj.typeAddress := obj.typeName] && c.written == c0.written + [obj]
            && c.work == CollectorModel.Schedule(c0.work, order + ContentEdges(obj) + [obj.typeAddress])
  {
    hide CollectorModel.Schedule;
  }

  /** How a capture ends, on messages from the front of those the peer sends. */
  ghost predicate Ended(cfg: Config, all: (seq<Message>, Problem), messages: seq<Message>, c: CollectorState,
                        r: Result<nat>)
    requires cfg.Valid()
  {
    && Runs(cfg, messages, c) && messages <= all.0 && (r.Ok? <==> c.phase.Finished?)
    && (r.Ok? ==> r.value == |c.written|)
    && (r.Error? ==> Stopped(cfg, all, messages, c, r.problem))
  }

  lemma StoppedEnds(cfg: Config, all: (seq<Message>, Problem), messages: seq<Message>, c: CollectorState, problem: Problem)
    requires cfg.Valid() && Stopped(cfg, all, messages, c, problem)
    ensures Ended(cfg, all, messages, c, Error(problem))
  {
    hide Runs;
  }

  lemma FinishedEnds(cfg: Config, all: (seq<Message>, Problem), messages: seq<Message>, c: CollectorState)
    requires cfg.Valid() && Runs(cfg, messages, c) && messages <= all.0 && c.phase.Finished?
    ensures Ended(cfg, all, messages, c, Ok(|c.written|))
  {
    hide Runs;
  }

  /** The machine's last step, on the Agent's answer to the finish. */
  lemma LastStep(cfg: Config, all: (seq<Message>, Problem), messages0: seq<Message>, c0: CollectorState,
                 taken: Option<Message>, reply: Result<Octets>, rest: (seq<Message>, Problem))
    returns (messages: seq<Message>, c: CollectorState, r: Result<nat>)
    requires cfg.Valid() && Runs(cfg, messages0, NextRequest(cfg, c0)) && c0.work.pending == []
    requires taken.Some? ==> reply == Expect(taken.value, COMPLETE) && all == Before(messages0, Before([taken.value], rest))
    requires taken.None? ==> reply.Error? && all == Before(messages0, ([], reply.problem))
    ensures Ended(cfg, all, messages, c, r)
    ensures r == if reply.Error? then Error(reply.problem)
                 else if |c0.written| <= MAX_UINT32 && W.FitsTypes(c0.types) then Ok(|c0.written|) else Error(WriterFailed)
    ensures c.written == c0.written && c.types == c0.types && Known(c0, c) && c.sent == c0.sent + [Message(FINISH, [])]
  {
    hide Runs, Stopped, Ended, W.FitsTypes;
    var before := NextRequest(cfg, c0);
    messages := messages0 + Listed(taken);
    c := if taken.None? then before else if reply.Error? then Fail(before, reply.problem)
         else if CanFinish(before) then before.(phase := Finished) else Fail(before, WriterFailed);
    if reply.Error? {
      r := Error(reply.problem);
      FrameFails(cfg, all, messages0, before, taken, c, rest, reply.problem);
      StoppedEnds(cfg, all, messages, c, reply.problem);
    } else if CanFinish(before) {
      r := Ok(|c0.written|);
      RunsMore(cfg, messages0, before, taken.value, c);
      TakeOne(all, messages0, taken.value, rest);
      FinishedEnds(cfg, all, messages, c);
    } else {
      r := Error(WriterFailed);
      StoppedByMessage(cfg, all, messages0, before, taken.value, c, rest, WriterFailed);
      StoppedEnds(cfg, all, messages, c, WriterFailed);
    }
  }

  lemma WritingHead(writer: W.HeapWriter, head: Octets, known: map<Text, Address>, written: seq<CapturedObject>)
    requires Writing(writer, head, known, written)
    ensures |head| >= 4 && ObjectContext(known, writer.withStrRepr).Valid()
  {
  }

  lemma StoppedAt(cfg: Config, all: (seq<Message>, Problem), messages: seq<Message>, c: CollectorState, problem: Problem)
    requires cfg.Valid() && Runs(cfg, messages, c) && messages <= all.0 && c.phase == Failed(problem)
    ensures Stopped(cfg, all, messages, c, problem)
  {
  }

  /** Where a run stands when an object could not be read. */
  lemma ObjectStops(cfg: Config, all: (seq<Message>, Problem), messages: seq<Message>, c: CollectorState,
                    taken: seq<Message>, upcoming: (seq<Message>, Problem), problem: Problem)
    returns (c': CollectorState)
    requires cfg.Valid() && Runs(cfg, messages, c) && c.phase.AwaitObject? && c.phase.seen == []
    requires all == Before(messages, upcoming) && ObjectFails(upcoming, taken, c.phase.expected, cfg.strReprLen, problem)
    ensures Stopped(cfg, all, messages + taken, c', problem) && c'.sent == c.sent
  {
    hide Runs, ParseObject;
    assert messages + taken <= all.0 by {
      assert upcoming.0 == taken + upcoming.0[|taken|..];
      assert all.0 == messages + taken + upcoming.0[|taken|..];
    }
    if ParseObject(taken, c.phase.expected, cfg.strReprLen) == Unfinished {
      forall j | 0 < j <= |taken| ensures ParseObject(taken[..j], c.phase.expected, cfg.strReprLen) == Unfinished {
        if j < |taken| {
          EarlierUnfinished(taken, j, c.phase.expected, cfg.strReprLen);
        } else {
          assert taken[..j] == taken;
        }
      }
      RunsWaiting(cfg, messages, c, taken, |taken|);
      assert taken[..|taken|] == taken;
      c' := Waiting(c, taken);
    } else {
      RunsObjectFails(cfg, messages, c, taken, problem);
      c' := Fail(c, problem);
    }
  }

  /** Some root batches later. */
  ghost predicate RootsTaken(c0: CollectorState, c: CollectorState) {
    c == c0.(roots := c.roots, work := c.work)
  }

  lemma StartTaking(all: (seq<Message>, Problem))
    ensures all == Before([], all)
  {
    assert [] + all.0 == all.0;
  }

  lemma RunsNothing(cfg: Config)
    requires cfg.Valid()
    ensures Runs(cfg, [], Initial())
  {
  }

  lemma AckFits(cfg: Config)
    requires cfg.Valid()
    ensures |Ack(cfg).payload| == OPTIONS_SIZE
  {
  }

  lemma WireSingle(m: Message)
    ensures Wire([m]) == WireBytes(m)
  {
    assert [m][1..] == [];
  }

  // ---------------------------------------------------------------- what a finished capture holds

  /** The kinds of content are the ones that the well-known container types stand for. */
  ghost predicate KindsAgree(c: CollectorState) {
    && |c.wellKnown| == |WELL_KNOWN_TYPE_NAMES| && Artifact.HasContainers(KnownRead(KnownOf(c.wellKnown)))
    && forall i | 0 <= i < |c.written| :: KindAgrees(c.written[i], KnownRead(KnownOf(c.wellKnown)))
  }

  lemma FinishedKnows(cfg: Config, messages: seq<Message>, c: CollectorState)
    requires cfg.Valid() && Runs(cfg, messages, c) && c.phase.Finished?
    ensures |c.wellKnown| == |WELL_KNOWN_TYPE_NAMES| && NamesAll(KnownOf(c.wellKnown))
    ensures FitsNames(KnownPairs(KnownOf(c.wellKnown))) && Artifact.HasContainers(KnownRead(KnownOf(c.wellKnown)))
  {
    hide Runs, KnownOf;
    RunsTyped(cfg, messages, c);
    KnownIsComplete(c.wellKnown);
    ContainersNamed(KnownOf(c.wellKnown));
  }

  /** A finished capture fits the format: nothing is missing, counts and addresses fit, no address comes twice. */
  lemma FinishedFits(cfg: Config, createdAt: Text, messages: seq<Message>, c: CollectorState)
    requires cfg.Valid() && Runs(cfg, messages, c) && c.phase.Finished?
    requires KindsAgree(c)
    ensures Fits(CaptureOf(cfg, createdAt, c))
  {
    hide Runs, KnownOf, FitsObject, KindAgrees, KnownRead, NamesAll, KnownPairs, Artifact.HasContainers, FitsNames, Targets,
         GraphOf, ReachFrom, NonZero, Addresses, FitsThread, W.FitsTypes;
    FinishedKnows(cfg, messages, c);
    RunsTyped(cfg, messages, c);
    RunsCanFinish(cfg, messages, c);
    CaptureIsReachable(cfg, messages, c);
    assert FitsObjects(c.written, KnownRead(KnownOf(c.wellKnown)));
    TypesFit(c.types);
  }

  lemma TypesFit(types: map<Address, Text>)
    requires W.FitsTypes(types)
    ensures |types.Keys| <= MAX_UINT32 && forall a | a in types :: ArtifactEncoding.Wide(a)
  {
  }

  lemma {:induction false} ObjectsReadKeys(objects: seq<CapturedObject>, c: Artifact.Context, o: nat)
    requires c.Valid()
    ensures ObjectsRead(objects, c, o).Keys == Artifact.SetOf(Addresses(objects))
    decreases |objects|
  {
    hide ObjectBytes, ObjectRead;
    if objects != [] {
      ObjectsReadKeys(objects[1..], c, o + |ObjectBytes(objects[0], c)|);
      assert Addresses(objects) == [objects[0].address] + Addresses(objects[1..]);
    }
  }

  /**
   * From the messages to the heap that an analyzer reads: the file of a finished capture is accepted, and the
   * objects in it are exactly those reachable from the roots and the well-known types.
   */
  lemma FinishedFileReads(cfg: Config, createdAt: Text, messages: seq<Message>, c: CollectorState)
    requires cfg.Valid() && Runs(cfg, messages, c) && c.phase.Finished?
    requires KindsAgree(c)
    ensures Fits(CaptureOf(cfg, createdAt, c)) && NamesAll(KnownOf(c.wellKnown))
    ensures Artifact.ReadArtifact(FileOf(cfg, createdAt, c)) ==
            Parsing.Ok(HeapRead(CaptureOf(cfg, createdAt, c)), |FileOf(cfg, createdAt, c)|)
    ensures HeapRead(CaptureOf(cfg, createdAt, c)).objects.Keys ==
            ReachFrom(GraphOf(c.written), NonZero(c.roots) + NonZero(c.wellKnown))
  {
    hide Runs, KnownOf, KindsAgree, KnownRead, NamesAll, KnownPairs, Artifact.HasContainers, FitsNames, Fits, FileOf,
         Artifact.ReadArtifact, ReachFrom, GraphOf, ObjectsRead, Addresses;
    FinishedKnows(cfg, messages, c);
    FinishedFits(cfg, createdAt, messages, c);
    FileIsArtifact(cfg, createdAt, c);
    CaptureIsReachable(cfg, messages, c);
    var cap := CaptureOf(cfg, createdAt, c);
    ContextIsValid(cap);
    ObjectsReadKeys(c.written, ContextOf(cap), ObjectsOffset(cap));
  }

  lemma ContextIsValid(cap: Capture)
    requires Fits(cap)
    ensures ContextOf(cap).Valid()
  {
    hide FitsObjects, FitsThreads, NamesAll, FitsNames, KnownRead, Artifact.HasContainers;
  }
}
