/** The Agent's side of a session: it streams roots and objects of a stopped process and answers requests. */
module AgentSession {
  import opened GraphTheory
  import opened HeapModel
  import opened Bytes
  import opened Protocol
  import opened Framing
  import opened Handshake
  import opened ObjectStream
  import opened CaptureModel
  import opened ArtifactEncoding
  import opened AgentBuffers
  import Artifact

  method NetworkOrder(values: array<Address>, count: nat) returns (payload: Octets)
    requires count <= values.Length
    ensures payload == EncodeAddresses(values[..count])
  {
    hide EncodeAddresses;
    payload := [];
    assert EncodeAddresses([]) == [] by {
      assert |EncodeAddresses([])| == 0;
    }
    for i := 0 to count
      invariant payload == EncodeAddresses(values[..i])
    {
      EncodeNext(values[..i], values[i]);
      assert values[..i + 1] == values[..i] + [values[i]];
      payload := payload + Be(values[i], ADDRESS_SIZE);
    }
  }

  /** Addresses gathered until 256 of them make a record. */
  class AddressStream {
    const batch: RecordBatch
    const kind: Kind
    const values: array<Address>
    var count: nat
    ghost var streamed: seq<Address>
    ghost const sentBefore: Octets
    ghost const bufferedBefore: seq<Message>

    /** Whatever is streamed is either gathered here or made into records. */
    ghost predicate Valid()
      reads this, values, batch, batch.wire, batch.socket
    {
      && values.Length == IO_BATCH && count < IO_BATCH
      && count <= |streamed| && (|streamed| - count) % IO_BATCH == 0
      && values[..count] == streamed[|streamed| - count..]
      && IsBulkRecord(kind) && batch.Valid()
      && Delivered(sentBefore, bufferedBefore, AddressRecords(kind, streamed[..|streamed| - count]), batch.socket.sent,
                   batch.buffered)
    }

    constructor (batch: RecordBatch, kind: Kind)
      requires batch.Valid() && IsBulkRecord(kind)
      ensures Valid() && this.batch == batch && this.kind == kind && streamed == [] && fresh(values)
      ensures sentBefore == batch.socket.sent && bufferedBefore == batch.buffered
    {
      this.batch := batch;
      this.kind := kind;
      values := new Address[IO_BATCH];
      count := 0;
      streamed := [];
      sentBefore, bufferedBefore := batch.socket.sent, batch.buffered;
      new;
      DeliveredNothing(sentBefore, bufferedBefore);
      assert streamed[..0] == [];
    }

    /** What is gathered becomes a record, if anything is. */
    method Flush()
      requires batch.Valid() && IsBulkRecord(kind) && values.Length == IO_BATCH && count <= IO_BATCH
      modifies this`count, batch, batch.wire, batch.socket`sent
      ensures batch.Valid() && count == 0
      ensures Delivered(old(batch.socket.sent), old(batch.buffered), AddressRecords(kind, old(values[..count])),
                        batch.socket.sent, batch.buffered)
    {
      hide Delivered, EncodeAddresses;
      if count == 0 {
        DeliveredNothing(batch.socket.sent, batch.buffered);
        return;
      }
      var payload := NetworkOrder(values, count);
      batch.Append(kind, payload);
      count := 0;
    }

    method Stream(address: Address)
      requires Valid()
      modifies this`count, this`streamed, values, batch, batch.wire, batch.socket`sent
      ensures Valid() && streamed == old(streamed) + [address]
    {
      hide Delivered, AddressRecords;
      ghost var full := streamed[..|streamed| - count];
      ghost var sent, buffered := batch.socket.sent, batch.buffered;
      values[count] := address;
      count := count + 1;
      streamed := streamed + [address];
      assert values[..count] == streamed[|full|..];
      assert streamed[..|full|] == full;
      if count == IO_BATCH {
        ghost var chunk := values[..count];
        Flush();
        assert streamed[..|streamed|] == full + chunk;
        AddressRecordsAppend(kind, full, chunk);
        DeliveredThen(sentBefore, bufferedBefore, AddressRecords(kind, full), sent, buffered,
                      AddressRecords(kind, chunk), batch.socket.sent, batch.buffered);
      }
    }

    /** The last record: all that was streamed is delivered. */
    method Close()
      requires Valid()
      modifies this`count, batch, batch.wire, batch.socket`sent
      ensures batch.Valid()
      ensures Delivered(sentBefore, bufferedBefore, AddressRecords(kind, streamed), batch.socket.sent, batch.buffered)
    {
      hide Delivered, AddressRecords;
      ghost var full, rest := streamed[..|streamed| - count], values[..count];
      ghost var sent, buffered := batch.socket.sent, batch.buffered;
      AddressRecordsAppend(kind, full, rest);
      assert full + rest == streamed;
      Flush();
      DeliveredThen(sentBefore, bufferedBefore, AddressRecords(kind, full), sent, buffered,
                    AddressRecords(kind, rest), batch.socket.sent, batch.buffered);
    }
  }

  /** Roots, sequence content and referents all leave in this way. */
  method SendAddresses(batch: RecordBatch, kind: Kind, addresses: seq<Address>)
    requires batch.Valid() && IsBulkRecord(kind)
    modifies batch, batch.wire, batch.socket`sent
    ensures batch.Valid()
    ensures Delivered(old(batch.socket.sent), old(batch.buffered), AddressRecords(kind, addresses),
                      batch.socket.sent, batch.buffered)
  {
    hide Delivered, AddressRecords;
    var stream := new AddressStream(batch, kind);
    for i := 0 to |addresses|
      invariant stream.Valid() && stream.streamed == addresses[..i]
    {
      stream.Stream(addresses[i]);
      assert addresses[..i + 1] == addresses[..i] + [addresses[i]];
    }
    assert addresses[..|addresses|] == addresses;
    stream.Close();
  }

  method SendDictContent(batch: RecordBatch, entries: seq<(Address, Address)>)
    requires batch.Valid()
    modifies batch, batch.wire, batch.socket`sent
    ensures batch.Valid()
    ensures Delivered(old(batch.socket.sent), old(batch.buffered), AddressRecords(DICT_CONTENT, Flat(entries)),
                      batch.socket.sent, batch.buffered)
  {
    hide Delivered, AddressRecords, Flat;
    var stream := new AddressStream(batch, DICT_CONTENT);
    assert |Flat(entries[..0])| == 0;
    for i := 0 to |entries|
      invariant stream.Valid() && stream.streamed == Flat(entries[..i])
    {
      stream.Stream(entries[i].0);
      stream.Stream(entries[i].1);
      assert entries[..i + 1] == entries[..i] + [entries[i]];
      FlatNext(entries[..i], entries[i]);
    }
    assert entries[..|entries|] == entries;
    stream.Close();
  }

  method SendObjectBegin(batch: RecordBatch, o: AgentObject)
    requires batch.Valid()
    modifies batch, batch.wire, batch.socket`sent
    ensures batch.Valid()
    ensures Delivered(old(batch.socket.sent), old(batch.buffered), [BeginRecord(o)], batch.socket.sent, batch.buffered)
  {
    hide Delivered, Be;
    var name := o.typeName;
    if |name| > 0xFFFF {
      name := name[..0xFFFF];
    }
    var payload :=
      Be(o.address, 8) + Be(o.typeAddress, 8) + Be(o.shallowSize, 4) + [KindCode(o.contentKind)] + Be(|name|, 2);
    batch.AppendParts(OBJECT_BEGIN, payload, name);
    assert BeginRecord(o).payload == payload + name;
  }

  method SendContent(batch: RecordBatch, o: AgentObject)
    requires batch.Valid()
    modifies batch, batch.wire, batch.socket`sent
    ensures batch.Valid()
    ensures Delivered(old(batch.socket.sent), old(batch.buffered), ContentRecords(o), batch.socket.sent, batch.buffered)
  {
    hide Delivered, AddressRecords, Flat;
    DeliveredNothing(batch.socket.sent, batch.buffered);
    if o.contentKind == DICT {
      SendDictContent(batch, o.entries);
    } else if o.contentKind == LIST || o.contentKind == SET || o.contentKind == TUPLE {
      SendAddresses(batch, SEQUENCE_CONTENT, o.sequence);
    }
  }

  /** One object: its begin record, its content, its referents, its end record. */
  method SendObject(batch: RecordBatch, o: AgentObject)
    requires batch.Valid()
    modifies batch, batch.wire, batch.socket`sent
    ensures batch.Valid()
    ensures Delivered(old(batch.socket.sent), old(batch.buffered), ObjectRecords(o), batch.socket.sent, batch.buffered)
  {
    hide Delivered, AddressRecords, BeginRecord, ContentRecords;
    ghost var s0, b0 := batch.socket.sent, batch.buffered;
    SendObjectBegin(batch, o);
    ghost var s1, b1 := batch.socket.sent, batch.buffered;
    SendContent(batch, o);
    ghost var s2, b2 := batch.socket.sent, batch.buffered;
    SendAddresses(batch, REFERENTS, o.referents);
    ghost var s3, b3 := batch.socket.sent, batch.buffered;
    batch.Append(OBJECT_END, []);
    ghost var end := [Message(OBJECT_END, [])];
    DeliveredThen(s2, b2, AddressRecords(REFERENTS, o.referents), s3, b3, end, batch.socket.sent, batch.buffered);
    DeliveredThen(s1, b1, ContentRecords(o), s2, b2, AddressRecords(REFERENTS, o.referents) + end, batch.socket.sent,
                  batch.buffered);
    DeliveredThen(s0, b0, [BeginRecord(o)], s1, b1, ContentRecords(o) + (AddressRecords(REFERENTS, o.referents) + end),
                  batch.socket.sent, batch.buffered);
  }

  lemma {:induction false} EncodeNext(addresses: seq<Address>, a: Address)
    ensures EncodeAddresses(addresses + [a]) == EncodeAddresses(addresses) + Be(a, ADDRESS_SIZE)
    decreases |addresses|
  {
    hide Be;
    if addresses == [] {
      assert [a][1..] == [];
    } else {
      EncodeNext(addresses[1..], a);
      assert (addresses + [a])[1..] == addresses[1..] + [a];
    }
  }

  // ---------------------------------------------------------------- the session

  /** The stopped process: its roots, the addresses of the well-known types, and the object at every address. */
  datatype Process = Process(roots: seq<Address>, wellKnown: seq<Address>, objectAt: Address -> AgentObject)

  const WELL_KNOWN_COUNT := 13

  /** Addresses fit 64 bits, and the object at an address has that address. */
  ghost predicate Readable(p: Process) {
    && AllWide(p.roots) && AllWide(p.wellKnown) && |p.wellKnown| == WELL_KNOWN_COUNT
    && forall a: Address | a < U64 :: FitsWire(p.objectAt(a)) && p.objectAt(a).address == a
  }

  /** What has been sent has grown by these frames, and they carry these messages. */
  ghost predicate Says(sent: Octets, frames: seq<Message>, messages: seq<Message>, sent': Octets) {
    AllLegal(frames) && Flatten(frames) == messages && sent' == sent + Wire(frames)
  }

  lemma SaysNothing(sent: Octets)
    ensures Says(sent, [], [], sent)
  {
    assert Flatten([]) == [] && sent == sent + Wire([]);
  }

  lemma SaysThen(s0: Octets, f1: seq<Message>, m1: seq<Message>, s1: Octets, f2: seq<Message>, m2: seq<Message>,
                 s2: Octets)
    requires Says(s0, f1, m1, s1) && Says(s1, f2, m2, s2)
    ensures Says(s0, f1 + f2, m1 + m2, s2)
  {
    hide Flatten, Wire, AllLegal;
    FlattenAppend(f1, f2);
    WireAppend(f1, f2);
    assert s2 == s0 + Wire(f1 + f2);
  }

  lemma SaysFrame(sent: Octets, m: Message)
    requires |m.payload| <= MAX_PAYLOAD && m.kind != BULK_BATCH
    ensures Says(sent, [m], [m], sent + WireBytes(m))
  {
    hide WireBytes;
    assert [m][1..] == [];
    assert AllLegal([m]) && Flatten([m]) == [m] && Wire([m]) == WireBytes(m);
  }

  /** The frames that records leave in when the buffer is flushed behind them. */
  function Gather(records: seq<Message>): seq<Message> {
    Gathered([], records).0 + FlushFrames(Gathered([], records).1)
  }

  lemma SaysRecords(s0: Octets, records: seq<Message>, s1: Octets, buffered: seq<Message>, s2: Octets)
    requires Delivered(s0, [], records, s1, buffered) && Buffered(buffered) && s2 == s1 + Wire(FlushFrames(buffered))
    ensures Says(s0, Gather(records), records, s2)
  {
    hide Flatten, Wire, Batches, Gathered, FlushFrames, BulkRecords, RecordsBytes;
    var f1, f2 := Gathered([], records).0, FlushFrames(buffered);
    FlushCarries(buffered);
    CarriedThen([], records, f1, buffered, [], f2, []);
    WireAppend(f1, f2);
    assert [] + (records + []) == records && Flatten(f1 + f2) + [] == Flatten(f1 + f2);
    assert s2 == s0 + Wire(f1 + f2);
  }

  /** What is said is received, message for message. */
  lemma SaidIsReceived(sent: Octets, frames: seq<Message>, messages: seq<Message>, sent': Octets, rest: Octets)
    requires Says(sent, frames, messages, sent')
    ensures sent <= sent' && ReceiveAll([], sent'[|sent|..] + rest) == Before(messages, ReceiveAll([], rest))
  {
    hide Flatten, Wire, ReceiveAll, AllLegal;
    FramesAreDelivered(frames, rest);
    assert sent'[|sent|..] == Wire(frames);
  }

  function AnswerRecords(p: Process, addresses: seq<Address>): seq<Message>
    decreases |addresses|
  {
    if addresses == [] then [] else ObjectRecords(p.objectAt(addresses[0])) + AnswerRecords(p, addresses[1..])
  }

  /** The answer to one request: its objects in the order they were asked for, and then the end of the batch. */
  function Answer(p: Process, addresses: seq<Address>): seq<Message> {
    AnswerRecords(p, addresses) + [Message(BATCH_DONE, [])]
  }

  function Answers(p: Process, requests: seq<seq<Address>>): seq<Message>
    decreases |requests|
  {
    if requests == [] then [] else Answer(p, requests[0]) + Answers(p, requests[1..])
  }

  /** Requests as they can be received: each in one frame, of 64-bit addresses. */
  ghost predicate Receivable(requests: seq<seq<Address>>) {
    forall k | 0 <= k < |requests| :: AllWide(requests[k]) && |Request(requests[k]).payload| <= MAX_PAYLOAD
  }

  function RootMessages(p: Process): seq<Message> {
    AddressRecords(ROOT_BATCH, p.roots) + [Message(ROOTS_DONE, [])]
  }

  /** The frames that one answer leaves in. */
  function AnswerFrames(p: Process, addresses: seq<Address>): seq<Message> {
    Gather(AnswerRecords(p, addresses)) + [Message(BATCH_DONE, [])]
  }

  function AnswersFrames(p: Process, requests: seq<seq<Address>>): seq<Message>
    decreases |requests|
  {
    if requests == [] then [] else AnswerFrames(p, requests[0]) + AnswersFrames(p, requests[1..])
  }

  function RootFrames(p: Process): seq<Message> {
    Gather(AddressRecords(ROOT_BATCH, p.roots)) + [Message(ROOTS_DONE, [])]
  }

  lemma {:induction false} AnswersFramesNext(p: Process, requests: seq<seq<Address>>, r: seq<Address>)
    ensures AnswersFrames(p, requests + [r]) == AnswersFrames(p, requests) + AnswerFrames(p, r)
    decreases |requests|
  {
    hide AnswerFrames;
    if requests == [] {
      assert [r][1..] == [];
    } else {
      AnswersFramesNext(p, requests[1..], r);
      assert (requests + [r])[1..] == requests[1..] + [r];
    }
  }

  lemma {:induction false} AnswerRecordsNext(p: Process, addresses: seq<Address>, a: Address)
    ensures AnswerRecords(p, addresses + [a]) == AnswerRecords(p, addresses) + ObjectRecords(p.objectAt(a))
    decreases |addresses|
  {
    hide ObjectRecords;
    if addresses == [] {
      assert [a][1..] == [];
    } else {
      AnswerRecordsNext(p, addresses[1..], a);
      assert (addresses + [a])[1..] == addresses[1..] + [a];
    }
  }

  lemma {:induction false} AnswersNext(p: Process, requests: seq<seq<Address>>, r: seq<Address>)
    ensures Answers(p, requests + [r]) == Answers(p, requests) + Answer(p, r)
    decreases |requests|
  {
    hide Answer;
    if requests == [] {
      assert [r][1..] == [];
    } else {
      AnswersNext(p, requests[1..], r);
      assert (requests + [r])[1..] == requests[1..] + [r];
    }
  }

  lemma {:induction false} WordAt(payload: Octets, i: nat)
    requires |payload| % ADDRESS_SIZE == 0 && ADDRESS_SIZE * i < |payload|
    ensures Words(payload)[i] == FromBe(payload[ADDRESS_SIZE * i..ADDRESS_SIZE * i + ADDRESS_SIZE]) < U64
    decreases i
  {
    hide FromBe;
    if i > 0 {
      var rest := payload[ADDRESS_SIZE..];
      WordAt(rest, i - 1);
      assert payload[ADDRESS_SIZE * i..ADDRESS_SIZE * i + ADDRESS_SIZE] ==
             rest[ADDRESS_SIZE * (i - 1)..ADDRESS_SIZE * (i - 1) + ADDRESS_SIZE];
    } else {
      Powers();
      BeFromBe(payload[..ADDRESS_SIZE]);
    }
  }

  /** What a read of one frame comes to. */
  datatype FrameRead = Whole(code: Byte, payload: Octets, rest: Octets) | Refused | Overrun

  /**
   * The Agent's reading of a frame into a buffer that has room for so many bytes. It looks at the kind only later,
   * and it never compares the announced length with the buffer: of a longer payload, the bytes that arrive are
   * written past the buffer's end.
   */
  function AgentFrame(s: Octets, room: nat): (r: FrameRead)
    ensures room >= MAX_PAYLOAD ==> !r.Overrun?
    ensures r.Whole? ==> |r.rest| < |s| && |r.payload| <= MAX_PAYLOAD
  {
    if |s| < HEADER_SIZE then Refused
    else
      var h, rest := s[..HEADER_SIZE], s[HEADER_SIZE..];
      var length := FromBe(h[8..]);
      if h[..4] != MAGIC || h[4] != VERSION || FromBe(h[6..8]) != 0 || length > MAX_PAYLOAD then Refused
      else if length > room then if |rest| > room then Overrun else Refused
      else if |rest| < length then Refused
      else Whole(h[5], rest[..length], rest[length..])
  }

  /** Where the kind is known and the buffer large enough, both sides read frames alike. */
  lemma AgentFrameIs(s: Octets, room: nat, m: Message, rest: Octets)
    ensures AgentFrame(s, room) == Whole(Code(m.kind), m.payload, rest) <==>
            NextWire(s) == Ok((m, rest)) && |m.payload| <= room
  {
    hide FromBe;
    if |s| >= HEADER_SIZE {
      KindOfCode(m.kind, s[..HEADER_SIZE][5]);
    }
  }

  /** The bytes a sender puts before a payload. */
  function FrameHeader(code: Byte, length: nat): Octets {
    MAGIC + [VERSION, code] + Be(0, 2) + Be(length, 4)
  }

  /**
   * A read overruns exactly when the stream begins with the header of a permitted frame that has no room, and more
   * bytes follow than there is room for.
   */
  lemma OverrunsIff(s: Octets, room: nat)
    ensures AgentFrame(s, room).Overrun? <==>
            && |s| > HEADER_SIZE + room
            && exists code, length :: room < length <= MAX_PAYLOAD && FrameHeader(code, length) <= s
  {
    hide FromBe, Be;
    Powers();
    if AgentFrame(s, room).Overrun? {
      var h := s[..HEADER_SIZE];
      BeFromBe(h[6..8]);
      BeFromBe(h[8..]);
      assert h == h[..4] + [h[4], h[5]] + h[6..8] + h[8..];
      assert h == FrameHeader(h[5], FromBe(h[8..]));
    }
    if code, length :| |s| > HEADER_SIZE + room && room < length <= MAX_PAYLOAD && FrameHeader(code, length) <= s {
      var h := s[..HEADER_SIZE];
      assert h == FrameHeader(code, length);
      assert h[..4] == MAGIC && h[6..8] == Be(0, 2) && h[8..] == Be(length, 4);
      FromBeBe(0, 2);
      FromBeBe(length, 4);
    }
  }

  /** A frame that any receiver would accept overruns the buffer exactly when its payload is larger. */
  lemma LongFramesOverrun(m: Message, rest: Octets, room: nat)
    requires |m.payload| <= MAX_PAYLOAD
    ensures AgentFrame(WireBytes(m) + rest, room).Overrun? <==> |m.payload| > room
  {
    hide FromBe, WireBytes;
    var s := WireBytes(m) + rest;
    NextWireInverse(s, m, rest);
    KindOfCode(m.kind, s[..HEADER_SIZE][5]);
  }

  /** One byte too many in the acknowledgement is enough: the options have room for five. */
  lemma LongAcknowledgementOverruns()
    ensures AgentFrame(WireBytes(Message(HELLO_ACK, [0, 0, 0, 0, 0, 0])), OPTIONS_SIZE).Overrun?
  {
    var m := Message(HELLO_ACK, [0, 0, 0, 0, 0, 0]);
    LongFramesOverrun(m, [], OPTIONS_SIZE);
    assert WireBytes(m) + [] == WireBytes(m);
  }

  const EXPECTED_REQUEST: Octets := Artifact.Ascii("expected an object request batch")
  const SESSION_FAILED: Octets := Artifact.Ascii("native agent session failed or timed out")

  datatype Received = Got(code: Byte, length: nat) | Lost | PastTheEnd

  /** So many bytes into a buffer that has room for them, from as many reads as it takes. */
  method ReceiveInto(socket: Socket, buffer: array<Byte>, size: nat) returns (ok: bool)
    requires size <= buffer.Length
    modifies socket`incoming, buffer
    ensures ok <==> size <= |old(socket.incoming)|
    ensures ok ==> buffer[..size] == old(socket.incoming)[..size] && socket.incoming == old(socket.incoming)[size..]
  {
    var cursor := 0;
    ghost var all := socket.incoming;
    while cursor < size
      invariant cursor <= size && cursor + |socket.incoming| == |all|
      invariant buffer[..cursor] == all[..cursor] && socket.incoming == all[cursor..]
    {
      var received := socket.RecvInto(size - cursor);
      if |received| == 0 {
        return false;
      }
      forall i | 0 <= i < |received| {
        buffer[cursor + i] := received[i];
      }
      ChunkTaken(all, cursor, received, socket.incoming);
      assert buffer[..cursor + |received|] == buffer[..cursor] + received;
      cursor := cursor + |received|;
    }
    return true;
  }

  datatype Outcome = Served | Aborted | Overran

  class Agent {
    const socket: Socket
    const process: Process

    constructor (socket: Socket, process: Process)
      ensures this.socket == socket && this.process == process
    {
      this.socket := socket;
      this.process := process;
    }

    method SendFrame(kind: Kind, payload: Octets)
      requires |payload| <= MAX_PAYLOAD && kind != BULK_BATCH
      modifies socket`sent
      ensures Says(old(socket.sent), [Message(kind, payload)], [Message(kind, payload)], socket.sent)
    {
      hide Says;
      socket.SendAll(MAGIC + [VERSION, Code(kind)] + Be(0, 2) + Be(|payload|, 4));
      if |payload| > 0 {
        socket.SendAll(payload);
      }
      SaysFrame(old(socket.sent), Message(kind, payload));
      assert socket.sent == old(socket.sent) + WireBytes(Message(kind, payload));
    }

    /** The next frame, its payload in the given buffer. */
    method ReceiveFrame(buffer: array<Byte>) returns (r: Received)
      modifies socket`incoming, buffer
      ensures r.Got? ==> r.length <= buffer.Length
      ensures match AgentFrame(old(socket.incoming), buffer.Length)
              case Whole(code, payload, rest) =>
                r == Got(code, |payload|) && buffer[..|payload|] == payload && socket.incoming == rest
              case Refused => r == Lost
              case Overrun => r == PastTheEnd
    {
      hide FromBe;
      var header := new Byte[HEADER_SIZE];
      ghost var all := socket.incoming;
      var ok := ReceiveInto(socket, header, HEADER_SIZE);
      if !ok {
        return Lost;
      }
      assert header[..] == all[..HEADER_SIZE];
      var length := FromBe(header[8..]);
      if header[..4] != MAGIC || header[4] != VERSION || FromBe(header[6..8]) != 0 || length > MAX_PAYLOAD {
        return Lost;
      }
      if length <= buffer.Length {
        ok := ReceiveInto(socket, buffer, length);
        return if ok then Got(header[5], length) else Lost;
      }
      // The buffer is filled; one byte more would go past its end, and nothing is said of what follows.
      ok := ReceiveInto(socket, buffer, buffer.Length);
      if !ok {
        return Lost;
      }
      var beyond := socket.RecvInto(length - buffer.Length);
      return if |beyond| == 0 then Lost else PastTheEnd;
    }

    method SendRoots()
      modifies socket`sent
      ensures Says(old(socket.sent), RootFrames(process), RootMessages(process), socket.sent)
    {
      hide Says, Delivered, AddressRecords, Gather;
      var batch := new RecordBatch(socket);
      ghost var s0, records := socket.sent, AddressRecords(ROOT_BATCH, process.roots);
      SendAddresses(batch, ROOT_BATCH, process.roots);
      ghost var s1, b1 := socket.sent, batch.buffered;
      batch.Flush();
      SaysRecords(s0, records, s1, b1, socket.sent);
      ghost var s2 := socket.sent;
      SendFrame(ROOTS_DONE, []);
      SaysThen(s0, Gather(records), records, s2, [Message(ROOTS_DONE, [])], [Message(ROOTS_DONE, [])], socket.sent);
    }

    /** Every object asked for is sent, in the order of the request, before the batch is declared done. */
    method AnswerRequest(batch: RecordBatch, payload: Octets)
      requires batch.Valid() && batch.buffered == [] && batch.socket == socket && |payload| % ADDRESS_SIZE == 0
      modifies batch, batch.wire, socket`sent
      ensures batch.Valid() && batch.buffered == []
      ensures Says(old(socket.sent), AnswerFrames(process, Words(payload)), Answer(process, Words(payload)),
                   socket.sent)
    {
      hide Says, Delivered, ObjectRecords, FromBe, Words, Gather;
      ghost var s0, words := socket.sent, Words(payload);
      var offset := 0;
      DeliveredNothing(s0, []);
      assert AnswerRecords(process, words[..0]) == [];
      while offset < |payload|
        invariant offset <= |payload| && offset % ADDRESS_SIZE == 0 && batch.Valid()
        invariant Delivered(s0, [], AnswerRecords(process, words[..offset / ADDRESS_SIZE]), socket.sent, batch.buffered)
      {
        ghost var i, s1, b1 := offset / ADDRESS_SIZE, socket.sent, batch.buffered;
        WordAt(payload, i);
        var address := FromBe(payload[offset..offset + ADDRESS_SIZE]);
        SendObject(batch, process.objectAt(address));
        DeliveredThen(s0, [], AnswerRecords(process, words[..i]), s1, b1, ObjectRecords(process.objectAt(address)),
                      socket.sent, batch.buffered);
        AnswerRecordsNext(process, words[..i], words[i]);
        assert words[..i + 1] == words[..i] + [words[i]];
        offset := offset + ADDRESS_SIZE;
      }
      assert words[..offset / ADDRESS_SIZE] == words;
      ghost var records, s1, b1 := AnswerRecords(process, words), socket.sent, batch.buffered;
      batch.Flush();
      SaysRecords(s0, records, s1, b1, socket.sent);
      ghost var s2 := socket.sent;
      SendFrame(BATCH_DONE, []);
      SaysThen(s0, Gather(records), records, s2, [Message(BATCH_DONE, [])], [Message(BATCH_DONE, [])], socket.sent);
    }

    /**
     * Serves requests until the Collector finishes. Whatever comes in, each request has been answered in full
     * before the next frame is looked at, and nothing but the demands of the stream ends the loop.
     */
    method HandleRequests(requested: array<Byte>) returns (ok: bool, ghost requests: seq<seq<Address>>)
      requires requested.Length == MAX_PAYLOAD
      modifies socket, requested
      ensures requests == Demands(old(socket.incoming)).0
      ensures ok <==> Demands(old(socket.incoming)).1.Finishes?
      ensures Answered(process, requests, LastFrames(Demands(old(socket.incoming)).1), old(socket.sent), socket.sent)
      ensures !Demands(old(socket.incoming)).1.BreaksOff? ==> socket.incoming == Demands(old(socket.incoming)).2
    {
      hide Answered, AgentFrame, Words, Delivered, Says;
      var batch := new RecordBatch(socket);
      ghost var s0, all := socket.sent, socket.incoming;
      requests := [];
      AnsweredNothing(process, s0);
      assert [] + Demands(all).0 == Demands(all).0;
      while true
        invariant batch.Valid() && batch.buffered == [] && fresh(batch.wire)
        invariant Answered(process, requests, [], s0, socket.sent)
        invariant Demands(all) == DemandsBehind(requests, Demands(socket.incoming))
        decreases |socket.incoming|
      {
        ghost var before, s1 := socket.incoming, socket.sent;
        var frame := ReceiveFrame(requested);
        if !frame.Got? {
          return false, requests;
        }
        var code, payload := frame.code, requested[..frame.length];
        if code == Code(FINISH) && |payload| == 0 {
          SendFrame(COMPLETE, []);
          AnsweredLast(process, requests, Message(COMPLETE, []), s0, s1, socket.sent);
          return true, requests;
        }
        if code != Code(REQUEST_OBJECTS) || |payload| % ADDRESS_SIZE != 0 {
          SendFrame(ERROR, EXPECTED_REQUEST);
          AnsweredLast(process, requests, Message(ERROR, EXPECTED_REQUEST), s0, s1, socket.sent);
          return false, requests;
        }
        AnswerRequest(batch, payload);
        RequestAnswered(process, requests, s0, s1, payload, socket.sent);
        DemandsNext(requests, Words(payload), Demands(socket.incoming));
        requests := requests + [Words(payload)];
      }
    }

    /**
     * A whole session: how it ends and all that it sends is settled by the stream it hears. It has a defined end
     * unless reading the first frame overruns the buffer for the options.
     */
    method SessionMain(hello: Hello) returns (outcome: Outcome, ghost requests: seq<seq<Address>>)
      requires |hello.nonce| == NONCE_SIZE && |process.wellKnown| == WELL_KNOWN_COUNT
      modifies socket
      ensures outcome == ProgramOutcome(old(socket.incoming))
      ensures requests == ProgramRequests(old(socket.incoming))
      ensures !outcome.Overran? ==>
                Says(old(socket.sent), ProgramFrames(process, hello, old(socket.incoming)),
                     ProgramMessages(process, hello, old(socket.incoming)), socket.sent)
      ensures outcome.Served? ==> socket.incoming == Demands(Acknowledged(old(socket.incoming)).value).2
    {
      hide Says, AgentFrame, Delivered, Answered, RootMessages, RootFrames, Opened, Demands;
      ghost var s0 := socket.sent;
      requests := [];
      ghost var greeting, failed := Message(HELLO, EncodeHello(hello).value), Message(ERROR, SESSION_FAILED);
      SendFrame(HELLO, EncodeHello(hello).value);
      ghost var s1 := socket.sent;
      var options := new Byte[OPTIONS_SIZE];
      var ack := ReceiveFrame(options);
      if ack.PastTheEnd? {
        return Overran, requests;
      }
      if !ack.Got? || ack.code != Code(HELLO_ACK) || ack.length != OPTIONS_SIZE {
        SendFrame(ERROR, SESSION_FAILED);
        SaysThen(s0, [greeting], [greeting], s1, [failed], [failed], socket.sent);
        return Aborted, requests;
      }
      SendFrame(WELL_KNOWN, EncodeAddresses(process.wellKnown));
      ghost var s2, heard := socket.sent, socket.incoming;
      SendRoots();
      OpenedBy(process, hello, s0, s1, s2, socket.sent);
      ghost var s3 := socket.sent;
      var requested := new Byte[MAX_PAYLOAD];
      var served: bool;
      served, requests := HandleRequests(requested);
      ghost var s4 := socket.sent;
      OpenedAndAnswered(process, hello, heard, s0, s3, s4);
      if served {
        return Served, requests;
      }
      SendFrame(ERROR, SESSION_FAILED);
      SaysThen(s0, AnsweredFrames(process, hello, heard), AnsweredMessages(process, hello, heard), s4, [failed], [failed],
               socket.sent);
      return Aborted, requests;
    }
  }

  // ---------------------------------------------------------------- what the stream settles

  datatype Ending = Finishes | Complains | BreaksOff

  /**
   * The requests that a stream begins with, how it goes on behind them, and what is left of it: it finishes, or it
   * brings something else than a request, or no further frame can be read from it.
   */
  function Demands(s: Octets): (seq<seq<Address>>, Ending, Octets)
    decreases |s|
  {
    match AgentFrame(s, MAX_PAYLOAD)
    case Whole(code, payload, rest) =>
      if code == Code(FINISH) && |payload| == 0 then ([], Finishes, rest)
      else if code != Code(REQUEST_OBJECTS) || |payload| % ADDRESS_SIZE != 0 then ([], Complains, rest)
      else DemandsBehind([Words(payload)], Demands(rest))
    case _ => ([], BreaksOff, [])
  }

  function DemandsBehind(requests: seq<seq<Address>>, more: (seq<seq<Address>>, Ending, Octets))
    : (seq<seq<Address>>, Ending, Octets)
  {
    (requests + more.0, more.1, more.2)
  }

  lemma DemandsNext(requests: seq<seq<Address>>, r: seq<Address>, more: (seq<seq<Address>>, Ending, Octets))
    ensures DemandsBehind(requests, DemandsBehind([r], more)) == DemandsBehind(requests + [r], more)
  {
    assert requests + ([r] + more.0) == requests + [r] + more.0;
  }

  /** What the request loop sends last. */
  function LastFrames(e: Ending): seq<Message> {
    match e
    case Finishes => [Message(COMPLETE, [])]
    case Complains => [Message(ERROR, EXPECTED_REQUEST)]
    case BreaksOff => []
  }

  /** What a stream brings behind an acknowledgement, if it begins with one. */
  function Acknowledged(s: Octets): Option<Octets> {
    match AgentFrame(s, OPTIONS_SIZE)
    case Whole(code, payload, rest) => if code == Code(HELLO_ACK) && |payload| == OPTIONS_SIZE then Some(rest) else None
    case _ => None
  }

  function ProgramOutcome(s: Octets): Outcome {
    if AgentFrame(s, OPTIONS_SIZE).Overrun? then Overran
    else if Acknowledged(s).Some? && Demands(Acknowledged(s).value).1.Finishes? then Served
    else Aborted
  }

  function ProgramRequests(s: Octets): seq<seq<Address>> {
    if Acknowledged(s).Some? then Demands(Acknowledged(s).value).0 else []
  }

  /** Behind the acknowledgement: the opening, the answers to all requests that come, and the last word. */
  function AnsweredFrames(p: Process, hello: Hello, heard: Octets): seq<Message>
    requires |hello.nonce| == NONCE_SIZE
  {
    OpeningFrames(p, hello) + (AnswersFrames(p, Demands(heard).0) + LastFrames(Demands(heard).1))
  }

  function AnsweredMessages(p: Process, hello: Hello, heard: Octets): seq<Message>
    requires |hello.nonce| == NONCE_SIZE
  {
    OpeningMessages(p, hello) + (Answers(p, Demands(heard).0) + LastFrames(Demands(heard).1))
  }

  /** All that the program sends on this stream, frame by frame; where it is not defined, what it has sent before. */
  function ProgramFrames(p: Process, hello: Hello, s: Octets): seq<Message>
    requires |hello.nonce| == NONCE_SIZE
  {
    var greeting, failed := [Message(HELLO, EncodeHello(hello).value)], [Message(ERROR, SESSION_FAILED)];
    if ProgramOutcome(s).Overran? then greeting
    else
      match Acknowledged(s)
      case None => greeting + failed
      case Some(heard) => AnsweredFrames(p, hello, heard) + if Demands(heard).1.Finishes? then [] else failed
  }

  function ProgramMessages(p: Process, hello: Hello, s: Octets): seq<Message>
    requires |hello.nonce| == NONCE_SIZE
  {
    var greeting, failed := [Message(HELLO, EncodeHello(hello).value)], [Message(ERROR, SESSION_FAILED)];
    if ProgramOutcome(s).Overran? then greeting
    else
      match Acknowledged(s)
      case None => greeting + failed
      case Some(heard) => AnsweredMessages(p, hello, heard) + if Demands(heard).1.Finishes? then [] else failed
  }

  lemma OpenedAndAnswered(p: Process, hello: Hello, heard: Octets, s0: Octets, s1: Octets, s2: Octets)
    requires |hello.nonce| == NONCE_SIZE && Opened(p, hello, s0, s1)
    requires Answered(p, Demands(heard).0, LastFrames(Demands(heard).1), s1, s2)
    ensures Says(s0, AnsweredFrames(p, hello, heard), AnsweredMessages(p, hello, heard), s2)
    ensures AnsweredFrames(p, hello, heard) + [] == AnsweredFrames(p, hello, heard)
    ensures AnsweredMessages(p, hello, heard) + [] == AnsweredMessages(p, hello, heard)
  {
    hide Says, OpeningFrames, OpeningMessages, AnswersFrames, Answers, Demands, LastFrames;
    var d := Demands(heard);
    SaysThen(s0, OpeningFrames(p, hello), OpeningMessages(p, hello), s1, AnswersFrames(p, d.0) + LastFrames(d.1),
             Answers(p, d.0) + LastFrames(d.1), s2);
  }

  lemma RequestIsDemanded(r: seq<Address>, behind: Octets)
    requires AllWide(r) && |Request(r).payload| <= MAX_PAYLOAD
    ensures Demands(WireBytes(Request(r)) + behind) == DemandsBehind([r], Demands(behind))
  {
    hide WireBytes, Words, EncodeAddresses, AgentFrame, NextWire;
    var m := Request(r);
    NextWireInverse(WireBytes(m) + behind, m, behind);
    AgentFrameIs(WireBytes(m) + behind, MAX_PAYLOAD, m, behind);
    AddressesInverse(r, m.payload);
  }

  lemma WireFirst(r: seq<Address>, more: seq<seq<Address>>)
    ensures Wire(Requests([r] + more)) == WireBytes(Request(r)) + Wire(Requests(more))
  {
    hide WireBytes, Request;
    assert ([r] + more)[1..] == more;
    assert ([Request(r)] + Requests(more))[1..] == Requests(more);
  }

  /** Requests written one after the other are demanded in that order, and then whatever comes behind them. */
  lemma {:induction false} RequestsAreDemanded(q: seq<seq<Address>>, rest: Octets)
    requires Receivable(q)
    ensures Demands(Wire(Requests(q)) + rest) == DemandsBehind(q, Demands(rest))
    decreases |q|
  {
    hide WireBytes, Request, Demands;
    if q == [] {
      assert Wire(Requests(q)) + rest == rest;
      assert [] + Demands(rest).0 == Demands(rest).0;
    } else {
      hide Wire, Requests;
      RequestsAreDemanded(q[1..], rest);
      assert [q[0]] + q[1..] == q;
      WireFirst(q[0], q[1..]);
      assert Wire(Requests(q)) + rest == WireBytes(Request(q[0])) + (Wire(Requests(q[1..])) + rest);
      RequestIsDemanded(q[0], Wire(Requests(q[1..])) + rest);
      assert [q[0]] + (q[1..] + Demands(rest).0) == q + Demands(rest).0;
    }
  }

  lemma FinishIsDemanded(rest: Octets)
    ensures Demands(WireBytes(Message(FINISH, [])) + rest) == ([], Finishes, rest)
  {
    hide WireBytes, AgentFrame, NextWire;
    var m := Message(FINISH, []);
    NextWireInverse(WireBytes(m) + rest, m, rest);
    AgentFrameIs(WireBytes(m) + rest, MAX_PAYLOAD, m, rest);
  }

  /** Whatever is demanded stands in the stream, request by request, as frames that can be received. */
  lemma {:induction false} DemandsAreRequests(s: Octets)
    ensures Receivable(Demands(s).0) && Wire(Requests(Demands(s).0)) <= s
    ensures Demands(s).1.Finishes? ==>
              s == Wire(Requests(Demands(s).0)) + (WireBytes(Message(FINISH, [])) + Demands(s).2)
    decreases |s|
  {
    hide WireBytes, Words, Wire, Requests, AgentFrame, Request;
    var read := AgentFrame(s, MAX_PAYLOAD);
    NoRequests(s);
    if read.Whole? {
      FrameTaken(s, MAX_PAYLOAD, read.code, read.payload, read.rest);
      if read.code == Code(FINISH) && |read.payload| == 0 {
        assert read.payload == [];
      } else if read.code == Code(REQUEST_OBJECTS) && |read.payload| % ADDRESS_SIZE == 0 {
        DemandsAreRequests(read.rest);
        RequestRead(read.payload);
        WireFirst(Words(read.payload), Demands(read.rest).0);
      }
    }
  }

  lemma NoRequests(s: Octets)
    ensures Wire(Requests([])) == [] && s == Wire(Requests([])) + s
  {
  }

  lemma RequestRead(payload: Octets)
    requires |payload| % ADDRESS_SIZE == 0
    ensures AllWide(Words(payload)) && Request(Words(payload)) == Message(REQUEST_OBJECTS, payload)
  {
    hide Words, EncodeAddresses;
    AddressesOfWords(payload);
  }

  /** A stream demands these requests and then finishes exactly when it begins with their frames and the finish. */
  lemma DemandsInverse(s: Octets, q: seq<seq<Address>>, rest: Octets)
    ensures Demands(s) == (q, Finishes, rest) <==>
            Receivable(q) && s == Wire(Requests(q)) + (WireBytes(Message(FINISH, [])) + rest)
  {
    hide Demands, Receivable, Wire, WireBytes, Requests;
    DemandsAreRequests(s);
    FinishIsDemanded(rest);
    if Receivable(q) {
      RequestsAreDemanded(q, WireBytes(Message(FINISH, [])) + rest);
      assert q + [] == q;
    }
  }

  /** Answers to these requests have been sent, and then these frames. */
  ghost predicate Answered(p: Process, requests: seq<seq<Address>>, last: seq<Message>, sent: Octets, sent': Octets) {
    Says(sent, AnswersFrames(p, requests) + last, Answers(p, requests) + last, sent')
  }

  lemma AnsweredNothing(p: Process, sent: Octets)
    ensures Answered(p, [], [], sent, sent)
  {
    SaysNothing(sent);
    assert AnswersFrames(p, []) + [] == [] && Answers(p, []) + [] == [];
  }

  lemma AnsweredLast(p: Process, requests: seq<seq<Address>>, m: Message, s0: Octets, s1: Octets, s2: Octets)
    requires Answered(p, requests, [], s0, s1) && Says(s1, [m], [m], s2)
    ensures Answered(p, requests, [m], s0, s2)
  {
    hide Says, AnswersFrames, Answers;
    assert AnswersFrames(p, requests) + [] == AnswersFrames(p, requests);
    assert Answers(p, requests) + [] == Answers(p, requests);
    SaysThen(s0, AnswersFrames(p, requests), Answers(p, requests), s1, [m], [m], s2);
  }

  /** Hello, the well-known types and the roots have been sent. */
  ghost predicate Opened(p: Process, hello: Hello, sent: Octets, sent': Octets)
    requires |hello.nonce| == NONCE_SIZE
  {
    Says(sent, OpeningFrames(p, hello), OpeningMessages(p, hello), sent')
  }

  function OpeningFrames(p: Process, hello: Hello): seq<Message>
    requires |hello.nonce| == NONCE_SIZE
  {
    [Message(HELLO, EncodeHello(hello).value)] + [Message(WELL_KNOWN, EncodeAddresses(p.wellKnown))] + RootFrames(p)
  }

  function OpeningMessages(p: Process, hello: Hello): seq<Message>
    requires |hello.nonce| == NONCE_SIZE
  {
    [Message(HELLO, EncodeHello(hello).value)] + [Message(WELL_KNOWN, EncodeAddresses(p.wellKnown))] + RootMessages(p)
  }

  lemma OpenedBy(p: Process, hello: Hello, s0: Octets, s1: Octets, s2: Octets, s3: Octets)
    requires |hello.nonce| == NONCE_SIZE
    requires var m := Message(HELLO, EncodeHello(hello).value); Says(s0, [m], [m], s1)
    requires var m := Message(WELL_KNOWN, EncodeAddresses(p.wellKnown)); Says(s1, [m], [m], s2)
    requires Says(s2, RootFrames(p), RootMessages(p), s3)
    ensures Opened(p, hello, s0, s3)
  {
    hide Says, RootFrames, RootMessages;
    var greeting, known := [Message(HELLO, EncodeHello(hello).value)],
                           [Message(WELL_KNOWN, EncodeAddresses(p.wellKnown))];
    SaysThen(s0, greeting, greeting, s1, known, known, s2);
    SaysThen(s0, greeting + known, greeting + known, s2, RootFrames(p), RootMessages(p), s3);
  }

  /** All that the Agent sends in a session that it serves these requests in, frame by frame. */
  function SessionFrames(p: Process, hello: Hello, requests: seq<seq<Address>>): seq<Message>
    requires |hello.nonce| == NONCE_SIZE
  {
    OpeningFrames(p, hello) + (AnswersFrames(p, requests) + [Message(COMPLETE, [])])
  }

  function SessionMessages(p: Process, hello: Hello, requests: seq<seq<Address>>): seq<Message>
    requires |hello.nonce| == NONCE_SIZE
  {
    OpeningMessages(p, hello) + (Answers(p, requests) + [Message(COMPLETE, [])])
  }

  lemma WireOne(m: Message)
    ensures Wire([m]) == WireBytes(m)
  {
    assert [m][1..] == [];
  }

  lemma FrameTaken(before: Octets, room: nat, code: Byte, payload: Octets, after: Octets)
    requires AgentFrame(before, room) == Whole(code, payload, after)
    ensures |after| < |before| && |payload| <= MAX_PAYLOAD
    ensures forall k :: code == Code(k) ==> before == WireBytes(Message(k, payload)) + after
  {
    forall k | code == Code(k) ensures before == WireBytes(Message(k, payload)) + after {
      AgentFrameIs(before, room, Message(k, payload), after);
      NextWireInverse(before, Message(k, payload), after);
    }
  }

  lemma RequestAnswered(p: Process, requests: seq<seq<Address>>, s0: Octets, s1: Octets, payload: Octets, s2: Octets)
    requires |payload| % ADDRESS_SIZE == 0 && Answered(p, requests, [], s0, s1)
    requires Says(s1, AnswerFrames(p, Words(payload)), Answer(p, Words(payload)), s2)
    ensures Answered(p, requests + [Words(payload)], [], s0, s2)
  {
    hide Says, Answer, Answers, AnswerFrames, AnswersFrames, Words;
    var words, f, m := Words(payload), AnswersFrames(p, requests), Answers(p, requests);
    assert f + [] == f && m + [] == m;
    SaysThen(s0, f, m, s1, AnswerFrames(p, words), Answer(p, words), s2);
    AnswersNext(p, requests, words);
    AnswersFramesNext(p, requests, words);
    assert f + AnswerFrames(p, words) + [] == f + AnswerFrames(p, words);
    assert m + Answer(p, words) + [] == m + Answer(p, words);
  }
}
