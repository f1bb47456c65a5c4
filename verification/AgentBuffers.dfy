/** The Agent's fixed buffers: records gathered into bulk frames, addresses gathered into records. */
module AgentBuffers {
  import opened HeapModel
  import opened Bytes
  import opened Protocol
  import opened Framing

  /** A frame that `flush_record_batch` may send: never empty, and above 32 KiB only for a single record. */
  ghost predicate IsBatch(m: Message) {
    && m.kind == BULK_BATCH && |m.payload| <= MAX_PAYLOAD
    && Decoded(m.payload).Ok? && Decoded(m.payload).value != []
    && (|m.payload| <= BULK_PAYLOAD_SIZE || |Decoded(m.payload).value| == 1)
  }

  ghost predicate Batches(frames: seq<Message>)
    ensures Batches(frames) ==> AllLegal(frames)
  {
    forall i | 0 <= i < |frames| :: IsBatch(frames[i])
  }

  /** The frames sent and the records still buffered are the records buffered before and the new ones, in order. */
  ghost predicate Carried(before: seq<Message>, records: seq<Message>, frames: seq<Message>, after: seq<Message>) {
    Batches(frames) && Flatten(frames) + after == before + records
  }

  lemma CarriedNothing(buffered: seq<Message>)
    ensures Carried(buffered, [], [], buffered)
  {
    assert [] + buffered == buffered + [];
  }

  function Size(m: Message): nat {
    RECORD_HEADER_SIZE + |m.payload|
  }

  function Batch(records: seq<Message>): Message {
    Message(BULK_BATCH, RecordsBytes(records))
  }

  /** What flushing sends: one frame, or none for an empty buffer. */
  function FlushFrames(buffer: seq<Message>): seq<Message> {
    if buffer == [] then [] else [Batch(buffer)]
  }

  /** What appending a record sends, and what is buffered then. */
  function GatherOne(buffer: seq<Message>, m: Message): (seq<Message>, seq<Message>) {
    if Size(m) > BULK_PAYLOAD_SIZE then (FlushFrames(buffer) + [Batch([m])], [])
    else if |RecordsBytes(buffer)| + Size(m) > BULK_PAYLOAD_SIZE then (FlushFrames(buffer), [m])
    else ([], buffer + [m])
  }

  /** The same for records one after the other. */
  function Gathered(buffer: seq<Message>, records: seq<Message>): (seq<Message>, seq<Message>)
    decreases |records|
  {
    if records == [] then ([], buffer)
    else
      var one := GatherOne(buffer, records[0]);
      var more := Gathered(one.1, records[1..]);
      (one.0 + more.0, more.1)
  }

  lemma {:induction false} GatheredThen(buffer: seq<Message>, a: seq<Message>, b: seq<Message>)
    ensures Gathered(buffer, a + b) ==
            (Gathered(buffer, a).0 + Gathered(Gathered(buffer, a).1, b).0, Gathered(Gathered(buffer, a).1, b).1)
    decreases |a|
  {
    hide GatherOne;
    if a == [] {
      assert a + b == b;
      assert [] + Gathered(buffer, b).0 == Gathered(buffer, b).0;
    } else {
      var one := GatherOne(buffer, a[0]);
      var some := Gathered(one.1, a[1..]);
      GatheredThen(one.1, a[1..], b);
      assert (a + b)[1..] == a[1..] + b;
      assert one.0 + (some.0 + Gathered(some.1, b).0) == one.0 + some.0 + Gathered(some.1, b).0;
    }
  }

  lemma GatheredOne(buffer: seq<Message>, m: Message)
    ensures Gathered(buffer, [m]) == GatherOne(buffer, m)
  {
    hide GatherOne;
    assert [m][1..] == [];
    assert GatherOne(buffer, m).0 + [] == GatherOne(buffer, m).0;
  }

  /**
   * The stream has grown by the frames that gathering these records sends. `sent` and `buffered` are the bytes sent
   * and the records buffered before and after.
   */
  ghost predicate Delivered(sent: Octets, buffered: seq<Message>, records: seq<Message>,
                            sent': Octets, buffered': seq<Message>) {
    var frames := Gathered(buffered, records).0;
    && Carried(buffered, records, frames, buffered')
    && sent' == sent + Wire(frames) && buffered' == Gathered(buffered, records).1
  }

  lemma DeliveredNothing(sent: Octets, buffered: seq<Message>)
    ensures Delivered(sent, buffered, [], sent, buffered)
  {
    CarriedNothing(buffered);
    assert sent == sent + Wire([]);
  }

  lemma DeliveredThen(s0: Octets, b0: seq<Message>, r1: seq<Message>, s1: Octets, b1: seq<Message>,
                      r2: seq<Message>, s2: Octets, b2: seq<Message>)
    requires Delivered(s0, b0, r1, s1, b1) && Delivered(s1, b1, r2, s2, b2)
    ensures Delivered(s0, b0, r1 + r2, s2, b2)
  {
    hide Flatten, Wire, Batches, Gathered;
    var f1, f2 := Gathered(b0, r1).0, Gathered(b1, r2).0;
    GatheredThen(b0, r1, r2);
    CarriedThen(b0, r1, f1, b1, r2, f2, b2);
    WireAppend(f1, f2);
  }

  lemma CarriedThen(b0: seq<Message>, r1: seq<Message>, f1: seq<Message>, b1: seq<Message>, r2: seq<Message>,
                    f2: seq<Message>, b2: seq<Message>)
    requires Carried(b0, r1, f1, b1) && Carried(b1, r2, f2, b2)
    ensures Carried(b0, r1 + r2, f1 + f2, b2)
  {
    hide Flatten, Batches;
    BatchesTogether(f1, f2);
    FlattenAppend(f1, f2);
    calc {
      Flatten(f1 + f2) + b2;
      Flatten(f1) + (Flatten(f2) + b2);
      Flatten(f1) + (b1 + r2);
      (Flatten(f1) + b1) + r2;
      b0 + (r1 + r2);
    }
  }

  lemma BatchesTogether(a: seq<Message>, b: seq<Message>)
    requires Batches(a) && Batches(b)
    ensures Batches(a + b)
  {
    hide IsBatch;
  }

  /** What is delivered with nothing left in the buffer is received, record for record. */
  lemma DeliveredIsReceived(sent: Octets, buffered: seq<Message>, records: seq<Message>, sent': Octets, rest: Octets)
    requires Delivered(sent, buffered, records, sent', [])
    ensures sent <= sent' && ReceiveAll([], sent'[|sent|..] + rest) == Before(buffered + records, ReceiveAll([], rest))
  {
    hide Flatten, Wire, ReceiveAll, Batches;
    var frames := Gathered(buffered, records).0;
    FramesAreDelivered(frames, rest);
    assert sent'[|sent|..] == Wire(frames);
    assert Flatten(frames) + [] == Flatten(frames);
  }

  lemma OneBatch(records: seq<Message>)
    requires BulkRecords(records) && records != [] && |RecordsBytes(records)| <= MAX_PAYLOAD
    requires |RecordsBytes(records)| <= BULK_PAYLOAD_SIZE || |records| == 1
    ensures Batches([Batch(records)]) && Flatten([Batch(records)]) == records
    ensures Wire([Batch(records)]) == WireBytes(Batch(records))
  {
    hide RecordsBytes, WireBytes;
    BulkInverse(records, RecordsBytes(records));
    var m := Batch(records);
    assert [m][1..] == [];
  }

  /** A buffer as it may be: bulk records within 32 KiB. */
  ghost predicate Buffered(buffer: seq<Message>) {
    BulkRecords(buffer) && |RecordsBytes(buffer)| <= BULK_PAYLOAD_SIZE
  }

  lemma FlushCarries(buffer: seq<Message>)
    requires Buffered(buffer)
    ensures Carried(buffer, [], FlushFrames(buffer), [])
  {
    hide RecordsBytes, BulkRecords, Batches;
    if buffer == [] {
      CarriedNothing([]);
    } else {
      OneBatch(buffer);
    }
    assert buffer + [] == buffer;
  }

  /** Appending neither loses nor reorders a record, on any of its paths. */
  lemma GatherCarries(buffer: seq<Message>, m: Message)
    requires Buffered(buffer) && IsBulkRecord(m.kind) && Size(m) <= MAX_PAYLOAD
    ensures Carried(buffer, [m], GatherOne(buffer, m).0, GatherOne(buffer, m).1)
  {
    hide RecordsBytes, IsBulkRecord, Carried, FlushFrames;
    FlushCarries(buffer);
    assert [] + [m] == [m];
    if Size(m) > BULK_PAYLOAD_SIZE {
      AloneCarries(m);
      CarriedThen(buffer, [], FlushFrames(buffer), [], [m], [Batch([m])], []);
    } else if |RecordsBytes(buffer)| + Size(m) > BULK_PAYLOAD_SIZE {
      PutCarries([], m);
      CarriedThen(buffer, [], FlushFrames(buffer), [], [m], [], [] + [m]);
      assert FlushFrames(buffer) + [] == FlushFrames(buffer);
    } else {
      PutCarries(buffer, m);
    }
  }

  lemma StaysBuffered(buffer: seq<Message>, m: Message)
    requires Buffered(buffer) && IsBulkRecord(m.kind) && Size(m) <= MAX_PAYLOAD
    ensures Buffered(GatherOne(buffer, m).1)
  {
    hide RecordsBytes, IsBulkRecord;
    Powers();
    NoRecords([]);
    RecordsBytesOne(m);
    RecordsBytesAppend(buffer, [m]);
  }

  /**
   * For every sequence of records: the frames that gathering it sends, and the records left in the buffer, are the
   * records buffered before and the new ones, in order; no frame is empty, and none but that of a single oversized
   * record exceeds 32 KiB.
   */
  lemma {:induction false} GatheredCarries(buffer: seq<Message>, records: seq<Message>)
    requires Buffered(buffer)
    requires forall i | 0 <= i < |records| :: IsBulkRecord(records[i].kind) && Size(records[i]) <= MAX_PAYLOAD
    ensures Carried(buffer, records, Gathered(buffer, records).0, Gathered(buffer, records).1)
    ensures Buffered(Gathered(buffer, records).1)
    decreases |records|
  {
    hide GatherOne, Carried, Buffered, IsBulkRecord;
    if records == [] {
      CarriedNothing(buffer);
    } else {
      var one := GatherOne(buffer, records[0]);
      GatherCarries(buffer, records[0]);
      StaysBuffered(buffer, records[0]);
      GatheredCarries(one.1, records[1..]);
      var more := Gathered(one.1, records[1..]);
      CarriedThen(buffer, [records[0]], one.0, one.1, records[1..], more.0, more.1);
      assert [records[0]] + records[1..] == records;
    }
  }

  lemma AloneCarries(m: Message)
    requires IsBulkRecord(m.kind) && Size(m) <= MAX_PAYLOAD
    ensures Carried([], [m], [Batch([m])], [])
  {
    RecordsBytesOne(m);
    Powers();
    OneBatch([m]);
    assert [m] + [] == [] + [m];
  }

  lemma PutCarries(buffer: seq<Message>, m: Message)
    ensures Carried(buffer, [m], [], buffer + [m])
  {
    assert [] + (buffer + [m]) == buffer + [m];
  }

  method Copy(target: array<Byte>, at: nat, source: Octets)
    requires at + |source| <= target.Length
    modifies target
    ensures target[..at] == old(target[..at]) && target[at..at + |source|] == source
    ensures target[at + |source|..] == old(target[at + |source|..])
  {
    forall i | 0 <= i < |source| {
      target[at + i] := source[i];
    }
  }

  method WriteFrameHeader(wire: array<Byte>, kind: Kind, length: nat)
    requires wire.Length >= HEADER_SIZE
    modifies wire
    ensures wire[..HEADER_SIZE] == HeaderBytes(kind, length) && wire[HEADER_SIZE..] == old(wire[HEADER_SIZE..])
  {
    Copy(wire, 0, MAGIC + [VERSION, Code(kind)] + Be(0, 2) + Be(length, 4));
  }

  /** Records gathered behind room for a frame header. */
  class RecordBatch {
    const socket: Socket
    const wire: array<Byte>
    var payloadLength: nat
    ghost var buffered: seq<Message>

    ghost predicate Valid()
      reads this, wire
    {
      && wire.Length == HEADER_SIZE + BULK_PAYLOAD_SIZE
      && payloadLength <= BULK_PAYLOAD_SIZE
      && BulkRecords(buffered)
      && wire[HEADER_SIZE..HEADER_SIZE + payloadLength] == RecordsBytes(buffered)
    }

    constructor (socket: Socket)
      ensures Valid() && this.socket == socket && buffered == [] && fresh(wire)
    {
      this.socket := socket;
      wire := new Byte[HEADER_SIZE + BULK_PAYLOAD_SIZE];
      payloadLength := 0;
      buffered := [];
    }

    /** Sends what is buffered as one frame; nothing is sent for an empty buffer. */
    method Flush()
      requires Valid()
      modifies this, wire, socket`sent
      ensures Valid() && buffered == [] && payloadLength == 0
      ensures Buffered(old(buffered)) && socket.sent == old(socket.sent) + Wire(FlushFrames(old(buffered)))
    {
      hide HeaderBytes, RecordsBytes, BulkRecords, Flatten, Decoded;
      if payloadLength == 0 {
        NoRecords(buffered);
        return;
      }
      var length := payloadLength;
      WriteFrameHeader(wire, BULK_BATCH, length);
      assert wire[HEADER_SIZE..HEADER_SIZE + length] == wire[HEADER_SIZE..][..length];
      assert wire[HEADER_SIZE..HEADER_SIZE + length] == old(wire[HEADER_SIZE..])[..length] == RecordsBytes(buffered);
      assert wire[..HEADER_SIZE + length] == wire[..HEADER_SIZE] + wire[HEADER_SIZE..HEADER_SIZE + length];
      NoRecords([]);
      OneBatch(buffered);
      socket.SendAll(wire[..HEADER_SIZE + length]);
      payloadLength := 0;
      buffered := [];
    }

    /** Buffers one record, given in two parts; a record above 32 KiB goes out in a frame of its own. */
    method AppendParts(kind: Kind, first: Octets, second: Octets)
      requires Valid() && IsBulkRecord(kind) && RECORD_HEADER_SIZE + |first| + |second| <= MAX_PAYLOAD
      modifies this, wire, socket`sent
      ensures Valid()
      ensures Delivered(old(socket.sent), old(buffered), [Message(kind, first + second)], socket.sent, buffered)
    {
      hide IsBulkRecord, Carried, RecordsBytes, Wire, FlushFrames, Gathered;
      ghost var record, sent, before := Message(kind, first + second), socket.sent, buffered;
      var recordLength := RECORD_HEADER_SIZE + |first| + |second|;
      GatheredOne(before, record);
      GatherCarries(before, record);
      if recordLength > BULK_PAYLOAD_SIZE {
        Flush();
        SendAlone(kind, first, second);
        WireAppend(FlushFrames(before), [Batch([record])]);
        return;
      }
      if payloadLength + recordLength > BULK_PAYLOAD_SIZE {
        Flush();
        assert [] + [record] == [record];
      } else {
        NoWire(sent);
      }
      Put(kind, first, second);
    }

    method SendAlone(kind: Kind, first: Octets, second: Octets)
      requires IsBulkRecord(kind) && RECORD_HEADER_SIZE + |first| + |second| <= MAX_PAYLOAD
      modifies socket`sent
      ensures socket.sent == old(socket.sent) + Wire([Batch([Message(kind, first + second)])])
    {
      hide HeaderBytes;
      ghost var record := Message(kind, first + second);
      var recordLength := RECORD_HEADER_SIZE + |first| + |second|;
      var large := new Byte[HEADER_SIZE + recordLength];
      WriteFrameHeader(large, BULK_BATCH, recordLength);
      ghost var header := large[..HEADER_SIZE];
      Copy(large, HEADER_SIZE, [Code(kind)] + Be(|first| + |second|, 4) + first + second);
      RecordsBytesOne(record);
      assert RecordBytes(record) == [Code(kind)] + Be(|first| + |second|, 4) + first + second;
      assert large[..] == header + RecordBytes(record);
      Powers();
      OneBatch([record]);
      socket.SendAll(large[..]);
    }

    method Put(kind: Kind, first: Octets, second: Octets)
      requires Valid() && IsBulkRecord(kind)
      requires payloadLength + RECORD_HEADER_SIZE + |first| + |second| <= BULK_PAYLOAD_SIZE
      modifies this, wire
      ensures Valid() && buffered == old(buffered) + [Message(kind, first + second)]
    {
      hide RecordsBytes, RecordBytes, Be;
      ghost var record, before := Message(kind, first + second), wire[..];
      var cursor := HEADER_SIZE + payloadLength;
      var data := [Code(kind)] + Be(|first| + |second|, 4) + first + second;
      Copy(wire, cursor, data);
      RecordAppended(buffered, kind, first, second);
      PutBehind(before, wire[..], HEADER_SIZE, cursor, data);
      Powers();
      payloadLength := payloadLength + |data|;
      buffered := buffered + [record];
    }

    method Append(kind: Kind, payload: Octets)
      requires Valid() && IsBulkRecord(kind) && RECORD_HEADER_SIZE + |payload| <= MAX_PAYLOAD
      modifies this, wire, socket`sent
      ensures Valid() && Delivered(old(socket.sent), old(buffered), [Message(kind, payload)], socket.sent, buffered)
    {
      AppendParts(kind, payload, []);
      assert payload + [] == payload;
    }
  }

  lemma RecordAppended(records: seq<Message>, kind: Kind, first: Octets, second: Octets)
    ensures RecordsBytes(records + [Message(kind, first + second)]) ==
            RecordsBytes(records) + ([Code(kind)] + Be(|first| + |second|, 4) + first + second)
  {
    hide RecordsBytes;
    var record := Message(kind, first + second);
    RecordsBytesAppend(records, [record]);
    RecordsBytesOne(record);
    assert RecordBytes(record) == [Code(kind)] + Be(|first| + |second|, 4) + first + second;
  }

  lemma PutBehind(before: Octets, after: Octets, start: nat, cursor: nat, data: Octets)
    requires start <= cursor <= cursor + |data| <= |after| == |before|
    requires after[..cursor] == before[..cursor] && after[cursor..cursor + |data|] == data
    ensures after[start..cursor + |data|] == before[start..cursor] + data
  {
    assert after[start..cursor] == after[..cursor][start..];
    assert before[start..cursor] == before[..cursor][start..];
  }

  lemma NoRecords(records: seq<Message>)
    ensures RecordsBytes(records) == [] <==> records == []
    ensures BulkRecords([])
  {
  }

  lemma NoWire(sent: Octets)
    ensures sent == sent + Wire([])
  {
  }
}
