/**
 * The capture protocol's frames. Agent and Collector exchange length-delimited frames; records of the Agent
 * travel together inside BULK_BATCH frames and are taken apart again by the receiver.
 */
module Protocol {
  import opened HeapModel
  import opened Bytes

  const MAGIC: Octets := [0x50, 0x59, 0x44, 0x50]
  const VERSION: Byte := 2
  const HEADER_SIZE := 12
  const RECORD_HEADER_SIZE := 5
  const MAX_PAYLOAD := 0x10_0000
  const BULK_PAYLOAD_SIZE := 0x8000

  datatype Kind =
    | HELLO | HELLO_ACK | WELL_KNOWN | ROOT_BATCH | ROOTS_DONE | REQUEST_OBJECTS | OBJECT_BEGIN | REFERENTS
    | SEQUENCE_CONTENT | DICT_CONTENT | ATTRIBUTES | PREVIEW | OBJECT_END | BATCH_DONE | FINISH | COMPLETE | ERROR
    | WARNING | CANCEL | BULK_BATCH

  const KINDS: seq<Kind> := [
    HELLO, HELLO_ACK, WELL_KNOWN, ROOT_BATCH, ROOTS_DONE, REQUEST_OBJECTS, OBJECT_BEGIN, REFERENTS, SEQUENCE_CONTENT,
    DICT_CONTENT, ATTRIBUTES, PREVIEW, OBJECT_END, BATCH_DONE, FINISH, COMPLETE, ERROR, WARNING, CANCEL, BULK_BATCH]

  /** Kinds are numbered from 1. */
  function Code(k: Kind): Byte {
    match k
    case HELLO => 1 case HELLO_ACK => 2 case WELL_KNOWN => 3 case ROOT_BATCH => 4 case ROOTS_DONE => 5
    case REQUEST_OBJECTS => 6 case OBJECT_BEGIN => 7 case REFERENTS => 8 case SEQUENCE_CONTENT => 9
    case DICT_CONTENT => 10 case ATTRIBUTES => 11 case PREVIEW => 12 case OBJECT_END => 13 case BATCH_DONE => 14
    case FINISH => 15 case COMPLETE => 16 case ERROR => 17 case WARNING => 18 case CANCEL => 19 case BULK_BATCH => 20
  }

  function KindOf(code: Byte): Option<Kind> {
    if 1 <= code <= |KINDS| then Some(KINDS[code - 1]) else None
  }

  lemma KindOfCode(k: Kind, code: Byte)
    ensures KindOf(code) == Some(k) <==> code == Code(k)
  {
  }

  /** What may travel inside a BULK_BATCH. */
  predicate IsBulkRecord(k: Kind) {
    k in {ROOT_BATCH, OBJECT_BEGIN, REFERENTS, SEQUENCE_CONTENT, DICT_CONTENT, ATTRIBUTES, PREVIEW, OBJECT_END, WARNING}
  }

  /** A frame on the wire, or a record inside a BULK_BATCH frame. */
  datatype Message = Message(kind: Kind, payload: Octets)

  datatype Problem =
    | Disconnected(missing: nat)
    | InvalidMagic
    | UnsupportedVersion
    | UnsupportedFlags
    | PayloadTooLarge
    | UnknownKind
    | PartialRecordHeader
    | PartialRecordPayload
    | NotABulkRecord
    | EmptyBatch
    | InvalidPayload
    | UnexpectedFrame
    | AgentFailed
    | WriterFailed

  datatype Result<+T> = Ok(value: T) | Error(problem: Problem) {
    predicate IsFailure() {
      Error?
    }

    function PropagateFailure<U>(): Result<U>
      requires Error?
    {
      Error(problem)
    }

    function Extract(): T
      requires Ok?
    {
      value
    }
  }

  // ---------------------------------------------------------------- bulk records

  function RecordBytes(f: Message): Octets {
    [Code(f.kind)] + Be(|f.payload|, 4) + f.payload
  }

  function RecordsBytes(records: seq<Message>): Octets
    decreases |records|
  {
    if records == [] then [] else RecordBytes(records[0]) + RecordsBytes(records[1..])
  }

  ghost predicate BulkRecords(records: seq<Message>) {
    forall i | 0 <= i < |records| :: IsBulkRecord(records[i].kind) && |records[i].payload| < Pow256(4)
  }

  /** The record at `o` of a bulk payload, and where the next one starts. */
  function RecordAt(payload: Octets, o: nat): Result<(Message, nat)>
    requires o < |payload|
  {
    if |payload| - o < RECORD_HEADER_SIZE then Error(PartialRecordHeader)
    else
      var start := o + RECORD_HEADER_SIZE;
      var end := start + FromBe(payload[o + 1..start]);
      if end > |payload| then Error(PartialRecordPayload)
      else
        match KindOf(payload[o])
        case None => Error(UnknownKind)
        case Some(kind) =>
          if IsBulkRecord(kind) then Ok((Message(kind, payload[start..end]), end)) else Error(NotABulkRecord)
  }

  /** All records from `o` on. */
  function RecordsFrom(payload: Octets, o: nat): Result<seq<Message>>
    requires o <= |payload|
    decreases |payload| - o
  {
    if o == |payload| then Ok([])
    else
      var r :- RecordAt(payload, o);
      var rest :- RecordsFrom(payload, r.1);
      Ok([r.0] + rest)
  }

  function Decoded(payload: Octets): Result<seq<Message>> {
    RecordsFrom(payload, 0)
  }

  lemma RecordIsRead(f: Message, payload: Octets, o: nat)
    requires IsBulkRecord(f.kind) && |f.payload| < Pow256(4) && At(payload, o, RecordBytes(f))
    ensures o < |payload| && RecordAt(payload, o) == Ok((f, o + |RecordBytes(f)|))
  {
    AtSplit(payload, o, [Code(f.kind)] + Be(|f.payload|, 4), f.payload);
    AtSplit(payload, o, [Code(f.kind)], Be(|f.payload|, 4));
    assert payload[o] == payload[o..o + 1][0] == Code(f.kind);
    KindOfCode(f.kind, payload[o]);
    FromBeBe(|f.payload|, 4);
  }

  lemma {:induction false} RecordsAreRead(records: seq<Message>, payload: Octets, o: nat)
    requires BulkRecords(records) && o <= |payload| && payload[o..] == RecordsBytes(records)
    ensures RecordsFrom(payload, o) == Ok(records)
    decreases |records|
  {
    hide RecordBytes, RecordAt;
    if records != [] {
      var f, rest := records[0], RecordsBytes(records[1..]);
      assert At(payload, o, RecordBytes(f) + rest) by {
        assert payload[o..o + |RecordBytes(f) + rest|] == payload[o..];
      }
      AtSplit(payload, o, RecordBytes(f), rest);
      RecordIsRead(f, payload, o);
      var next := o + |RecordBytes(f)|;
      assert payload[next..] == payload[o..][|RecordBytes(f)|..] == rest;
      RecordsAreRead(records[1..], payload, next);
      assert records == [f] + records[1..];
    } else {
      assert |payload[o..]| == 0;
    }
  }

  lemma RecordIsWritten(payload: Octets, o: nat)
    requires o < |payload| && RecordAt(payload, o).Ok?
    ensures var (f, next) := RecordAt(payload, o).value;
            o < next <= |payload| && payload[o..next] == RecordBytes(f) && IsBulkRecord(f.kind) && |f.payload| < Pow256(4)
  {
    var (f, next) := RecordAt(payload, o).value;
    var start := o + RECORD_HEADER_SIZE;
    BeFromBe(payload[o + 1..start]);
    KindOfCode(f.kind, payload[o]);
    assert payload[o..next] == [payload[o]] + payload[o + 1..start] + payload[start..next];
  }

  lemma {:induction false} RecordsAreWritten(payload: Octets, o: nat)
    requires o <= |payload| && RecordsFrom(payload, o).Ok?
    ensures var records := RecordsFrom(payload, o).value;
            BulkRecords(records) && RecordsBytes(records) == payload[o..]
    decreases |payload| - o
  {
    hide RecordBytes, RecordAt;
    if o < |payload| {
      var (f, next) := RecordAt(payload, o).value;
      RecordIsWritten(payload, o);
      RecordsAreWritten(payload, next);
      assert payload[o..] == payload[o..next] + payload[next..];
    }
  }

  /** Encoding and decoding are inverse to each other: a payload is accepted exactly when it is some list of records. */
  lemma BulkInverse(records: seq<Message>, payload: Octets)
    ensures Decoded(payload) == Ok(records) <==> BulkRecords(records) && payload == RecordsBytes(records)
  {
    assert payload[0..] == payload;
    if BulkRecords(records) && payload == RecordsBytes(records) {
      RecordsAreRead(records, payload, 0);
    }
    if Decoded(payload).Ok? {
      RecordsAreWritten(payload, 0);
    }
  }

  lemma {:induction false} RecordsBytesAppend(a: seq<Message>, b: seq<Message>)
    ensures RecordsBytes(a + b) == RecordsBytes(a) + RecordsBytes(b)
    decreases |a|
  {
    hide RecordBytes;
    if a == [] {
      assert a + b == b;
    } else {
      RecordsBytesAppend(a[1..], b);
      assert (a + b)[1..] == a[1..] + b;
    }
  }

  lemma RecordsBytesOne(f: Message)
    ensures RecordsBytes([f]) == RecordBytes(f)
  {
  }

  /** Puts records into one payload, unless one of them must not travel that way or all are too long together. */
  method EncodeBulkBatch(records: seq<Message>) returns (r: Result<Octets>)
    ensures r.Ok? <==> BulkRecords(records) && |RecordsBytes(records)| <= MAX_PAYLOAD
    ensures r.Ok? ==> Decoded(r.value) == Ok(records)
    ensures r.Error? && r.problem == NotABulkRecord ==> exists f :: f in records && !IsBulkRecord(f.kind)
  {
    hide RecordBytes;
    var payload := [];
    for i := 0 to |records|
      invariant BulkRecords(records[..i]) && payload == RecordsBytes(records[..i])
    {
      var record := records[i];
      if !IsBulkRecord(record.kind) {
        return Error(NotABulkRecord);
      }
      Powers();
      if |record.payload| >= 0x1_0000_0000 {
        return Error(PayloadTooLarge);
      }
      assert records[..i + 1] == records[..i] + [record];
      RecordsBytesAppend(records[..i], [record]);
      RecordsBytesOne(record);
      payload := payload + RecordBytes(record);
    }
    assert records[..|records|] == records;
    if |payload| > MAX_PAYLOAD {
      return Error(PayloadTooLarge);
    }
    BulkInverse(records, payload);
    return Ok(payload);
  }

  method DecodeBulkBatch(payload: Octets) returns (r: Result<seq<Message>>)
    ensures r == Decoded(payload)
    ensures r.Ok? ==> RecordsBytes(r.value) == payload
  {
    hide FromBe, KindOf, IsBulkRecord;
    var records: seq<Message> := [];
    var offset := 0;
    NothingPreceded(Decoded(payload));
    while offset < |payload|
      invariant offset <= |payload|
      invariant Decoded(payload) == Preceded(records, RecordsFrom(payload, offset))
    {
      if |payload| - offset < RECORD_HEADER_SIZE {
        return Error(PartialRecordHeader);
      }
      ghost var before := offset;
      var rawKind, size := payload[offset], FromBe(payload[offset + 1..offset + RECORD_HEADER_SIZE]);
      offset := offset + RECORD_HEADER_SIZE;
      var end := offset + size;
      if end > |payload| {
        return Error(PartialRecordPayload);
      }
      var kind := KindOf(rawKind);
      if kind == None {
        return Error(UnknownKind);
      }
      if !IsBulkRecord(kind.value) {
        return Error(NotABulkRecord);
      }
      var f := Message(kind.value, payload[offset..end]);
      assert RecordAt(payload, before) == Ok((f, end));
      PrecededNext(records, payload, before);
      records := records + [f];
      offset := end;
    }
    assert records + [] == records;
    BulkInverse(records, payload);
    return Ok(records);
  }

  ghost function Preceded(records: seq<Message>, rest: Result<seq<Message>>): Result<seq<Message>> {
    match rest
    case Ok(more) => Ok(records + more)
    case Error(problem) => Error(problem)
  }

  lemma NothingPreceded(rest: Result<seq<Message>>)
    ensures Preceded([], rest) == rest
  {
    if rest.Ok? {
      assert [] + rest.value == rest.value;
    }
  }

  lemma PrecededNext(records: seq<Message>, payload: Octets, o: nat)
    requires o < |payload| && RecordAt(payload, o).Ok?
    ensures var (f, next) := RecordAt(payload, o).value;
            Preceded(records, RecordsFrom(payload, o)) == Preceded(records + [f], RecordsFrom(payload, next))
  {
    RecordIsWritten(payload, o);
    hide RecordAt;
    var (f, next) := RecordAt(payload, o).value;
    var rest := RecordsFrom(payload, next);
    if rest.Ok? {
      assert records + ([f] + rest.value) == records + [f] + rest.value;
    }
  }
}
