/**
 * How an object travels: a begin record, its content and its referents in chunks of 256 addresses, an end
 * record; and how the Collector puts it together again.
 */
module ObjectStream {
  import opened GraphTheory
  import opened HeapModel
  import opened Bytes
  import opened Protocol
  import opened CaptureModel
  import opened ArtifactEncoding
  import Artifact
  import Parsing

  const ADDRESS_SIZE := 8
  const IO_BATCH := 256
  const BEGIN_SIZE := 23
  // ---------------------------------------------------------------- addresses

  function EncodeAddresses(addresses: seq<Address>): (payload: Octets)
    ensures |payload| == ADDRESS_SIZE * |addresses|
    decreases |addresses|
  {
    if addresses == [] then [] else Be(addresses[0], ADDRESS_SIZE) + EncodeAddresses(addresses[1..])
  }

  function Words(payload: Octets): (addresses: seq<Address>)
    requires |payload| % ADDRESS_SIZE == 0
    ensures ADDRESS_SIZE * |addresses| == |payload|
  {
    if payload == [] then [] else [FromBe(payload[..ADDRESS_SIZE])] + Words(payload[ADDRESS_SIZE..])
  }

  function DecodeAddresses(payload: Octets): Result<seq<Address>> {
    if |payload| % ADDRESS_SIZE != 0 then Error(InvalidPayload) else Ok(Words(payload))
  }

  lemma {:induction false} WordsOfAddresses(addresses: seq<Address>)
    requires AllWide(addresses)
    ensures Words(EncodeAddresses(addresses)) == addresses
    decreases |addresses|
  {
    hide FromBe, Be;
    if addresses != [] {
      var payload := EncodeAddresses(addresses);
      Powers();
      FromBeBe(addresses[0], ADDRESS_SIZE);
      assert payload[..ADDRESS_SIZE] == Be(addresses[0], ADDRESS_SIZE);
      assert payload[ADDRESS_SIZE..] == EncodeAddresses(addresses[1..]);
      WordsOfAddresses(addresses[1..]);
    }
  }

  lemma {:induction false} AddressesOfWords(payload: Octets)
    requires |payload| % ADDRESS_SIZE == 0
    ensures AllWide(Words(payload)) && EncodeAddresses(Words(payload)) == payload
    decreases |payload|
  {
    hide FromBe, Be;
    if payload != [] {
      Powers();
      BeFromBe(payload[..ADDRESS_SIZE]);
      AddressesOfWords(payload[ADDRESS_SIZE..]);
      var rest := Words(payload[ADDRESS_SIZE..]);
      forall i | 0 <= i < |Words(payload)| ensures Words(payload)[i] < U64 {
        if i > 0 {
          assert Words(payload)[i] == rest[i - 1];
        }
      }
      assert payload == payload[..ADDRESS_SIZE] + payload[ADDRESS_SIZE..];
    }
  }

  /** A batch is accepted exactly when it is the encoding of some addresses. */
  lemma AddressesInverse(addresses: seq<Address>, payload: Octets)
    ensures DecodeAddresses(payload) == Ok(addresses) <==> AllWide(addresses) && payload == EncodeAddresses(addresses)
  {
    if AllWide(addresses) && payload == EncodeAddresses(addresses) {
      WordsOfAddresses(addresses);
    }
    if DecodeAddresses(payload).Ok? {
      AddressesOfWords(payload);
    }
  }

  /** Keys and values alternately. */
  function Flat(entries: seq<(Address, Address)>): (addresses: seq<Address>)
    ensures |addresses| == 2 * |entries|
  {
    if entries == [] then [] else [entries[0].0, entries[0].1] + Flat(entries[1..])
  }

  lemma {:induction false} FlatNext(entries: seq<(Address, Address)>, e: (Address, Address))
    ensures Flat(entries + [e]) == Flat(entries) + [e.0] + [e.1]
    decreases |entries|
  {
    if entries == [] {
      assert [e][1..] == [];
    } else {
      FlatNext(entries[1..], e);
      assert (entries + [e])[1..] == entries[1..] + [e];
    }
  }

  function Pairs(addresses: seq<Address>): (entries: seq<(Address, Address)>)
    requires |addresses| % 2 == 0
    ensures 2 * |entries| == |addresses|
  {
    if addresses == [] then [] else [(addresses[0], addresses[1])] + Pairs(addresses[2..])
  }

  lemma {:induction false} PairsOfFlat(entries: seq<(Address, Address)>)
    ensures Pairs(Flat(entries)) == entries
  {
    if entries != [] {
      PairsOfFlat(entries[1..]);
      assert Flat(entries)[2..] == Flat(entries[1..]);
    }
  }

  lemma PairsStep(a: seq<Address>, b: seq<Address>)
    requires |a| % 2 == 0 && |b| % 2 == 0 && a != []
    ensures Pairs(a) == [(a[0], a[1])] + Pairs(a[2..])
    ensures Pairs(a + b) == [(a[0], a[1])] + Pairs(a[2..] + b)
  {
    assert (a + b)[2..] == a[2..] + b;
  }

  lemma {:induction false} PairsAppend(a: seq<Address>, b: seq<Address>)
    requires |a| % 2 == 0 && |b| % 2 == 0
    ensures Pairs(a + b) == Pairs(a) + Pairs(b)
    decreases |a|
  {
    if a == [] {
      assert a + b == b;
    } else {
      PairsStep(a, b);
      hide Pairs;
      PairsAppend(a[2..], b);
    }
  }

  function DecodeDictEntries(payload: Octets): Result<seq<(Address, Address)>> {
    var addresses :- DecodeAddresses(payload);
    if |addresses| % 2 != 0 then Error(InvalidPayload) else Ok(Pairs(addresses))
  }

  function Request(addresses: seq<Address>): Message {
    Message(REQUEST_OBJECTS, EncodeAddresses(addresses))
  }

  function Requests(requests: seq<seq<Address>>): seq<Message>
    decreases |requests|
  {
    if requests == [] then [] else [Request(requests[0])] + Requests(requests[1..])
  }

  lemma {:induction false} RequestsNext(requests: seq<seq<Address>>, r: seq<Address>)
    ensures Requests(requests + [r]) == Requests(requests) + [Request(r)]
    decreases |requests|
  {
    hide Request;
    if requests == [] {
      assert [r][1..] == [];
    } else {
      RequestsNext(requests[1..], r);
      assert (requests + [r])[1..] == requests[1..] + [r];
    }
  }

  // ---------------------------------------------------------------- the begin record

  function KindCode(k: ContentKind): Byte {
    match k
    case NONE => 0
    case DICT => 1
    case LIST => 2
    case SET => 3
    case TUPLE => 4
  }

  function ContentKindOf(code: Byte): Option<ContentKind> {
    if code == 0 then Some(NONE) else if code == 1 then Some(DICT) else if code == 2 then Some(LIST)
    else if code == 3 then Some(SET) else if code == 4 then Some(TUPLE) else None
  }

  datatype ObjectBegin = ObjectBegin(address: Address, typeAddress: Address, shallowSize: nat, kindCode: Byte,
                                     typeName: Text)

  predicate BeginFits(b: ObjectBegin) {
    b.address < U64 && b.typeAddress < U64 && b.shallowSize <= MAX_UINT32
  }

  function CutName(name: Text): Text {
    Parsing.Cut(name, Parsing.MAX_TEXT)
  }

  function EncodeObjectBegin(b: ObjectBegin): Octets {
    Be(b.address, 8) + Be(b.typeAddress, 8) + Be(b.shallowSize, 4) + [b.kindCode] + Be(|CutName(b.typeName)|, 2) +
    CutName(b.typeName)
  }

  function DecodeObjectBegin(payload: Octets): Result<ObjectBegin> {
    if |payload| < BEGIN_SIZE then Error(InvalidPayload)
    else
      var name := payload[BEGIN_SIZE..];
      if |name| != FromBe(payload[21..23]) then Error(InvalidPayload)
      else
        Ok(ObjectBegin(FromBe(payload[..8]), FromBe(payload[8..16]), FromBe(payload[16..20]), payload[20], name))
  }

  /** A begin record is accepted exactly when it encodes what it is decoded to; only the name can have been cut. */
  lemma ObjectBeginInverse(b: ObjectBegin, payload: Octets)
    ensures BeginFits(b) ==> DecodeObjectBegin(EncodeObjectBegin(b)) == Ok(b.(typeName := CutName(b.typeName)))
    ensures DecodeObjectBegin(payload) == Ok(b) ==>
              BeginFits(b) && payload == EncodeObjectBegin(b) && |b.typeName| <= Parsing.MAX_TEXT
  {
    Powers();
    if BeginFits(b) {
      BeginIsDecoded(b);
    }
    if DecodeObjectBegin(payload) == Ok(b) {
      BeFromBe(payload[..8]);
      BeFromBe(payload[8..16]);
      BeFromBe(payload[16..20]);
      BeFromBe(payload[21..23]);
      assert payload == payload[..8] + payload[8..16] + payload[16..20] + [payload[20]] + payload[21..23] + payload[23..];
    }
  }

  lemma BeginIsDecoded(b: ObjectBegin)
    requires BeginFits(b)
    ensures DecodeObjectBegin(EncodeObjectBegin(b)) == Ok(b.(typeName := CutName(b.typeName)))
  {
    Powers();
    var name := CutName(b.typeName);
    FromBeBe(b.address, 8);
    FromBeBe(b.typeAddress, 8);
    FromBeBe(b.shallowSize, 4);
    FromBeBe(|name|, 2);
    hide Be, FromBe;
    BeginParts(Be(b.address, 8), Be(b.typeAddress, 8), Be(b.shallowSize, 4), b.kindCode, Be(|name|, 2), name);
  }

  lemma BeginParts(address: Octets, typeAddress: Octets, size: Octets, kind: Byte, length: Octets, name: Octets)
    requires |address| == 8 && |typeAddress| == 8 && |size| == 4 && |length| == 2
    ensures var p := address + typeAddress + size + [kind] + length + name;
            && |p| == BEGIN_SIZE + |name| && p[..8] == address && p[8..16] == typeAddress && p[16..20] == size
            && p[20] == kind && p[21..23] == length && p[BEGIN_SIZE..] == name
  {
  }

  // ---------------------------------------------------------------- what the Agent sends

  /** The Agent's view of an object of the stopped process. */
  datatype AgentObject = AgentObject(
    address: Address, typeAddress: Address, typeName: Text, shallowSize: nat, contentKind: ContentKind,
    sequence: seq<Address>, entries: seq<(Address, Address)>, referents: seq<Address>)

  ghost predicate FitsWire(o: AgentObject) {
    && o.address < U64 && o.typeAddress < U64 && o.shallowSize <= MAX_UINT32
    && AllWide(o.sequence) && AllWide(Flat(o.entries)) && AllWide(o.referents)
  }

  /** One record for every 256 addresses, and one for the rest. */
  function AddressRecords(kind: Kind, addresses: seq<Address>): seq<Message>
    decreases |addresses|
  {
    if addresses == [] then []
    else if |addresses| <= IO_BATCH then [Message(kind, EncodeAddresses(addresses))]
    else [Message(kind, EncodeAddresses(addresses[..IO_BATCH]))] + AddressRecords(kind, addresses[IO_BATCH..])
  }

  function BeginRecord(o: AgentObject): Message {
    Message(OBJECT_BEGIN,
            EncodeObjectBegin(ObjectBegin(o.address, o.typeAddress, o.shallowSize, KindCode(o.contentKind), o.typeName)))
  }

  function ContentRecords(o: AgentObject): seq<Message> {
    match o.contentKind
    case DICT => AddressRecords(DICT_CONTENT, Flat(o.entries))
    case NONE => []
    case _ => AddressRecords(SEQUENCE_CONTENT, o.sequence)
  }

  function ObjectRecords(o: AgentObject): seq<Message> {
    [BeginRecord(o)] + (ContentRecords(o) + (AddressRecords(REFERENTS, o.referents) + [Message(OBJECT_END, [])]))
  }

  lemma {:induction false} AddressRecordsAppend(kind: Kind, a: seq<Address>, b: seq<Address>)
    requires |a| % IO_BATCH == 0
    ensures AddressRecords(kind, a + b) == AddressRecords(kind, a) + AddressRecords(kind, b)
    decreases |a|
  {
    hide EncodeAddresses;
    if a == [] {
      assert a + b == b;
    } else if b == [] {
      assert a + b == a;
    } else {
      assert (a + b)[..IO_BATCH] == a[..IO_BATCH];
      assert (a + b)[IO_BATCH..] == a[IO_BATCH..] + b;
      AddressRecordsAppend(kind, a[IO_BATCH..], b);
      if |a| == IO_BATCH {
        assert a[..IO_BATCH] == a && a[IO_BATCH..] == [];
      }
    }
  }

  // ---------------------------------------------------------------- what the Collector makes of it

  /** The lower-case hexadecimal digits of a number. */
  function Hex(n: nat): Text {
    var digit: Byte := if n % 16 < 10 then 48 + n % 16 else 87 + n % 16;
    if n < 16 then [digit] else Hex(n / 16) + [digit]
  }

  const AT_0X: Text := [32, 97, 116, 32, 48, 120]

  function Described(typeName: Text, address: Address): Text {
    [60] + typeName + AT_0X + Hex(address) + [62]
  }

  /** The representation given to an object that came without one, cut to the wanted length. */
  function WithRepr(obj: CapturedObject, strReprLen: int): CapturedObject {
    if strReprLen >= 0 && obj.strRepr == [] then
      var text := Described(obj.typeName, obj.address);
      obj.(strRepr := if |text| > strReprLen then text[..strReprLen] else text)
    else obj
  }

  function UnexpectedIn(m: Message): Problem {
    if m.kind == ERROR then AgentFailed else UnexpectedFrame
  }

  function Expect(m: Message, kind: Kind): Result<Octets> {
    if m.kind != kind then Error(UnexpectedIn(m)) else Ok(m.payload)
  }

  /** The begin record must name the object that was asked for. */
  function BeginObject(m: Message, expected: Address): Result<CapturedObject> {
    var payload :- Expect(m, OBJECT_BEGIN);
    var b :- DecodeObjectBegin(payload);
    if b.address != expected then Error(InvalidPayload)
    else
      match ContentKindOf(b.kindCode)
      case None => Error(InvalidPayload)
      case Some(kind) =>
        Ok(CapturedObject(b.address, b.typeAddress, b.typeName, b.shallowSize, kind, [], [], {}, [], []))
  }

  datatype Progress = More(obj: CapturedObject) | Done(obj: CapturedObject)

  /** One record after the begin record. */
  function OnRecord(obj: CapturedObject, m: Message, strReprLen: int): Result<Progress> {
    match m.kind
    case REFERENTS =>
      var addresses :- DecodeAddresses(m.payload);
      Ok(More(obj.(referents := obj.referents + Artifact.SetOf(addresses))))
    case SEQUENCE_CONTENT =>
      var addresses :- DecodeAddresses(m.payload);
      Ok(More(obj.(sequenceContent := obj.sequenceContent + addresses)))
    case DICT_CONTENT =>
      var entries :- DecodeDictEntries(m.payload);
      Ok(More(obj.(dictContent := obj.dictContent + entries)))
    case PREVIEW => Ok(More(obj.(strRepr := m.payload)))
    case WARNING => Ok(More(obj))
    case OBJECT_END => Ok(Done(WithRepr(obj, strReprLen)))
    case _ => Error(UnexpectedIn(m))
  }

  datatype Parse = Complete(obj: CapturedObject, rest: seq<Message>) | Broken(problem: Problem) | Unfinished

  function ParseRecords(obj: CapturedObject, messages: seq<Message>, strReprLen: int): Parse
    decreases |messages|
  {
    if messages == [] then Unfinished
    else
      match OnRecord(obj, messages[0], strReprLen)
      case Error(problem) => Broken(problem)
      case Ok(Done(obj')) => Complete(obj', messages[1..])
      case Ok(More(obj')) => ParseRecords(obj', messages[1..], strReprLen)
  }

  function ParseObject(messages: seq<Message>, expected: Address, strReprLen: int): Parse {
    if messages == [] then Unfinished
    else
      match BeginObject(messages[0], expected)
      case Error(problem) => Broken(problem)
      case Ok(obj) => ParseRecords(obj, messages[1..], strReprLen)
  }

  /** The object the Collector holds when the last record has come. */
  ghost function Captured(o: AgentObject, strReprLen: int): CapturedObject {
    WithRepr(
      CapturedObject(o.address, o.typeAddress, CutName(o.typeName), o.shallowSize, o.contentKind,
                     if o.contentKind in {LIST, SET, TUPLE} then o.sequence else [],
                     if o.contentKind == DICT then o.entries else [], Artifact.SetOf(o.referents), [], []),
      strReprLen)
  }

  /** An object with more of its addresses. */
  ghost function Extended(obj: CapturedObject, kind: Kind, addresses: seq<Address>): CapturedObject
    requires kind == DICT_CONTENT ==> |addresses| % 2 == 0
  {
    match kind
    case REFERENTS => obj.(referents := obj.referents + Artifact.SetOf(addresses))
    case SEQUENCE_CONTENT => obj.(sequenceContent := obj.sequenceContent + addresses)
    case DICT_CONTENT => obj.(dictContent := obj.dictContent + Pairs(addresses))
    case _ => obj
  }

  predicate CarriesAddresses(kind: Kind) {
    kind in {REFERENTS, SEQUENCE_CONTENT, DICT_CONTENT}
  }

  lemma ChunkIsFolded(obj: CapturedObject, kind: Kind, chunk: seq<Address>, rest: seq<Message>, strReprLen: int)
    requires CarriesAddresses(kind) && AllWide(chunk) && (kind == DICT_CONTENT ==> |chunk| % 2 == 0)
    ensures ParseRecords(obj, [Message(kind, EncodeAddresses(chunk))] + rest, strReprLen) ==
            ParseRecords(Extended(obj, kind, chunk), rest, strReprLen)
  {
    hide EncodeAddresses, DecodeAddresses, Pairs;
    AddressesInverse(chunk, EncodeAddresses(chunk));
    assert ([Message(kind, EncodeAddresses(chunk))] + rest)[1..] == rest;
  }

  lemma ExtendTwice(obj: CapturedObject, kind: Kind, a: seq<Address>, b: seq<Address>)
    requires CarriesAddresses(kind) && (kind == DICT_CONTENT ==> |a| % 2 == 0 && |b| % 2 == 0)
    ensures Extended(Extended(obj, kind, a), kind, b) == Extended(obj, kind, a + b)
  {
    if kind == DICT_CONTENT {
      PairsAppend(a, b);
      assert obj.dictContent + Pairs(a) + Pairs(b) == obj.dictContent + (Pairs(a) + Pairs(b));
    } else if kind == SEQUENCE_CONTENT {
      assert obj.sequenceContent + a + b == obj.sequenceContent + (a + b);
    } else {
      assert obj.referents + Artifact.SetOf(a) + Artifact.SetOf(b) == obj.referents + Artifact.SetOf(a + b);
    }
  }

  /** Chunked addresses add up; a chunk of dictionary content never ends between a key and its value. */
  lemma {:induction false} ChunksAreFolded(obj: CapturedObject, kind: Kind, addresses: seq<Address>,
                                           rest: seq<Message>, strReprLen: int)
    requires CarriesAddresses(kind) && AllWide(addresses) && (kind == DICT_CONTENT ==> |addresses| % 2 == 0)
    ensures ParseRecords(obj, AddressRecords(kind, addresses) + rest, strReprLen) ==
            ParseRecords(Extended(obj, kind, addresses), rest, strReprLen)
    decreases |addresses|
  {
    hide EncodeAddresses, ParseRecords, Pairs;
    if addresses == [] {
      NothingExtends(obj, kind);
      assert [] + rest == rest;
    } else if |addresses| <= IO_BATCH {
      ChunkIsFolded(obj, kind, addresses, rest, strReprLen);
    } else {
      var chunk, others := addresses[..IO_BATCH], addresses[IO_BATCH..];
      assert AddressRecords(kind, addresses) + rest ==
             [Message(kind, EncodeAddresses(chunk))] + (AddressRecords(kind, others) + rest);
      ChunkIsFolded(obj, kind, chunk, AddressRecords(kind, others) + rest, strReprLen);
      ChunksAreFolded(Extended(obj, kind, chunk), kind, others, rest, strReprLen);
      ExtendTwice(obj, kind, chunk, others);
      assert chunk + others == addresses;
    }
  }

  lemma NothingExtends(obj: CapturedObject, kind: Kind)
    ensures Extended(obj, kind, []) == obj
  {
    assert obj.sequenceContent + [] == obj.sequenceContent && obj.dictContent + [] == obj.dictContent;
  }

  /** Every object, however long, arrives as it is: content in order, entries whole, referents as a set. */
  lemma ObjectArrives(o: AgentObject, rest: seq<Message>, strReprLen: int)
    requires FitsWire(o)
    ensures ParseObject(ObjectRecords(o) + rest, o.address, strReprLen) == Complete(Captured(o, strReprLen), rest)
  {
    hide AddressRecords, ParseRecords, EncodeObjectBegin, DecodeObjectBegin, Flat, Pairs, WithRepr;
    var begin := BeginRecord(o);
    var referents, end := AddressRecords(REFERENTS, o.referents), [Message(OBJECT_END, [])];
    var messages := ObjectRecords(o) + rest;
    BeginIsAccepted(o);
    var obj := BeginObject(begin, o.address).value;
    assert messages[0] == begin && messages[1..] == ContentRecords(o) + (referents + (end + rest));
    if o.contentKind == DICT {
      ChunksAreFolded(obj, DICT_CONTENT, Flat(o.entries), referents + (end + rest), strReprLen);
      PairsOfFlat(o.entries);
      assert [] + o.entries == o.entries;
    } else if o.contentKind != NONE {
      ChunksAreFolded(obj, SEQUENCE_CONTENT, o.sequence, referents + (end + rest), strReprLen);
      assert [] + o.sequence == o.sequence;
    } else {
      assert [] + (referents + (end + rest)) == referents + (end + rest);
    }
    var filled := obj.(sequenceContent := if o.contentKind in {LIST, SET, TUPLE} then o.sequence else [],
                       dictContent := if o.contentKind == DICT then o.entries else []);
    assert ParseRecords(obj, messages[1..], strReprLen) == ParseRecords(filled, referents + (end + rest), strReprLen);
    ChunksAreFolded(filled, REFERENTS, o.referents, end + rest, strReprLen);
    assert {} + Artifact.SetOf(o.referents) == Artifact.SetOf(o.referents);
    EndIsReached(filled.(referents := Artifact.SetOf(o.referents)), rest, strReprLen);
  }

  lemma BeginIsAccepted(o: AgentObject)
    requires FitsWire(o)
    ensures BeginObject(BeginRecord(o), o.address) ==
            Ok(CapturedObject(o.address, o.typeAddress, CutName(o.typeName), o.shallowSize, o.contentKind,
                              [], [], {}, [], []))
  {
    hide EncodeObjectBegin, DecodeObjectBegin, Flat;
    BeginIsDecoded(ObjectBegin(o.address, o.typeAddress, o.shallowSize, KindCode(o.contentKind), o.typeName));
  }

  lemma EndIsReached(obj: CapturedObject, rest: seq<Message>, strReprLen: int)
    ensures ParseRecords(obj, [Message(OBJECT_END, [])] + rest, strReprLen) == Complete(WithRepr(obj, strReprLen), rest)
  {
    assert ([Message(OBJECT_END, [])] + rest)[1..] == rest;
  }
}
