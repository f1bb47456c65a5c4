/**
 * The capture protocol byte by byte: numbers, positions and texts as they stand on the wire, spelt out without the
 * functions that encode and decode them.
 */
module WireFormat {
  import opened GraphTheory
  import opened HeapModel
  import opened Bytes
  import opened Protocol
  import opened Framing
  import opened Handshake
  import opened ObjectStream
  import opened CaptureModel
  import opened AgentBuffers
  import opened NonceHex
  import Artifact
  import AgentSession

  // ---------------------------------------------------------------- frames and records

  /** Kinds are numbered from 1, in this order. */
  lemma KindNumbers(i: nat)
    requires i < 20
    ensures KindOf(i + 1) == Some(
              [HELLO, HELLO_ACK, WELL_KNOWN, ROOT_BATCH, ROOTS_DONE, REQUEST_OBJECTS, OBJECT_BEGIN, REFERENTS,
               SEQUENCE_CONTENT, DICT_CONTENT, ATTRIBUTES, PREVIEW, OBJECT_END, BATCH_DONE, FINISH, COMPLETE, ERROR,
               WARNING, CANCEL, BULK_BATCH][i])
    ensures Code(KindOf(i + 1).value) == i + 1
  {
    KindOfCode(KINDS[i], i + 1);
  }

  /** Which kinds may travel as records, by their numbers. */
  lemma BulkNumbers(k: Kind)
    ensures IsBulkRecord(k) <==> Code(k) == 4 || 7 <= Code(k) <= 13 || Code(k) == 18
  {
  }

  lemma ContentNumbers()
    ensures KindCode(NONE) == 0 && KindCode(ContentKind.DICT) == 1 && KindCode(ContentKind.LIST) == 2
    ensures KindCode(ContentKind.SET) == 3 && KindCode(ContentKind.TUPLE) == 4
    ensures forall code: Byte :: ContentKindOf(code).Some? <==> code <= 4
    ensures forall k :: ContentKindOf(KindCode(k)) == Some(k)
  {
  }

  /** A frame: PYDP, version 2, the kind, two zero bytes, the length, most significant byte first, and the payload. */
  lemma FrameSpelt(m: Message)
    ensures var n := |m.payload|;
            WireBytes(m) == [80, 89, 68, 80, 2, Code(m.kind), 0, 0,
                             n / 0x100_0000 % 256, n / 0x1_0000 % 256, n / 0x100 % 256, n % 256] + m.payload
  {
    hide Be;
    BeSpelt(0);
    BeSpelt(|m.payload|);
  }

  /** A record inside a bulk frame: the kind, the length and the payload. */
  lemma RecordSpelt(m: Message)
    ensures var n := |m.payload|;
            RecordBytes(m) == [Code(m.kind), n / 0x100_0000 % 256, n / 0x1_0000 % 256, n / 0x100 % 256, n % 256] + m.payload
  {
    hide Be;
    BeSpelt(|m.payload|);
  }

  function Number(a: int, b: int, c: int, d: int): int {
    a * 0x100_0000 + b * 0x1_0000 + c * 0x100 + d
  }

  /** How the Collector judges a header: the first thing wrong with it decides. */
  lemma HeaderJudged(h: Octets)
    requires |h| == 12
    ensures var length := Number(h[8], h[9], h[10], h[11]);
            match ParseHeader(h)
            case Error(InvalidMagic) => h[..4] != [80, 89, 68, 80]
            case Error(UnsupportedVersion) => h[..4] == [80, 89, 68, 80] && h[4] != 2
            case Error(UnsupportedFlags) => h[..5] == [80, 89, 68, 80, 2] && (h[6] != 0 || h[7] != 0)
            case Error(PayloadTooLarge) => h[..5] == [80, 89, 68, 80, 2] && h[6..8] == [0, 0] && length > 1048576
            case Error(UnknownKind) =>
              h[..5] == [80, 89, 68, 80, 2] && h[6..8] == [0, 0] && length <= 1048576 && !(1 <= h[5] <= 20)
            case Error(_) => false
            case Ok((kind, n)) =>
              h[..5] == [80, 89, 68, 80, 2] && h[6..8] == [0, 0] && length <= 1048576 && h[5] == Code(kind) && n == length
  {
    hide FromBe;
    FromBeTwo(h[6], h[7]);
    FromBeFour(h[8], h[9], h[10], h[11]);
    assert h[6..8] == [h[6], h[7]] && h[8..] == [h[8], h[9], h[10], h[11]];
    if 1 <= h[5] <= 20 {
      KindOfCode(KINDS[h[5] - 1], h[5]);
    }
  }

  // ---------------------------------------------------------------- the opening

  lemma HelloSpelt(h: Hello)
    requires |h.nonce| == 16
    ensures EncodeHello(h) ==
            Ok([h.pythonMajor, h.pythonMinor, h.pointerSize, if h.littleEndian then 1 else 0] + h.nonce)
  {
  }

  /** Options: a signed length, most significant byte first, and the flag for attributes. */
  lemma OptionsSpelt()
    ensures OptionFits(-1) && EncodeOptions(-1, false) == [255, 255, 255, 255, 0]
    ensures OptionFits(1000) && EncodeOptions(1000, true) == [0, 0, 3, 232, 1]
    ensures OptionFits(-0x8000_0000) && OptionFits(0x7FFF_FFFF)
    ensures !OptionFits(-0x8000_0001) && !OptionFits(0x8000_0000)
  {
    hide Be;
    BeSpelt(0xFFFF_FFFF);
    BeSpelt(1000);
  }

  /** A digit of a nonce is one of 0 to 9 or a to f, and stands for what it looks like. */
  lemma DigitsSpelt(c: Byte, v: Nibble)
    ensures DigitValue(c) == Some(v) <==>
            (c as int == '0' as int + v && v <= 9) || (c as int == 'a' as int + v - 10 && v >= 10)
    ensures Digit(v) as int == if v <= 9 then '0' as int + v else 'a' as int + v - 10
  {
  }

  // ---------------------------------------------------------------- addresses

  /** Byte `j` of address `i` in a batch. */
  lemma {:induction false} AddressSpelt(addresses: seq<Address>, i: nat, j: nat)
    requires i < |addresses| && j < 8
    ensures EncodeAddresses(addresses)[8 * i + j] == addresses[i] / Pow256(7 - j) % 256
    decreases i
  {
    hide Be;
    if i == 0 {
      BeAt(addresses[0], 8, j);
    } else {
      AddressSpelt(addresses[1..], i - 1, j);
    }
  }

  /** Keys stand at even places, their values behind them. */
  lemma {:induction false} EntriesSpelt(entries: seq<(Address, Address)>, i: nat)
    requires i < |entries|
    ensures Flat(entries)[2 * i] == entries[i].0 && Flat(entries)[2 * i + 1] == entries[i].1
    decreases i
  {
    if i > 0 {
      EntriesSpelt(entries[1..], i - 1);
    }
  }

  /** Addresses travel 256 to a record: record `k` holds the addresses from 256 times `k` on. */
  lemma {:induction false} ChunksSpelt(kind: Kind, addresses: seq<Address>, k: nat)
    ensures 256 * |AddressRecords(kind, addresses)| < |addresses| + 256
    ensures |addresses| <= 256 * |AddressRecords(kind, addresses)|
    ensures k < |AddressRecords(kind, addresses)| ==>
              && 256 * k < |addresses|
              && AddressRecords(kind, addresses)[k] ==
                 Message(kind, EncodeAddresses(
                   addresses[256 * k..if 256 * (k + 1) <= |addresses| then 256 * (k + 1) else |addresses|]))
    decreases |addresses|
  {
    hide EncodeAddresses;
    if |addresses| > 256 {
      var rest := addresses[256..];
      ChunksSpelt(kind, rest, if k == 0 then 0 else k - 1);
      if 0 < k < |AddressRecords(kind, addresses)| {
        var end := if 256 * (k + 1) <= |addresses| then 256 * (k + 1) else |addresses|;
        assert rest[256 * (k - 1)..end - 256] == addresses[256 * k..end];
      }
    } else if addresses != [] {
      assert addresses[0..|addresses|] == addresses;
    }
  }

  // ---------------------------------------------------------------- objects

  /** The begin record: address, type address, size, content kind, length of the name, and the name. */
  lemma BeginSpelt(b: ObjectBegin)
    requires |b.typeName| <= 65535
    ensures var p := EncodeObjectBegin(b);
            && |p| == 23 + |b.typeName|
            && p[..8] == Be(b.address, 8) && p[8..16] == Be(b.typeAddress, 8) && p[16..20] == Be(b.shallowSize, 4)
            && p[20] == b.kindCode && p[21..23] == [|b.typeName| / 256, |b.typeName| % 256] && p[23..] == b.typeName
  {
    hide Be;
    BeSpelt(|b.typeName|);
    BeginParts(Be(b.address, 8), Be(b.typeAddress, 8), Be(b.shallowSize, 4), b.kindCode, Be(|b.typeName|, 2), b.typeName);
  }

  /** Of a longer name, the first 65535 bytes travel. */
  lemma LongNameSpelt(b: ObjectBegin)
    requires |b.typeName| > 65535
    ensures EncodeObjectBegin(b) == EncodeObjectBegin(b.(typeName := b.typeName[..65535]))
  {
    hide Be;
  }

  /** A tuple of two elements with one more referent, record by record. */
  lemma TupleSpelt()
    ensures var o := AgentObject(0x10, 0x20, [116], 56, ContentKind.TUPLE, [1, 2], [], [3]);
            RecordsBytes(ObjectRecords(o)) ==
              [7, 0, 0, 0, 24,
               0, 0, 0, 0, 0, 0, 0, 0x10, 0, 0, 0, 0, 0, 0, 0, 0x20, 0, 0, 0, 56, 4, 0, 1, 116] +
              ([9, 0, 0, 0, 16, 0, 0, 0, 0, 0, 0, 0, 1, 0, 0, 0, 0, 0, 0, 0, 2] +
               ([8, 0, 0, 0, 8, 0, 0, 0, 0, 0, 0, 0, 3] + [13, 0, 0, 0, 0]))
  {
    var o := AgentObject(0x10, 0x20, [116], 56, ContentKind.TUPLE, [1, 2], [], [3]);
    var content, referents, end := Message(SEQUENCE_CONTENT, EncodeAddresses([1, 2])),
                                   Message(REFERENTS, EncodeAddresses([3])), Message(OBJECT_END, []);
    assert ObjectRecords(o) == [BeginRecord(o)] + ([content] + ([referents] + [end])) by {
      hide BeginRecord, EncodeAddresses;
    }
    FourRecords(BeginRecord(o), content, referents, end);
    TupleBegins(o);
    ContentOfTuple();
    RestOfTuple();
  }

  lemma FourRecords(a: Message, b: Message, c: Message, d: Message)
    ensures RecordsBytes([a] + ([b] + ([c] + [d]))) == RecordBytes(a) + (RecordBytes(b) + (RecordBytes(c) + RecordBytes(d)))
  {
    hide RecordBytes, RecordsBytes;
    RecordsBytesAppend([a], [b] + ([c] + [d]));
    RecordsBytesAppend([b], [c] + [d]);
    RecordsBytesAppend([c], [d]);
    RecordsBytesOne(a);
    RecordsBytesOne(b);
    RecordsBytesOne(c);
    RecordsBytesOne(d);
  }

  lemma TupleBegins(o: AgentObject)
    requires o == AgentObject(0x10, 0x20, [116], 56, ContentKind.TUPLE, [1, 2], [], [3])
    ensures RecordBytes(BeginRecord(o)) ==
            [7, 0, 0, 0, 24,
             0, 0, 0, 0, 0, 0, 0, 0x10, 0, 0, 0, 0, 0, 0, 0, 0x20, 0, 0, 0, 56, 4, 0, 1, 116]
  {
    hide RecordBytes, BeginRecord;
    BeginOfTuple(o);
    RecordSpelt(BeginRecord(o));
  }

  lemma ContentOfTuple()
    ensures RecordBytes(Message(SEQUENCE_CONTENT, EncodeAddresses([1, 2]))) ==
            [9, 0, 0, 0, 16, 0, 0, 0, 0, 0, 0, 0, 1, 0, 0, 0, 0, 0, 0, 0, 2]
  {
    hide RecordBytes, EncodeAddresses;
    SmallAddresses(1, 2);
    SmallRecord(Message(SEQUENCE_CONTENT, EncodeAddresses([1, 2])));
  }

  lemma RestOfTuple()
    ensures RecordBytes(Message(REFERENTS, EncodeAddresses([3]))) == [8, 0, 0, 0, 8, 0, 0, 0, 0, 0, 0, 0, 3]
    ensures RecordBytes(Message(OBJECT_END, [])) == [13, 0, 0, 0, 0]
  {
    hide RecordBytes, EncodeAddresses;
    SmallAddress(3);
    SmallRecord(Message(REFERENTS, EncodeAddresses([3])));
    SmallRecord(Message(OBJECT_END, []));
  }

  lemma SmallRecord(m: Message)
    requires |m.payload| < 256
    ensures RecordBytes(m) == [Code(m.kind), 0, 0, 0, |m.payload|] + m.payload
  {
    hide RecordBytes;
    RecordSpelt(m);
  }

  lemma SmallAddress(a: Byte)
    ensures EncodeAddresses([a]) == [0, 0, 0, 0, 0, 0, 0, a]
  {
    hide Be;
    BeSmall(a);
    var all: seq<Address> := [a];
    assert all[1..] == [];
  }

  lemma SmallAddresses(a: Byte, b: Byte)
    ensures EncodeAddresses([a, b]) == [0, 0, 0, 0, 0, 0, 0, a, 0, 0, 0, 0, 0, 0, 0, b]
  {
    hide Be;
    BeSmall(a);
    SmallAddress(b);
    var all: seq<Address> := [a, b];
    assert all[1..] == [b];
  }

  lemma BeginOfTuple(o: AgentObject)
    requires o == AgentObject(0x10, 0x20, [116], 56, ContentKind.TUPLE, [1, 2], [], [3])
    ensures BeginRecord(o) ==
            Message(OBJECT_BEGIN, [0, 0, 0, 0, 0, 0, 0, 0x10, 0, 0, 0, 0, 0, 0, 0, 0x20, 0, 0, 0, 56, 4, 0, 1, 116])
  {
    hide Be;
    BeSmall(0x10);
    BeSmall(0x20);
    BeSmall(56);
    BeSpelt(1);
  }

  // ---------------------------------------------------------------- texts

  /** Lower-case hexadecimal digits, most significant first, without leading zeros. */
  lemma HexSpelt(n: nat, d: nat)
    requires d < 16
    ensures Hex(16 * n + d) ==
            (if n == 0 then [] else Hex(n)) + [if d < 10 then '0' as int + d else 'a' as int + d - 10]
  {
    assert (16 * n + d) / 16 == n && (16 * n + d) % 16 == d;
  }

  /** An object without a representation of its own is described as, for example, <dict at 0x1f>. */
  lemma DescriptionSpelt()
    ensures Described(Artifact.Ascii("dict"), 0x1f) == Artifact.Ascii("<dict at 0x1f>")
  {
    HexSpelt(0, 1);
    HexSpelt(1, 15);
    var text := Artifact.Ascii("<dict at 0x1f>");
    assert text == [60] + Artifact.Ascii("dict") + [32, 97, 116, 32, 48, 120] + [49, 102] + [62];
  }

  /** When a description is given, and how much of it. */
  lemma RepresentationSpelt(obj: CapturedObject, strReprLen: int)
    ensures var text, r := Described(obj.typeName, obj.address), WithRepr(obj, strReprLen);
            && r == obj.(strRepr := r.strRepr)
            && (strReprLen < 0 || obj.strRepr != [] ==> r.strRepr == obj.strRepr)
            && (obj.strRepr == [] && 0 <= strReprLen < |text| ==> r.strRepr == text[..strReprLen])
            && (obj.strRepr == [] && strReprLen >= |text| ==> r.strRepr == text)
  {
  }

  /** The two complaints of the Agent. */
  lemma ComplaintsSpelt()
    ensures AgentSession.EXPECTED_REQUEST == Artifact.Ascii("expected an object request batch")
    ensures AgentSession.SESSION_FAILED == Artifact.Ascii("native agent session failed or timed out")
    ensures AgentSession.LastFrames(AgentSession.Finishes) == [Message(COMPLETE, [])]
    ensures AgentSession.LastFrames(AgentSession.Complains) ==
            [Message(ERROR, Artifact.Ascii("expected an object request batch"))]
    ensures AgentSession.LastFrames(AgentSession.BreaksOff) == []
  {
  }

  // ---------------------------------------------------------------- records about an object

  /** What each record does to the object so far, by the number of its kind. */
  lemma RecordJudged(obj: CapturedObject, m: Message, strReprLen: int)
    ensures var r, code := OnRecord(obj, m, strReprLen), Code(m.kind);
            && (code == 12 ==> r == Ok(More(obj.(strRepr := m.payload))))
            && (code == 13 ==> r == Ok(Done(WithRepr(obj, strReprLen))))
            && (code == 17 ==> r == Error(AgentFailed))
            && (code == 18 ==> r == Ok(More(obj)))
            && (code in {8, 9, 10} && |m.payload| % (if code == 10 then 16 else 8) != 0 ==> r == Error(InvalidPayload))
            && (!(8 <= code <= 10) && !(12 <= code <= 13) && !(17 <= code <= 18) ==> r == Error(UnexpectedFrame))
  {
    hide WithRepr, FromBe;
  }

  /** When a begin record is accepted for the object asked for, and what it then says. */
  lemma BeginJudged(m: Message, expected: Address)
    requires |m.payload| >= 23
    ensures var p, r := m.payload, BeginObject(m, expected);
            && (r.Ok? <==> Code(m.kind) == 7 && FromBe(p[..8]) == expected && p[20] <= 4 &&
                           |p| == 23 + Number(0, 0, p[21], p[22]))
            && (r.Ok? ==> r.value.address == expected && r.value.typeAddress == FromBe(p[8..16]) &&
                          r.value.shallowSize == FromBe(p[16..20]) && KindCode(r.value.contentKind) == p[20] &&
                          r.value == CapturedObject(expected, r.value.typeAddress, p[23..], r.value.shallowSize,
                                                    r.value.contentKind, [], [], {}, [], []))
  {
    hide FromBe;
    FromBeTwo(m.payload[21], m.payload[22]);
    assert m.payload[21..23] == [m.payload[21], m.payload[22]];
    ContentNumbers();
  }

  /** The last representation that the Agent sends is the one that counts, warnings do not matter. */
  lemma PreviewSpelt(obj: CapturedObject, first: Octets, text: Octets, warning: Octets, end: Octets, more: seq<Message>,
                     strReprLen: int)
    requires text != []
    ensures ParseRecords(obj, [Message(PREVIEW, first)] + ([Message(PREVIEW, text)] + ([Message(WARNING, warning)] +
              ([Message(OBJECT_END, end)] + more))), strReprLen) == Complete(obj.(strRepr := text), more)
  {
    hide Described;
    var d := [Message(OBJECT_END, end)] + more;
    var c := [Message(WARNING, warning)] + d;
    var b := [Message(PREVIEW, text)] + c;
    var a := [Message(PREVIEW, first)] + b;
    assert a[1..] == b && b[1..] == c && c[1..] == d && d[1..] == more;
    assert ParseRecords(obj.(strRepr := text), d, strReprLen) == Complete(obj.(strRepr := text), more);
    assert ParseRecords(obj.(strRepr := text), c, strReprLen) == ParseRecords(obj.(strRepr := text), d, strReprLen);
    assert ParseRecords(obj.(strRepr := first), b, strReprLen) == ParseRecords(obj.(strRepr := text), c, strReprLen);
  }

  // ---------------------------------------------------------------- three streams that the Agent can hear

  /** Nothing at all: it says hello, and that it has failed. */
  lemma SilenceFails(p: AgentSession.Process, hello: Hello)
    requires |hello.nonce| == 16
    ensures AgentSession.ProgramOutcome([]) == AgentSession.Aborted
    ensures AgentSession.ProgramFrames(p, hello, []) ==
            [Message(HELLO, EncodeHello(hello).value),
             Message(ERROR, Artifact.Ascii("native agent session failed or timed out"))]
  {
  }

  /** What it sends once it is acknowledged: hello, the well-known types, the roots and their end. */
  function Opening(p: AgentSession.Process, hello: Hello): seq<Message>
    requires |hello.nonce| == 16
  {
    [Message(HELLO, EncodeHello(hello).value), Message(WELL_KNOWN, EncodeAddresses(p.wellKnown))] +
    (AgentSession.Gather(AddressRecords(ROOT_BATCH, p.roots)) + [Message(ROOTS_DONE, [])])
  }

  lemma AcknowledgedFirst(options: Octets, behind: Octets)
    requires |options| == 5
    ensures AgentSession.AgentFrame(WireBytes(Message(HELLO_ACK, options)) + behind, 5) ==
            AgentSession.Whole(2, options, behind)
    ensures AgentSession.Acknowledged(WireBytes(Message(HELLO_ACK, options)) + behind) == Some(behind)
  {
    hide WireBytes, NextWire, AgentSession.AgentFrame;
    var s := WireBytes(Message(HELLO_ACK, options)) + behind;
    NextWireInverse(s, Message(HELLO_ACK, options), behind);
    AgentSession.AgentFrameIs(s, 5, Message(HELLO_ACK, options), behind);
  }

  lemma DemandsOf(m: Message)
    requires |m.payload| <= 1048576 && m.kind != REQUEST_OBJECTS
    ensures AgentSession.Demands(WireBytes(m)) ==
            ([], if m == Message(FINISH, []) then AgentSession.Finishes else AgentSession.Complains, [])
  {
    hide WireBytes, NextWire, AgentSession.AgentFrame;
    var s := WireBytes(m);
    assert s + [] == s;
    NextWireInverse(s, m, []);
    AgentSession.AgentFrameIs(s, 1048576, m, []);
    KindOfCode(m.kind, Code(m.kind));
    KindOfCode(FINISH, Code(m.kind));
    KindOfCode(REQUEST_OBJECTS, Code(m.kind));
  }

  /** An acknowledgement and the finish: it says that it is complete. */
  lemma FinishCompletes(p: AgentSession.Process, hello: Hello, options: Octets)
    requires |hello.nonce| == 16 && |options| == 5
    ensures var s := WireBytes(Message(HELLO_ACK, options)) + WireBytes(Message(FINISH, []));
            && AgentSession.ProgramOutcome(s) == AgentSession.Served
            && AgentSession.ProgramFrames(p, hello, s) == Opening(p, hello) + [Message(COMPLETE, [])]
  {
    hide WireBytes, AgentSession.AgentFrame, AgentSession.Demands, AgentSession.Acknowledged, EncodeAddresses, EncodeHello,
         AgentSession.Gather, AddressRecords;
    AcknowledgedFirst(options, WireBytes(Message(FINISH, [])));
    DemandsOf(Message(FINISH, []));
    OpeningIs(p, hello);
    assert AgentSession.AnswersFrames(p, []) == [];
    assert [] + [Message(COMPLETE, [])] == [Message(COMPLETE, [])];
    assert Opening(p, hello) + [Message(COMPLETE, [])] + [] == Opening(p, hello) + [Message(COMPLETE, [])];
  }

  /** An acknowledgement and something else than a request or the finish: it complains, and says that it has failed. */
  lemma AnythingElseFails(p: AgentSession.Process, hello: Hello, options: Octets, m: Message)
    requires |hello.nonce| == 16 && |options| == 5 && |m.payload| <= 1048576
    requires m.kind != REQUEST_OBJECTS && m != Message(FINISH, [])
    ensures var s := WireBytes(Message(HELLO_ACK, options)) + WireBytes(m);
            && AgentSession.ProgramOutcome(s) == AgentSession.Aborted
            && AgentSession.ProgramFrames(p, hello, s) ==
               Opening(p, hello) + [Message(ERROR, Artifact.Ascii("expected an object request batch")),
                                    Message(ERROR, Artifact.Ascii("native agent session failed or timed out"))]
  {
    hide WireBytes, AgentSession.AgentFrame, AgentSession.Demands, AgentSession.Acknowledged, EncodeAddresses, EncodeHello,
         AgentSession.Gather, AddressRecords, Artifact.Ascii;
    AcknowledgedFirst(options, WireBytes(m));
    DemandsOf(m);
    OpeningIs(p, hello);
    assert AgentSession.AnswersFrames(p, []) == [];
    var complaint, failed := [Message(ERROR, AgentSession.EXPECTED_REQUEST)], [Message(ERROR, AgentSession.SESSION_FAILED)];
    assert [] + complaint == complaint;
    assert Opening(p, hello) + complaint + failed == Opening(p, hello) + (complaint + failed);
  }

  lemma OpeningIs(p: AgentSession.Process, hello: Hello)
    requires |hello.nonce| == 16
    ensures AgentSession.OpeningFrames(p, hello) == Opening(p, hello)
  {
    hide EncodeAddresses, EncodeHello, AgentSession.Gather, AddressRecords;
  }

  /** The header in front of a payload, as the Agent reads it. */
  lemma HeaderSpelt(code: Byte, length: nat)
    ensures AgentSession.FrameHeader(code, length) ==
            [80, 89, 68, 80, 2, code, 0, 0,
             length / 0x100_0000 % 256, length / 0x1_0000 % 256, length / 0x100 % 256, length % 256]
  {
    hide Be;
    BeSpelt(0);
    BeSpelt(length);
  }

  // ---------------------------------------------------------------- the record buffer

  /** A frame leaves only for a record that does not fit behind the others within 32768 bytes. */
  lemma BufferFills(buffer: seq<Message>, m: Message)
    requires m.kind != BULK_BATCH
    ensures 5 + |m.payload| <= 32768 && |RecordsBytes(buffer)| + 5 + |m.payload| <= 32768 ==>
              GatherOne(buffer, m) == ([], buffer + [m])
    ensures 5 + |m.payload| <= 32768 < |RecordsBytes(buffer)| + 5 + |m.payload| ==>
              GatherOne(buffer, m) == ([Message(BULK_BATCH, RecordsBytes(buffer))], [m])
    ensures 5 + |m.payload| > 32768 ==>
              GatherOne(buffer, m) ==
                ((if buffer == [] then [] else [Message(BULK_BATCH, RecordsBytes(buffer))]) +
                 [Message(BULK_BATCH, RecordBytes(m))], [])
  {
    hide RecordBytes;
    NoRecords(buffer);
    RecordsBytesOne(m);
  }
}
