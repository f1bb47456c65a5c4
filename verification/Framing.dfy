/** Frames on a byte stream: what a receiver makes of the bytes, however they are cut into reads. */
module Framing {
  import opened HeapModel
  import opened Bytes
  import opened Protocol

  function HeaderBytes(kind: Kind, length: nat): (h: Octets)
    ensures |h| == HEADER_SIZE
  {
    MAGIC + [VERSION, Code(kind)] + Be(0, 2) + Be(length, 4)
  }

  function WireBytes(m: Message): Octets {
    HeaderBytes(m.kind, |m.payload|) + m.payload
  }

  /** The checks a receiver makes on a header, in its order. */
  function ParseHeader(h: Octets): Result<(Kind, nat)>
    requires |h| == HEADER_SIZE
  {
    if h[..4] != MAGIC then Error(InvalidMagic)
    else if h[4] != VERSION then Error(UnsupportedVersion)
    else if FromBe(h[6..8]) != 0 then Error(UnsupportedFlags)
    else if FromBe(h[8..]) > MAX_PAYLOAD then Error(PayloadTooLarge)
    else if KindOf(h[5]) == None then Error(UnknownKind)
    else Ok((KindOf(h[5]).value, FromBe(h[8..])))
  }

  function Missing(n: nat, s: Octets): Problem
    requires |s| < n
  {
    Disconnected(n - |s|)
  }

  /** The frame at the front of a stream, and the stream behind it. */
  function NextWire(s: Octets): Result<(Message, Octets)> {
    if |s| < HEADER_SIZE then Error(Missing(HEADER_SIZE, s))
    else
      var (kind, length) :- ParseHeader(s[..HEADER_SIZE]);
      var rest := s[HEADER_SIZE..];
      if |rest| < length then Error(Missing(length, rest))
      else Ok((Message(kind, rest[..length]), rest[length..]))
  }

  lemma HeaderIsParsed(kind: Kind, length: nat)
    requires length <= MAX_PAYLOAD
    ensures ParseHeader(HeaderBytes(kind, length)) == Ok((kind, length))
  {
    var h := HeaderBytes(kind, length);
    assert h[..4] == MAGIC && h[6..8] == Be(0, 2) && h[8..] == Be(length, 4);
    Powers();
    FromBeBe(0, 2);
    FromBeBe(length, 4);
    KindOfCode(kind, h[5]);
  }

  lemma ParsedIsHeader(h: Octets)
    requires |h| == HEADER_SIZE && ParseHeader(h).Ok?
    ensures var (kind, length) := ParseHeader(h).value; h == HeaderBytes(kind, length) && length <= MAX_PAYLOAD
  {
    var (kind, length) := ParseHeader(h).value;
    KindOfCode(kind, h[5]);
    BeFromBe(h[6..8]);
    BeFromBe(h[8..]);
    assert h == h[..4] + [h[4], h[5]] + h[6..8] + h[8..];
  }

  /** A stream begins with a frame exactly when it begins with the bytes `send` writes for it. */
  lemma NextWireInverse(s: Octets, m: Message, rest: Octets)
    ensures NextWire(s) == Ok((m, rest)) <==> |m.payload| <= MAX_PAYLOAD && s == WireBytes(m) + rest
  {
    hide ParseHeader, HeaderBytes;
    if |m.payload| <= MAX_PAYLOAD && s == WireBytes(m) + rest {
      HeaderIsParsed(m.kind, |m.payload|);
      assert s[..HEADER_SIZE] == HeaderBytes(m.kind, |m.payload|);
      assert s[HEADER_SIZE..] == m.payload + rest;
    }
    if NextWire(s) == Ok((m, rest)) {
      ParsedIsHeader(s[..HEADER_SIZE]);
      assert s == s[..HEADER_SIZE] + s[HEADER_SIZE..];
      var length, tail := ParseHeader(s[..HEADER_SIZE]).value.1, s[HEADER_SIZE..];
      assert m.payload == tail[..length] && rest == tail[length..];
      assert tail == m.payload + rest;
    }
  }

  /** What a frame stands for: itself, or the records in it, of which there must be one. */
  function Logical(m: Message): (r: Result<seq<Message>>)
    ensures r.Ok? ==> r.value != []
  {
    if m.kind != BULK_BATCH then Ok([m])
    else
      var records :- Decoded(m.payload);
      if records == [] then Error(EmptyBatch) else Ok(records)
  }

  /** One receive: the message, the records left over, and the bytes left over. */
  function Next(pending: seq<Message>, incoming: Octets): Result<(Message, seq<Message>, Octets)> {
    if pending != [] then Ok((pending[0], pending[1..], incoming))
    else
      var (m, rest) :- NextWire(incoming);
      var records :- Logical(m);
      Ok((records[0], records[1..], rest))
  }

  lemma NextShrinks(incoming: Octets)
    requires NextWire(incoming).Ok?
    ensures |NextWire(incoming).value.1| < |incoming|
  {
    var (m, rest) := NextWire(incoming).value;
    NextWireInverse(incoming, m, rest);
  }

  /** All messages that repeated receives give, and the problem they end with. */
  function ReceiveAll(pending: seq<Message>, incoming: Octets): (seq<Message>, Problem)
    decreases |incoming|, |pending|
  {
    match Next(pending, incoming)
    case Error(problem) => ([], problem)
    case Ok((m, pending', incoming')) =>
      if pending == [] then NextShrinks(incoming); Before([m], ReceiveAll(pending', incoming'))
      else Before([m], ReceiveAll(pending', incoming'))
  }

  lemma NextIsHead(pending: seq<Message>, incoming: Octets)
    ensures ReceiveAll(pending, incoming) ==
            match Next(pending, incoming)
            case Error(problem) => ([], problem)
            case Ok((m, pending', incoming')) => Before([m], ReceiveAll(pending', incoming'))
  {
    hide NextWire, Logical;
  }

  function Before(first: seq<Message>, rest: (seq<Message>, Problem)): (seq<Message>, Problem) {
    (first + rest.0, rest.1)
  }

  lemma {:induction false} PendingFirst(pending: seq<Message>, incoming: Octets)
    ensures ReceiveAll(pending, incoming) == Before(pending, ReceiveAll([], incoming))
    decreases |pending|
  {
    hide NextWire, Logical;
    if pending == [] {
      assert [] + ReceiveAll([], incoming).0 == ReceiveAll([], incoming).0;
    } else {
      PendingFirst(pending[1..], incoming);
      assert [pending[0]] + (pending[1..] + ReceiveAll([], incoming).0) == pending + ReceiveAll([], incoming).0;
    }
  }

  function Wire(frames: seq<Message>): Octets
    decreases |frames|
  {
    if frames == [] then [] else WireBytes(frames[0]) + Wire(frames[1..])
  }

  /** Frames a sender may send: within the size limit, and bulk frames hold records. */
  predicate Legal(m: Message) {
    |m.payload| <= MAX_PAYLOAD && Logical(m).Ok?
  }

  predicate AllLegal(frames: seq<Message>) {
    forall i | 0 <= i < |frames| :: Legal(frames[i])
  }

  /** The messages that frames carry, bulk frames taken apart. */
  function Flatten(frames: seq<Message>): seq<Message>
    requires AllLegal(frames)
    decreases |frames|
  {
    if frames == [] then [] else Logical(frames[0]).value + Flatten(frames[1..])
  }

  lemma {:induction false} WireAppend(a: seq<Message>, b: seq<Message>)
    ensures Wire(a + b) == Wire(a) + Wire(b)
    decreases |a|
  {
    hide WireBytes;
    if a == [] {
      assert a + b == b;
    } else {
      WireAppend(a[1..], b);
      assert (a + b)[1..] == a[1..] + b;
    }
  }

  lemma {:induction false} FlattenAppend(a: seq<Message>, b: seq<Message>)
    requires AllLegal(a) && AllLegal(b)
    ensures AllLegal(a + b) && Flatten(a + b) == Flatten(a) + Flatten(b)
    decreases |a|
  {
    hide Logical;
    if a == [] {
      assert a + b == b;
    } else {
      FlattenAppend(a[1..], b);
      assert (a + b)[1..] == a[1..] + b;
    }
  }

  lemma FrameIsDelivered(m: Message, rest: Octets)
    requires Legal(m)
    ensures ReceiveAll([], WireBytes(m) + rest) == Before(Logical(m).value, ReceiveAll([], rest))
  {
    hide Logical, WireBytes, NextWire;
    NextWireInverse(WireBytes(m) + rest, m, rest);
    var records := Logical(m).value;
    PendingFirst(records[1..], rest);
    assert [records[0]] + (records[1..] + ReceiveAll([], rest).0) == records + ReceiveAll([], rest).0;
  }

  /**
   * Repeated receives give every message of every frame in the order it was sent, and then what the rest of
   * the stream gives.
   */
  lemma {:induction false} FramesAreDelivered(frames: seq<Message>, rest: Octets)
    requires AllLegal(frames)
    ensures ReceiveAll([], Wire(frames) + rest) == Before(Flatten(frames), ReceiveAll([], rest))
    decreases |frames|
  {
    hide Logical, WireBytes, ReceiveAll;
    if frames == [] {
      assert [] + rest == rest;
      assert [] + ReceiveAll([], rest).0 == ReceiveAll([], rest).0;
    } else {
      FramesAreDelivered(frames[1..], rest);
      FrameIsDelivered(frames[0], Wire(frames[1..]) + rest);
      assert WireBytes(frames[0]) + (Wire(frames[1..]) + rest) == Wire(frames) + rest;
      assert Logical(frames[0]).value + (Flatten(frames[1..]) + ReceiveAll([], rest).0) ==
             Flatten(frames) + ReceiveAll([], rest).0;
    }
  }

  /** A bulk frame without a record stops the receiver, after everything sent before it. */
  lemma EmptyBatchIsRefused(frames: seq<Message>, rest: Octets)
    requires AllLegal(frames)
    ensures ReceiveAll([], Wire(frames) + (WireBytes(Message(BULK_BATCH, [])) + rest)) == (Flatten(frames), EmptyBatch)
  {
    hide WireBytes, NextWire;
    var empty := Message(BULK_BATCH, []);
    FramesAreDelivered(frames, WireBytes(empty) + rest);
    NextWireInverse(WireBytes(empty) + rest, empty, rest);
    assert ReceiveAll([], WireBytes(empty) + rest) == ([], EmptyBatch);
    assert Flatten(frames) + [] == Flatten(frames);
  }

  /** More bytes behind a frame do not change it. */
  lemma NextExtends(pending: seq<Message>, incoming: Octets, more: Octets)
    requires Next(pending, incoming).Ok?
    ensures var (m, pending', incoming') := Next(pending, incoming).value;
            Next(pending, incoming + more) == Ok((m, pending', incoming' + more))
  {
    hide Logical, NextWire;
    if pending == [] {
      var (m, rest) := NextWire(incoming).value;
      NextWireInverse(incoming, m, rest);
      assert WireBytes(m) + rest + more == WireBytes(m) + (rest + more);
      NextWireInverse(incoming + more, m, rest + more);
    }
  }

  // ---------------------------------------------------------------- the socket

  /** A connected stream socket: everything the peer will still send, and everything sent to it. */
  class Socket {
    var incoming: Octets
    var sent: Octets

    constructor (incoming: Octets)
      ensures this.incoming == incoming && sent == []
    {
      this.incoming := incoming;
      sent := [];
    }

    method SendAll(data: Octets)
      modifies this`sent
      ensures sent == old(sent) + data
    {
      sent := sent + data;
    }

    /** Between one byte and all there is room for; nothing once the peer has closed. */
    method RecvInto(room: nat) returns (chunk: Octets)
      requires room > 0
      modifies this`incoming
      ensures |chunk| <= room && old(incoming) == chunk + incoming
      ensures chunk == [] <==> old(incoming) == []
    {
      var most := if room < |incoming| then room else |incoming|;
      var count: int := *;
      if count < 1 || count > most {
        count := most;
      }
      chunk := incoming[..count];
      incoming := incoming[count..];
    }
  }

  lemma ChunkTaken(all: Octets, start: nat, chunk: Octets, after: Octets)
    requires start <= |all| && all[start..] == chunk + after
    ensures start + |chunk| <= |all|
    ensures all[start..start + |chunk|] == chunk && all[start + |chunk|..] == after
    ensures all[..start + |chunk|] == all[..start] + chunk
  {
    assert all == all[..start] + (chunk + after);
  }

  /** Both sides read so: a buffer of the given size is filled from as many reads as it takes. */
  method ReceiveExact(socket: Socket, size: nat) returns (r: Result<Octets>)
    modifies socket`incoming
    ensures r == if |old(socket.incoming)| < size then Error(Missing(size, old(socket.incoming)))
                 else Ok(old(socket.incoming)[..size])
    ensures r.Ok? ==> socket.incoming == old(socket.incoming)[size..]
  {
    var chunks := new Byte[size];
    var received := 0;
    ghost var all := socket.incoming;
    while received < size
      invariant received <= size && received + |socket.incoming| == |all|
      invariant chunks[..received] == all[..received] && socket.incoming == all[received..]
    {
      var chunk := socket.RecvInto(size - received);
      if |chunk| == 0 {
        return Error(Disconnected(size - received));
      }
      forall i | 0 <= i < |chunk| {
        chunks[received + i] := chunk[i];
      }
      ChunkTaken(all, received, chunk, socket.incoming);
      assert chunks[..received + |chunk|] == chunks[..received] + chunk;
      received := received + |chunk|;
    }
    assert chunks[..size] == chunks[..];
    return Ok(chunks[..]);
  }

  class FramedSocket {
    const socket: Socket
    var pending: seq<Message>

    constructor (socket: Socket)
      ensures this.socket == socket && pending == []
    {
      this.socket := socket;
      pending := [];
    }

    method Send(kind: Kind, payload: Octets) returns (r: Result<()>)
      modifies socket`sent
      ensures r == if |payload| <= MAX_PAYLOAD then Ok(()) else Error(PayloadTooLarge)
      ensures socket.sent == old(socket.sent) + if r.Ok? then WireBytes(Message(kind, payload)) else []
    {
      if |payload| > MAX_PAYLOAD {
        return Error(PayloadTooLarge);
      }
      socket.SendAll(MAGIC + [VERSION, Code(kind)] + Be(0, 2) + Be(|payload|, 4) + payload);
      return Ok(());
    }

    method ReceiveWireFrame() returns (r: Result<Message>)
      modifies socket`incoming
      ensures match NextWire(old(socket.incoming))
              case Ok((m, rest)) => r == Ok(m) && socket.incoming == rest
              case Error(problem) => r == Error(problem)
    {
      hide FromBe, KindOf;
      var header :- ReceiveExact(socket, HEADER_SIZE);
      if header[..4] != MAGIC {
        return Error(InvalidMagic);
      }
      if header[4] != VERSION {
        return Error(UnsupportedVersion);
      }
      if FromBe(header[6..8]) != 0 {
        return Error(UnsupportedFlags);
      }
      var size := FromBe(header[8..]);
      if size > MAX_PAYLOAD {
        return Error(PayloadTooLarge);
      }
      var kind := KindOf(header[5]);
      if kind == None {
        return Error(UnknownKind);
      }
      var payload :- ReceiveExact(socket, size);
      return Ok(Message(kind.value, payload));
    }

    /** The messages still to come, and the problem they end with. */
    ghost function Upcoming(): (seq<Message>, Problem)
      reads this, socket
    {
      ReceiveAll(pending, socket.incoming)
    }

    /** The next message, the same one however the bytes arrive. */
    method Receive() returns (r: Result<Message>)
      modifies this`pending, socket`incoming
      ensures old(Upcoming()) == if r.Ok? then Before([r.value], Upcoming()) else ([], r.problem)
      ensures match Next(old(pending), old(socket.incoming))
              case Ok((m, rest, bytes)) => r == Ok(m) && pending == rest && socket.incoming == bytes
              case Error(problem) => r == Error(problem) && pending == []
    {
      hide ReceiveAll, NextWire;
      NextIsHead(pending, socket.incoming);
      if pending != [] {
        r := Ok(pending[0]);
        pending := pending[1..];
        return;
      }
      var frame :- ReceiveWireFrame();
      if frame.kind != BULK_BATCH {
        assert [frame][1..] == [];
        return Ok(frame);
      }
      var records :- DecodeBulkBatch(frame.payload);
      if records == [] {
        return Error(EmptyBatch);
      }
      pending := pending + records;
      assert pending == records;
      r := Ok(pending[0]);
      pending := pending[1..];
    }
  }
}
