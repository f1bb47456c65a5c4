/**
 * The Collector as a machine that takes one message at a time: which addresses it schedules, requests and
 * writes, and what it sends. A run can start from any messages at all, not only from an honest Agent's.
 */
module CollectorModel {
  import opened GraphTheory
  import opened HeapModel
  import opened Bytes
  import opened Protocol
  import opened Handshake
  import opened ObjectStream
  import opened CaptureModel
  import opened ArtifactEncoding
  import opened ArtifactRoundTrip
  import Artifact
  import HeapWriter

  datatype Config = Config(nonce: Octets, strReprLen: int, dumpAttributes: bool, batchSize: nat) {
    predicate Valid() {
      |nonce| == NONCE_SIZE && OptionFits(strReprLen) && batchSize >= 1
    }
  }

  /** In the object phase, `seen` are the messages of the expected object that have come so far. */
  datatype Phase =
    | AwaitHello
    | AwaitWellKnown
    | AwaitRoots
    | AwaitObject(seen: seq<Message>, expected: Address, remaining: seq<Address>)
    | AwaitBatchDone
    | AwaitComplete
    | Finished
    | Failed(problem: Problem)

  datatype Worklist = Worklist(scheduled: set<Address>, pending: seq<Address>)

  datatype CollectorState = CollectorState(
    phase: Phase, roots: seq<Address>, wellKnown: seq<Address>, work: Worklist, types: map<Address, Text>,
    written: seq<CapturedObject>, requests: seq<seq<Address>>, sent: seq<Message>)

  ghost function Initial(): CollectorState {
    CollectorState(AwaitHello, [], [], Worklist({}, []), map[], [], [], [])
  }

  ghost function Fail(c: CollectorState, problem: Problem): CollectorState {
    c.(phase := Failed(problem))
  }

  function ScheduleOne(w: Worklist, a: Address): Worklist {
    if a != 0 && a !in w.scheduled then Worklist(w.scheduled + {a}, w.pending + [a]) else w
  }

  /** Addresses not scheduled before are scheduled once; address 0 never. */
  function Schedule(w: Worklist, addresses: seq<Address>): Worklist
    decreases |addresses|
  {
    if addresses == [] then w
    else ScheduleOne(Schedule(w, addresses[..|addresses| - 1]), addresses[|addresses| - 1])
  }

  /** The last `n` pending addresses, last first. */
  function Popped(pending: seq<Address>, n: nat): seq<Address>
    requires n <= |pending|
  {
    if n == 0 then [] else [pending[|pending| - 1]] + Popped(pending[..|pending| - 1], n - 1)
  }

  ghost function NextRequest(cfg: Config, c: CollectorState): CollectorState
    requires cfg.Valid()
  {
    var pending := c.work.pending;
    if pending == [] then c.(sent := c.sent + [Message(FINISH, [])], phase := AwaitComplete)
    else
      var n := if cfg.batchSize < |pending| then cfg.batchSize else |pending|;
      var batch := Popped(pending, n);
      if ADDRESS_SIZE * n > MAX_PAYLOAD then Fail(c, PayloadTooLarge)
      else
        c.(work := Worklist(c.work.scheduled, pending[..|pending| - n]), sent := c.sent + [Request(batch)],
           requests := c.requests + [batch], phase := AwaitObject([], batch[0], batch[1..]))
  }

  /** What the content of an object refers to. */
  function ContentEdges(obj: CapturedObject): seq<Address> {
    if obj.contentKind == DICT then Flat(obj.dictContent) else obj.sequenceContent
  }

  /** An enumeration of a set, in whatever order. */
  ghost predicate Enumerates(order: seq<Address>, s: set<Address>) {
    Artifact.SetOf(order) == s
  }

  /** An object is written, its type entered, and everything it refers to scheduled. */
  ghost function AfterObject(c: CollectorState, obj: CapturedObject, order: seq<Address>, remaining: seq<Address>)
    : CollectorState
  {
    c.(work := Schedule(c.work, order + ContentEdges(obj) + [obj.typeAddress]),
       types := c.types[obj.typeAddress := obj.typeName], written := c.written + [obj],
       phase := if remaining == [] then AwaitBatchDone else AwaitObject([], remaining[0], remaining[1..]))
  }

  /** The type table starts with the well-known types; of equal addresses the last name stays. */
  function WellKnownTypes(addresses: seq<Address>): map<Address, Text>
    requires |addresses| == |WELL_KNOWN_TYPE_NAMES|
  {
    Artifact.MapOf(seq(|addresses|, i requires 0 <= i < |addresses| => (addresses[i], WELL_KNOWN_TYPE_NAMES[i])))
  }

  ghost predicate CanFinish(c: CollectorState) {
    |c.written| <= MAX_UINT32 && HeapWriter.FitsTypes(c.types)
  }

  ghost function OnSetup(cfg: Config, c: CollectorState, m: Message): CollectorState
    requires cfg.Valid() && (c.phase.AwaitHello? || c.phase.AwaitWellKnown?)
  {
    match c.phase
    case AwaitHello =>
      (match Expect(m, HELLO)
       case Error(problem) => Fail(c, problem)
       case Ok(payload) =>
         match AcceptHello(payload, cfg.nonce)
         case Error(problem) => Fail(c, problem)
         case Ok(_) =>
           c.(sent := c.sent + [Message(HELLO_ACK, EncodeOptions(cfg.strReprLen, cfg.dumpAttributes))],
              phase := AwaitWellKnown))
    case _ =>
      (match Expect(m, WELL_KNOWN)
       case Error(problem) => Fail(c, problem)
       case Ok(payload) =>
         match DecodeAddresses(payload)
         case Error(problem) => Fail(c, problem)
         case Ok(addresses) =>
           if |addresses| != |WELL_KNOWN_TYPE_NAMES| then Fail(c, InvalidPayload)
           else c.(wellKnown := addresses, phase := AwaitRoots))
  }

  ghost function OnRoots(cfg: Config, c: CollectorState, m: Message): CollectorState
    requires cfg.Valid() && |c.wellKnown| == |WELL_KNOWN_TYPE_NAMES|
  {
    if m.kind == ROOT_BATCH then
      match DecodeAddresses(m.payload)
      case Error(problem) => Fail(c, problem)
      case Ok(addresses) => c.(roots := c.roots + addresses, work := Schedule(c.work, addresses))
    else if m.kind == ROOTS_DONE then
      NextRequest(cfg, c.(work := Schedule(c.work, c.wellKnown), types := WellKnownTypes(c.wellKnown)))
    else Fail(c, UnexpectedIn(m))
  }

  /** One more message of the expected object. */
  ghost predicate ObjectStep(cfg: Config, c: CollectorState, m: Message, c': CollectorState)
    requires c.phase.AwaitObject?
  {
    var seen := c.phase.seen + [m];
    match ParseObject(seen, c.phase.expected, cfg.strReprLen)
    case Unfinished => c' == c.(phase := AwaitObject(seen, c.phase.expected, c.phase.remaining))
    case Broken(problem) => c' == Fail(c, problem)
    case Complete(obj, _) =>
      if !FitsObject(obj) then c' == Fail(c, WriterFailed)
      else exists order :: Enumerates(order, obj.referents) && c' == AfterObject(c, obj, order, c.phase.remaining)
  }

  ghost predicate Step(cfg: Config, c: CollectorState, m: Message, c': CollectorState)
    requires cfg.Valid()
  {
    match c.phase
    case AwaitHello => c' == OnSetup(cfg, c, m)
    case AwaitWellKnown => c' == OnSetup(cfg, c, m)
    case AwaitRoots => |c.wellKnown| == |WELL_KNOWN_TYPE_NAMES| && c' == OnRoots(cfg, c, m)
    case AwaitObject(_, _, _) => ObjectStep(cfg, c, m, c')
    case AwaitBatchDone =>
      (match Expect(m, BATCH_DONE)
       case Error(problem) => c' == Fail(c, problem)
       case Ok(_) => c' == NextRequest(cfg, c))
    case AwaitComplete =>
      (match Expect(m, COMPLETE)
       case Error(problem) => c' == Fail(c, problem)
       case Ok(_) => c' == if CanFinish(c) then c.(phase := Finished) else Fail(c, WriterFailed))
    case Finished => false
    case Failed(_) => false
  }

  /** `c` is a state the Collector can be in after these messages. */
  ghost predicate Runs(cfg: Config, messages: seq<Message>, c: CollectorState)
    requires cfg.Valid()
    decreases |messages|
  {
    if messages == [] then c == Initial()
    else exists before :: Runs(cfg, Earlier(messages), before) && Step(cfg, before, messages[|messages| - 1], c)
  }

  ghost function Earlier(messages: seq<Message>): seq<Message>
    requires messages != []
  {
    messages[..|messages| - 1]
  }

  // ---------------------------------------------------------------- what every run keeps

  ghost function NonZero(addresses: seq<Address>): set<Address> {
    set a | a in addresses && a != 0
  }

  /** What a written object refers to: referents, content and type, address 0 left out. */
  ghost function Targets(obj: CapturedObject): set<Address> {
    (set a | a in obj.referents && a != 0) + NonZero(ContentEdges(obj)) + NonZero([obj.typeAddress])
  }

  /** The graph of the objects written. */
  ghost function GraphOf(written: seq<CapturedObject>): Edges
    decreases |written|
  {
    if written == [] then map[]
    else GraphOf(written[..|written| - 1])[written[|written| - 1].address := Targets(written[|written| - 1])]
  }

  ghost function Addresses(written: seq<CapturedObject>): seq<Address> {
    seq(|written|, i requires 0 <= i < |written| => written[i].address)
  }

  ghost function InFlight(c: CollectorState): seq<Address> {
    if c.phase.AwaitObject? then [c.phase.expected] + c.phase.remaining else []
  }

  /** Roots received so far and, once they are complete, the well-known types. */
  ghost function StartOf(c: CollectorState): set<Address> {
    if c.phase.AwaitHello? || c.phase.AwaitWellKnown? || c.phase.AwaitRoots? then NonZero(c.roots)
    else NonZero(c.roots) + NonZero(c.wellKnown)
  }

  /** Every scheduled address is exactly once written, requested or pending. */
  ghost predicate Accounted(c: CollectorState) {
    Account(Addresses(c.written), InFlight(c), c.work.pending, c.work.scheduled)
  }

  ghost predicate Account(written: seq<Address>, inFlight: seq<Address>, pending: seq<Address>, scheduled: set<Address>) {
    multiset(written) + multiset(inFlight) + multiset(pending) == multiset(scheduled)
  }

  ghost predicate Balanced(w: Worklist, w': Worklist) {
    multiset(w'.pending) + multiset(w.scheduled) == multiset(w.pending) + multiset(w'.scheduled)
  }

  lemma AccountRequest(written: seq<Address>, pending: seq<Address>, scheduled: set<Address>, n: nat)
    requires n <= |pending| && Account(written, [], pending, scheduled)
    ensures Account(written, Popped(pending, n), pending[..|pending| - n], scheduled)
  {
    PoppedAll(pending, n);
  }

  lemma AccountSchedule(written: seq<Address>, inFlight: seq<Address>, w: Worklist, w': Worklist)
    requires Account(written, inFlight, w.pending, w.scheduled) && Balanced(w, w')
    ensures Account(written, inFlight, w'.pending, w'.scheduled)
  {
    var fixed, s, s', p, p' :=
      multiset(written) + multiset(inFlight), multiset(w.scheduled), multiset(w'.scheduled), multiset(w.pending),
      multiset(w'.pending);
    forall a ensures (fixed + p')[a] == s'[a] {
      assert (fixed + p)[a] == s[a] && (p' + s)[a] == (p + s')[a];
    }
  }

  lemma AccountWritten(written: seq<Address>, a: Address, remaining: seq<Address>, pending: seq<Address>,
                       scheduled: set<Address>)
    requires Account(written, [a] + remaining, pending, scheduled)
    ensures Account(written + [a], remaining, pending, scheduled)
    ensures a !in written && a in scheduled
  {
    assert multiset([a] + remaining) == multiset{a} + multiset(remaining);
    assert multiset(written + [a]) == multiset(written) + multiset{a};
    var all := multiset(written) + multiset([a] + remaining) + multiset(pending);
    assert all[a] == multiset(scheduled)[a] <= 1;
    assert a in written ==> multiset(written)[a] > 0;
  }

  /** With nothing requested and nothing pending, the written addresses are the scheduled ones, each once. */
  lemma AccountClosed(written: seq<Address>, scheduled: set<Address>)
    requires Account(written, [], [], scheduled)
    ensures Artifact.SetOf(written) == scheduled
    ensures forall i, j | 0 <= i < j < |written| :: written[i] != written[j]
  {
    assert multiset(written) == multiset(scheduled);
    forall a ensures a in written <==> a in scheduled {
      assert a in multiset(written) <==> a in multiset(scheduled);
    }
    forall i, j | 0 <= i < j < |written| ensures written[i] != written[j] {
      var front, back := written[..j], written[j..];
      assert written == front + back;
      assert multiset(written) == multiset(front) + multiset(back);
      assert front[i] in multiset(front) && back[0] in multiset(back);
      assert multiset(written)[written[i]] <= 1;
    }
  }

  ghost predicate Expanded(written: seq<CapturedObject>, scheduled: set<Address>) {
    forall i | 0 <= i < |written| :: Targets(written[i]) <= scheduled
  }

  /** What is scheduled is what is known to be reachable. */
  ghost predicate Reachable(c: CollectorState) {
    && StartOf(c) <= c.work.scheduled <= ReachFrom(GraphOf(c.written), StartOf(c))
    && Expanded(c.written, c.work.scheduled)
  }

  lemma ScheduleOneMore(w: Worklist, a: Address)
    ensures var w' := ScheduleOne(w, a);
            w'.scheduled == w.scheduled + NonZero([a]) && Balanced(w, w')
  {
    assert multiset(w.pending + [a]) == multiset(w.pending) + multiset{a};
    if a !in w.scheduled {
      assert multiset(w.scheduled + {a}) == multiset(w.scheduled) + multiset{a};
    }
  }

  lemma ScheduleNext(w: Worklist, addresses: seq<Address>, a: Address)
    ensures Schedule(w, []) == w
    ensures Schedule(w, addresses + [a]) == ScheduleOne(Schedule(w, addresses), a)
  {
    assert (addresses + [a])[..|addresses|] == addresses;
  }

  lemma {:induction false} ScheduleAll(w: Worklist, addresses: seq<Address>)
    ensures var w' := Schedule(w, addresses);
            w'.scheduled == w.scheduled + NonZero(addresses) && Balanced(w, w')
    decreases |addresses|
  {
    hide Schedule, ScheduleOne, Balanced;
    if addresses == [] {
      ScheduleNext(w, [], 0);
      NothingBalanced(w);
    } else {
      var before, a := addresses[..|addresses| - 1], addresses[|addresses| - 1];
      assert addresses == before + [a];
      ScheduleNext(w, before, a);
      ScheduleAll(w, before);
      ScheduleOneMore(Schedule(w, before), a);
      assert NonZero(addresses) == NonZero(before) + NonZero([a]);
      BalanceThen(w, Schedule(w, before), Schedule(w, addresses));
    }
  }

  lemma NothingBalanced(w: Worklist)
    ensures Balanced(w, w)
  {
  }

  lemma BalanceThen(w0: Worklist, w1: Worklist, w2: Worklist)
    requires Balanced(w0, w1) && Balanced(w1, w2)
    ensures Balanced(w0, w2)
  {
    var p0, p1, p2 := multiset(w0.pending), multiset(w1.pending), multiset(w2.pending);
    var s0, s1, s2 := multiset(w0.scheduled), multiset(w1.scheduled), multiset(w2.scheduled);
    forall a ensures (p2 + s0)[a] == (p0 + s2)[a] {
      assert (p1 + s0)[a] == (p0 + s1)[a] && (p2 + s1)[a] == (p1 + s2)[a];
    }
  }

  lemma {:induction false} ScheduleMore(w: Worklist, a: seq<Address>, b: seq<Address>)
    ensures Schedule(w, a + b) == Schedule(Schedule(w, a), b)
    decreases |b|
  {
    if b == [] {
      assert a + b == a;
    } else {
      assert (a + b)[..|a + b| - 1] == a + b[..|b| - 1];
      ScheduleMore(w, a, b[..|b| - 1]);
    }
  }

  lemma PoppedNext(pending: seq<Address>, n: nat)
    requires n <= |pending|
    ensures Popped(pending, n) ==
            if n == 0 then [] else [pending[|pending| - 1]] + Popped(pending[..|pending| - 1], n - 1)
  {
  }

  lemma {:induction false} PoppedAll(pending: seq<Address>, n: nat)
    requires n <= |pending|
    ensures |Popped(pending, n)| == n
    ensures multiset(Popped(pending, n)) + multiset(pending[..|pending| - n]) == multiset(pending)
  {
    hide Popped;
    PoppedNext(pending, n);
    if n == 0 {
      assert pending[..|pending|] == pending;
      assert multiset(Popped(pending, 0)) == multiset{};
    } else {
      var last, rest := pending[|pending| - 1], pending[..|pending| - 1];
      var front := pending[..|pending| - n];
      assert rest[..|rest| - (n - 1)] == front;
      PoppedAll(rest, n - 1);
      PopOne(Popped(rest, n - 1), front, rest, last);
      assert pending == rest + [last];
    }
  }

  /** The last pending address comes first. */
  lemma {:induction false} PoppedAt(pending: seq<Address>, n: nat, i: nat)
    requires i < n <= |pending|
    ensures |Popped(pending, n)| == n && Popped(pending, n)[i] == pending[|pending| - 1 - i]
    decreases n
  {
    if i > 0 {
      PoppedAt(pending[..|pending| - 1], n - 1, i - 1);
    } else {
      PoppedAll(pending, n);
    }
  }

  lemma {:induction false} SeenChangeNothing(w: Worklist, addresses: seq<Address>)
    requires forall i | 0 <= i < |addresses| :: addresses[i] == 0 || addresses[i] in w.scheduled
    ensures Schedule(w, addresses) == w
    decreases |addresses|
  {
    if addresses != [] {
      SeenChangeNothing(w, addresses[..|addresses| - 1]);
    }
  }

  /** None is 0, scheduled, or there twice. */
  ghost predicate AllNew(w: Worklist, addresses: seq<Address>) {
    && (forall i | 0 <= i < |addresses| :: addresses[i] != 0 && addresses[i] !in w.scheduled)
    && forall i, j | 0 <= i < j < |addresses| :: addresses[i] != addresses[j]
  }

  /** New addresses are appended in their order. */
  lemma {:induction false} NewOnesInOrder(w: Worklist, addresses: seq<Address>)
    requires AllNew(w, addresses)
    ensures Schedule(w, addresses) == Worklist(w.scheduled + Artifact.SetOf(addresses), w.pending + addresses)
    decreases |addresses|
  {
    hide Schedule;
    ScheduleNext(w, [], 0);
    if addresses != [] {
      var before, a := addresses[..|addresses| - 1], addresses[|addresses| - 1];
      assert addresses == before + [a];
      NewOnesInOrder(w, before);
      ScheduleNext(w, before, a);
      assert a !in before;
      assert w.pending + before + [a] == w.pending + (before + [a]);
      assert w.scheduled + Artifact.SetOf(before) + {a} == w.scheduled + Artifact.SetOf(addresses);
    } else {
      assert Artifact.SetOf(addresses) == {} && w.pending + addresses == w.pending;
    }
  }

  /** A request asks for the last pending addresses, last first, as many as there are or a batch may have. */
  lemma RequestSpelt(cfg: Config, c: CollectorState)
    requires cfg.Valid() && c.work.pending != [] && 8 * cfg.batchSize <= 1048576
    ensures var c', pending := NextRequest(cfg, c), c.work.pending;
            && |c'.requests| == |c.requests| + 1 && c.requests <= c'.requests && c'.phase.AwaitObject?
            && var batch := c'.requests[|c.requests|];
               && (|batch| == cfg.batchSize <= |pending| || |batch| == |pending| < cfg.batchSize)
               && (forall i | 0 <= i < |batch| :: batch[i] == pending[|pending| - 1 - i])
               && c'.work == Worklist(c.work.scheduled, pending[..|pending| - |batch|])
               && c'.sent == c.sent + [Message(REQUEST_OBJECTS, EncodeAddresses(batch))]
               && c'.phase == AwaitObject([], batch[0], batch[1..])
  {
    hide Popped, EncodeAddresses;
    var pending := c.work.pending;
    var n := if cfg.batchSize < |pending| then cfg.batchSize else |pending|;
    PoppedAll(pending, n);
    forall i | 0 <= i < n ensures Popped(pending, n)[i] == pending[|pending| - 1 - i] {
      PoppedAt(pending, n, i);
    }
  }

  lemma PopOne(popped: seq<Address>, front: seq<Address>, rest: seq<Address>, last: Address)
    requires multiset(popped) + multiset(front) == multiset(rest)
    ensures multiset([last] + popped) + multiset(front) == multiset(rest + [last])
  {
    assert multiset([last] + popped) == multiset{last} + multiset(popped);
    assert multiset(rest + [last]) == multiset(rest) + multiset{last};
  }

  // ---------------------------------------------------------------- the invariant

  /** Address lists in the well-known order, fitting 64 bits; a type for every written object. */
  ghost predicate Typed(c: CollectorState) {
    && (c.phase.AwaitHello? || c.phase.AwaitWellKnown? || |c.wellKnown| == |WELL_KNOWN_TYPE_NAMES|)
    && (forall i | 0 <= i < |c.written| :: FitsObject(c.written[i]) && c.written[i].typeAddress in c.types)
    && (c.phase.AwaitHello? || c.phase.AwaitWellKnown? || c.phase.AwaitRoots? ==> c.written == [])
    && AllWide(c.wellKnown) && (forall a | a in c.types :: ArtifactEncoding.Wide(a))
  }

  ghost predicate Inv(c: CollectorState) {
    || c.phase.Failed?
    || (Accounted(c) && Reachable(c) && 0 !in c.work.scheduled
        && (c.phase.AwaitComplete? || c.phase.Finished? ==> c.work.pending == []))
  }

  lemma StartMore(e: Edges, start: set<Address>, scheduled: set<Address>, extra: set<Address>)
    requires start <= scheduled <= ReachFrom(e, start)
    ensures start + extra <= scheduled + extra <= ReachFrom(e, start + extra)
  {
    hide ReachFrom;
    ReachMonotone(e, start, start + extra);
    ReachClosed(e, start + extra);
  }

  lemma ReachExtends(e: Edges, start: set<Address>, a: Address, targets: set<Address>)
    requires a !in e && a in ReachFrom(e, start)
    ensures ReachFrom(e, start) + targets <= ReachFrom(e[a := targets], start)
  {
    var e' := e[a := targets];
    var r := ReachFrom(e', start);
    ReachClosed(e', start);
    assert ClosedUnderRefs(e, r) by {
      forall x | x in r && x in e ensures e[x] <= r {
        assert e'[x] == e[x];
      }
    }
    ReachLeast(e, start, r);
    assert a in e' && e'[a] == targets;
  }

  lemma {:induction false} GraphKeys(written: seq<CapturedObject>)
    ensures GraphOf(written).Keys == Artifact.SetOf(Addresses(written))
    decreases |written|
  {
    if written != [] {
      var before, o := written[..|written| - 1], written[|written| - 1];
      GraphKeys(before);
      assert Addresses(written) == Addresses(before) + [o.address];
    }
  }

  lemma GraphNext(written: seq<CapturedObject>, obj: CapturedObject)
    ensures GraphOf(written + [obj]) == GraphOf(written)[obj.address := Targets(obj)]
    ensures Addresses(written + [obj]) == Addresses(written) + [obj.address]
  {
    hide Targets;
    assert (written + [obj])[..|written|] == written;
  }

  lemma BeginNamesObject(m: Message, expected: Address)
    requires BeginObject(m, expected).Ok?
    ensures BeginObject(m, expected).value.address == expected
  {
    hide DecodeObjectBegin;
  }

  lemma {:induction false} RecordsKeepAddress(obj: CapturedObject, messages: seq<Message>, strReprLen: int)
    ensures var p := ParseRecords(obj, messages, strReprLen); p.Complete? ==> p.obj.address == obj.address
    decreases |messages|
  {
    hide DecodeAddresses, DecodeDictEntries;
    if messages != [] {
      var r := OnRecord(obj, messages[0], strReprLen);
      if r.Ok? && r.value.More? {
        RecordsKeepAddress(r.value.obj, messages[1..], strReprLen);
      }
    }
  }

  lemma ObjectIsExpected(messages: seq<Message>, expected: Address, strReprLen: int)
    ensures var p := ParseObject(messages, expected, strReprLen); p.Complete? ==> p.obj.address == expected
  {
    hide BeginObject, ParseRecords;
    if messages != [] && BeginObject(messages[0], expected).Ok? {
      BeginNamesObject(messages[0], expected);
      RecordsKeepAddress(BeginObject(messages[0], expected).value, messages[1..], strReprLen);
    }
  }

  /** Moving pending addresses into a request keeps the account. */
  lemma RequestKeepsInv(cfg: Config, c: CollectorState)
    requires cfg.Valid() && !c.phase.Failed? && InFlight(c) == [] && Accounted(c) && 0 !in c.work.scheduled
    requires NonZero(c.roots) + NonZero(c.wellKnown) <= c.work.scheduled
    requires c.work.scheduled <= ReachFrom(GraphOf(c.written), NonZero(c.roots) + NonZero(c.wellKnown))
    requires Expanded(c.written, c.work.scheduled)
    ensures Inv(NextRequest(cfg, c))
  {
    hide ReachFrom, GraphOf, NonZero, Expanded, Popped, Request, Addresses, Account;
    var pending := c.work.pending;
    if pending != [] {
      var n := if cfg.batchSize < |pending| then cfg.batchSize else |pending|;
      AccountRequest(Addresses(c.written), pending, c.work.scheduled, n);
      PoppedAll(pending, n);
      var batch := Popped(pending, n);
      assert batch == [batch[0]] + batch[1..];
    }
  }

  lemma RootsKeepInv(c: CollectorState, addresses: seq<Address>)
    requires c.phase.AwaitRoots? && Inv(c)
    ensures Inv(c.(roots := c.roots + addresses, work := Schedule(c.work, addresses)))
  {
    hide ReachFrom, GraphOf, Account, Schedule, Balanced, Addresses, Targets;
    ScheduleAll(c.work, addresses);
    AccountSchedule(Addresses(c.written), [], c.work, Schedule(c.work, addresses));
    assert NonZero(c.roots + addresses) == NonZero(c.roots) + NonZero(addresses);
    StartMore(GraphOf(c.written), NonZero(c.roots), c.work.scheduled, NonZero(addresses));
  }

  lemma RootsDoneKeepsInv(cfg: Config, c: CollectorState)
    requires cfg.Valid() && c.phase.AwaitRoots? && Inv(c) && |c.wellKnown| == |WELL_KNOWN_TYPE_NAMES|
    ensures Inv(NextRequest(cfg, c.(work := Schedule(c.work, c.wellKnown), types := WellKnownTypes(c.wellKnown))))
  {
    hide ReachFrom, GraphOf, Account, Schedule, Balanced, Addresses, Targets, NextRequest, WellKnownTypes;
    ScheduleAll(c.work, c.wellKnown);
    AccountSchedule(Addresses(c.written), [], c.work, Schedule(c.work, c.wellKnown));
    StartMore(GraphOf(c.written), NonZero(c.roots), c.work.scheduled, NonZero(c.wellKnown));
    RequestKeepsInv(cfg, c.(work := Schedule(c.work, c.wellKnown), types := WellKnownTypes(c.wellKnown)));
  }

  lemma EdgesAreTargets(obj: CapturedObject, order: seq<Address>)
    requires Enumerates(order, obj.referents)
    ensures NonZero(order + ContentEdges(obj) + [obj.typeAddress]) == Targets(obj)
  {
    hide ContentEdges;
    forall a | a in order ensures a in obj.referents {
      assert a in Artifact.SetOf(order);
    }
    forall a | a in obj.referents ensures a in order {
      assert a in Artifact.SetOf(order);
    }
  }

  lemma WrittenKeepsInv(c: CollectorState, obj: CapturedObject, order: seq<Address>)
    requires c.phase.AwaitObject? && Inv(c) && obj.address == c.phase.expected && Enumerates(order, obj.referents)
    ensures Inv(AfterObject(c, obj, order, c.phase.remaining))
  {
    hide ReachFrom, GraphOf, Account, Schedule, Balanced, Addresses, Targets, NonZero, ContentEdges;
    var remaining, start := c.phase.remaining, StartOf(c);
    var edges := order + ContentEdges(obj) + [obj.typeAddress];
    var c' := AfterObject(c, obj, order, remaining);
    EdgesAreTargets(obj, order);
    ScheduleAll(c.work, edges);
    AccountWritten(Addresses(c.written), obj.address, remaining, c.work.pending, c.work.scheduled);
    AccountSchedule(Addresses(c.written) + [obj.address], remaining, c.work, c'.work);
    GraphNext(c.written, obj);
    assert InFlight(c') == remaining;
    GraphKeys(c.written);
    assert obj.address !in GraphOf(c.written) by {
      NotInSet(Addresses(c.written), obj.address);
    }
    ReachExtends(GraphOf(c.written), start, obj.address, Targets(obj));
    assert Expanded(c'.written, c'.work.scheduled);
    TargetsNonZero(obj);
  }

  lemma NotInSet(s: seq<Address>, a: Address)
    requires a !in s
    ensures a !in Artifact.SetOf(s)
  {
  }

  lemma TargetsNonZero(obj: CapturedObject)
    ensures 0 !in Targets(obj)
  {
  }

  lemma StepKeepsInv(cfg: Config, c: CollectorState, m: Message, c': CollectorState)
    requires cfg.Valid() && Inv(c) && Step(cfg, c, m, c')
    ensures Inv(c')
  {
    hide Accounted, Reachable, ReachFrom, Schedule, NextRequest, AfterObject, FitsObject, ParseObject, WellKnownTypes,
         AcceptHello, DecodeAddresses, EncodeOptions, CanFinish, Enumerates;
    match c.phase
    case AwaitHello => SetupKeepsInv(cfg, c, m);
    case AwaitWellKnown => SetupKeepsInv(cfg, c, m);
    case AwaitRoots =>
      if m.kind == ROOT_BATCH {
        if DecodeAddresses(m.payload).Ok? {
          RootsKeepInv(c, DecodeAddresses(m.payload).value);
        }
      } else if m.kind == ROOTS_DONE {
        RootsDoneKeepsInv(cfg, c);
      }
    case AwaitObject(seen, expected, remaining) =>
      var p := ParseObject(seen + [m], expected, cfg.strReprLen);
      ObjectIsExpected(seen + [m], expected, cfg.strReprLen);
      if p.Complete? && FitsObject(p.obj) {
        var order :| Enumerates(order, p.obj.referents) && c' == AfterObject(c, p.obj, order, remaining);
        WrittenKeepsInv(c, p.obj, order);
      } else if p.Unfinished? {
        SeenKeepsInv(c, c', seen + [m]);
      }
    case AwaitBatchDone =>
      if m.kind == BATCH_DONE {
        BatchDoneKeepsInv(cfg, c);
      }
    case AwaitComplete =>
      if m.kind == COMPLETE && CanFinish(c) {
        CompleteKeepsInv(c);
      }
  }

  lemma SetupKeepsInv(cfg: Config, c: CollectorState, m: Message)
    requires cfg.Valid() && Inv(c) && (c.phase.AwaitHello? || c.phase.AwaitWellKnown?)
    ensures Inv(OnSetup(cfg, c, m))
  {
    hide ReachFrom, GraphOf, Account, Addresses, AcceptHello, DecodeAddresses, EncodeOptions;
  }

  lemma SeenKeepsInv(c: CollectorState, c': CollectorState, seen: seq<Message>)
    requires c.phase.AwaitObject? && Inv(c)
    requires c' == c.(phase := AwaitObject(seen, c.phase.expected, c.phase.remaining))
    ensures Inv(c')
  {
    hide ReachFrom, GraphOf, Account, Addresses;
  }

  lemma BatchDoneKeepsInv(cfg: Config, c: CollectorState)
    requires cfg.Valid() && Inv(c) && c.phase.AwaitBatchDone?
    ensures Inv(NextRequest(cfg, c))
  {
    hide ReachFrom, GraphOf, Account, Addresses, NextRequest;
    RequestKeepsInv(cfg, c);
  }

  lemma CompleteKeepsInv(c: CollectorState)
    requires Inv(c) && c.phase.AwaitComplete?
    ensures Inv(c.(phase := Finished))
  {
    hide ReachFrom, GraphOf, Account, Addresses;
  }

  lemma InitialInv()
    ensures Inv(Initial())
  {
    hide ReachFrom;
    ReachClosed(GraphOf([]), {});
  }

  lemma {:induction false} RunsKeepInv(cfg: Config, messages: seq<Message>, c: CollectorState)
    requires cfg.Valid() && Runs(cfg, messages, c)
    ensures Inv(c)
    decreases |messages|
  {
    hide Inv, Step;
    if messages == [] {
      InitialInv();
    } else {
      var before :| Runs(cfg, Earlier(messages), before) && Step(cfg, before, messages[|messages| - 1], c);
      RunsKeepInv(cfg, Earlier(messages), before);
      StepKeepsInv(cfg, before, messages[|messages| - 1], c);
    }
  }

  /**
   * Whatever the peer sends: when a capture finishes, the objects written are exactly those at the addresses
   * reachable from the roots and the well-known types, through referents, content and types; each once.
   */
  lemma CaptureIsReachable(cfg: Config, messages: seq<Message>, c: CollectorState)
    requires cfg.Valid() && Runs(cfg, messages, c) && c.phase.Finished?
    ensures WrittenIsReachable(c)
  {
    hide Runs, WrittenIsReachable, Inv;
    RunsKeepInv(cfg, messages, c);
    FinishedIsReachable(c);
  }

  /** Written once each, exactly what is reachable, so that nothing written refers to what is not; never address 0. */
  ghost predicate WrittenIsReachable(c: CollectorState) {
    && (forall i, j | 0 <= i < j < |c.written| :: c.written[i].address != c.written[j].address)
    && Artifact.SetOf(Addresses(c.written)) == ReachFrom(GraphOf(c.written), NonZero(c.roots) + NonZero(c.wellKnown))
    && (forall i | 0 <= i < |c.written| :: Targets(c.written[i]) <= Artifact.SetOf(Addresses(c.written)))
    && 0 !in Artifact.SetOf(Addresses(c.written))
  }

  lemma FinishedIsReachable(c: CollectorState)
    requires Inv(c) && c.phase.Finished?
    ensures WrittenIsReachable(c)
  {
    hide ReachFrom, GraphOf, Account, Targets, NonZero;
    var all, e, start := Addresses(c.written), GraphOf(c.written), StartOf(c);
    AccountClosed(all, c.work.scheduled);
    forall i, j | 0 <= i < j < |c.written| ensures c.written[i].address != c.written[j].address {
      assert all[i] != all[j];
    }
    ScheduledIsClosed(c.written, c.work.scheduled);
    ReachLeast(e, start, c.work.scheduled);
  }

  lemma {:induction false} ScheduledIsClosed(written: seq<CapturedObject>, scheduled: set<Address>)
    requires Expanded(written, scheduled)
    ensures forall a | a in GraphOf(written) :: GraphOf(written)[a] <= scheduled
    decreases |written|
  {
    hide Targets;
    if written != [] {
      var before := written[..|written| - 1];
      forall i | 0 <= i < |before| ensures Targets(before[i]) <= scheduled {
        assert before[i] == written[i];
      }
      ScheduledIsClosed(before, scheduled);
    }
  }

  // ---------------------------------------------------------------- what is sent

  function AllOf(requests: seq<seq<Address>>): seq<Address>
    decreases |requests|
  {
    if requests == [] then [] else AllOf(requests[..|requests| - 1]) + requests[|requests| - 1]
  }

  lemma AllOfNext(requests: seq<seq<Address>>, batch: seq<Address>)
    ensures AllOf(requests + [batch]) == AllOf(requests) + batch
  {
    assert (requests + [batch])[..|requests|] == requests;
  }

  ghost function Ack(cfg: Config): Message
    requires cfg.Valid()
  {
    Message(HELLO_ACK, EncodeOptions(cfg.strReprLen, cfg.dumpAttributes))
  }

  /** All that a Collector in this phase has sent. */
  ghost function Said(cfg: Config, c: CollectorState): seq<Message>
    requires cfg.Valid()
  {
    if c.phase.AwaitHello? then []
    else
      [Ack(cfg)] + Requests(c.requests) +
      if c.phase.AwaitComplete? || c.phase.Finished? then [Message(FINISH, [])] else []
  }

  /** Requests ask, in order, for exactly the objects written and the rest of the current batch. */
  ghost predicate Talks(cfg: Config, c: CollectorState)
    requires cfg.Valid()
  {
    || c.phase.Failed?
    || (c.sent == Said(cfg, c) && AllOf(c.requests) == Addresses(c.written) + InFlight(c)
        && (c.phase.AwaitHello? || c.phase.AwaitWellKnown? ==> c.requests == [])
        && Sized(cfg, c.requests))
  }

  ghost predicate Sized(cfg: Config, requests: seq<seq<Address>>) {
    forall i | 0 <= i < |requests| :: 1 <= |requests[i]| <= cfg.batchSize
  }

  lemma RequestTalks(cfg: Config, c: CollectorState)
    requires cfg.Valid() && !c.phase.Failed? && !c.phase.AwaitHello? && !c.phase.AwaitComplete? && !c.phase.Finished?
    requires InFlight(c) == [] && Talks(cfg, c)
    ensures Talks(cfg, NextRequest(cfg, c))
  {
    hide Popped, Addresses, AllOf, Requests, Ack, Said, NextRequest;
    NextRequestSays(cfg, c);
    var pending, c' := c.work.pending, NextRequest(cfg, c);
    if pending != [] {
      var n := if cfg.batchSize < |pending| then cfg.batchSize else |pending|;
      PoppedAll(pending, n);
      AllOfNext(c.requests, Popped(pending, n));
      assert Addresses(c.written) + [] + InFlight(c') == Addresses(c.written) + InFlight(c');
    }
  }

  lemma NextRequestSays(cfg: Config, c: CollectorState)
    requires cfg.Valid() && !c.phase.Failed? && !c.phase.AwaitHello? && !c.phase.AwaitComplete? && !c.phase.Finished?
    requires c.sent == Said(cfg, c)
    ensures var c' := NextRequest(cfg, c);
            var n := if cfg.batchSize < |c.work.pending| then cfg.batchSize else |c.work.pending|;
            && c'.written == c.written
            && (!c'.phase.Failed? ==> c'.sent == Said(cfg, c') && (c'.phase.AwaitComplete? || c'.phase.AwaitObject?))
            && (c.work.pending == [] ==> c'.requests == c.requests && InFlight(c') == [])
            && (c.work.pending != [] && !c'.phase.Failed? ==>
                  var batch := Popped(c.work.pending, n);
                  InFlight(c') == batch && c'.requests == c.requests + [batch])
  {
    hide Popped, Request, Requests, Ack;
    var pending := c.work.pending;
    if pending != [] {
      var n := if cfg.batchSize < |pending| then cfg.batchSize else |pending|;
      PoppedAll(pending, n);
      var batch := Popped(pending, n);
      assert batch == [batch[0]] + batch[1..];
      RequestsNext(c.requests, batch);
      assert [Ack(cfg)] + Requests(c.requests) + [] + [Request(batch)] ==
             [Ack(cfg)] + (Requests(c.requests) + [Request(batch)]) + [];
    }
  }

  lemma WrittenTalks(cfg: Config, c: CollectorState, obj: CapturedObject, order: seq<Address>)
    requires cfg.Valid() && c.phase.AwaitObject? && Talks(cfg, c) && obj.address == c.phase.expected
    ensures Talks(cfg, AfterObject(c, obj, order, c.phase.remaining))
  {
    hide Addresses, AllOf, Requests, Ack, AfterObject, Said, Sized, GraphOf, Targets;
    var c' := AfterObject(c, obj, order, c.phase.remaining);
    AfterObjectSays(cfg, c, obj, order);
    GraphNext(c.written, obj);
    assert Addresses(c.written) + ([obj.address] + c.phase.remaining) ==
           Addresses(c.written) + [obj.address] + c.phase.remaining;
  }

  lemma AfterObjectSays(cfg: Config, c: CollectorState, obj: CapturedObject, order: seq<Address>)
    requires cfg.Valid() && c.phase.AwaitObject?
    ensures var c' := AfterObject(c, obj, order, c.phase.remaining);
            && Said(cfg, c') == Said(cfg, c) && InFlight(c') == c.phase.remaining && c'.requests == c.requests
            && c'.sent == c.sent && c'.written == c.written + [obj] && (c'.phase.AwaitObject? || c'.phase.AwaitBatchDone?)
  {
    hide Requests, Ack, Schedule;
  }

  lemma SetupTalks(cfg: Config, c: CollectorState, m: Message)
    requires cfg.Valid() && Talks(cfg, c) && (c.phase.AwaitHello? || c.phase.AwaitWellKnown?)
    ensures Talks(cfg, OnSetup(cfg, c, m))
  {
    hide AcceptHello, DecodeAddresses, EncodeOptions;
  }

  lemma StepTalks(cfg: Config, c: CollectorState, m: Message, c': CollectorState)
    requires cfg.Valid() && Talks(cfg, c) && Step(cfg, c, m, c')
    ensures Talks(cfg, c')
  {
    hide Schedule, NextRequest, AfterObject, FitsObject, ParseObject, WellKnownTypes, OnSetup, DecodeAddresses, CanFinish,
         Enumerates, AllOf, Requests, Ack, Addresses;
    match c.phase
    case AwaitHello => SetupTalks(cfg, c, m);
    case AwaitWellKnown => SetupTalks(cfg, c, m);
    case AwaitRoots =>
      if m.kind == ROOTS_DONE {
        RequestTalks(cfg, c.(work := Schedule(c.work, c.wellKnown), types := WellKnownTypes(c.wellKnown)));
      }
    case AwaitObject(seen, expected, remaining) =>
      var p := ParseObject(seen + [m], expected, cfg.strReprLen);
      ObjectIsExpected(seen + [m], expected, cfg.strReprLen);
      if p.Complete? && FitsObject(p.obj) {
        var order :| Enumerates(order, p.obj.referents) && c' == AfterObject(c, p.obj, order, remaining);
        WrittenTalks(cfg, c, p.obj, order);
      }
    case AwaitBatchDone =>
      if m.kind == BATCH_DONE {
        RequestTalks(cfg, c);
      }
    case AwaitComplete =>
  }

  lemma {:induction false} RunsTalk(cfg: Config, messages: seq<Message>, c: CollectorState)
    requires cfg.Valid() && Runs(cfg, messages, c)
    ensures Talks(cfg, c)
    decreases |messages|
  {
    hide Step;
    if messages != [] {
      hide Talks;
      var before :| Runs(cfg, Earlier(messages), before) && Step(cfg, before, messages[|messages| - 1], c);
      RunsTalk(cfg, Earlier(messages), before);
      StepTalks(cfg, before, messages[|messages| - 1], c);
    }
  }

  /** A finished capture has sent the acknowledgement, requests for exactly the written objects, and the finish. */
  lemma RequestsAreExact(cfg: Config, messages: seq<Message>, c: CollectorState)
    requires cfg.Valid() && Runs(cfg, messages, c) && c.phase.Finished?
    ensures AllOf(c.requests) == Addresses(c.written)
    ensures c.sent == [Ack(cfg)] + Requests(c.requests) + [Message(FINISH, [])]
    ensures forall i | 0 <= i < |c.requests| :: 1 <= |c.requests[i]| <= cfg.batchSize
  {
    RunsTalk(cfg, messages, c);
  }

  // ---------------------------------------------------------------- what is written fits the artifact

  /** Each well-known address is entered under its name; of equal addresses the last name stays. */
  lemma TypesByPosition(addresses: seq<Address>)
    requires |addresses| == |WELL_KNOWN_TYPE_NAMES|
    ensures forall a :: a in WellKnownTypes(addresses) <==> a in addresses
    ensures forall i | 0 <= i < |addresses| && addresses[i] !in addresses[i + 1..] ::
              addresses[i] in WellKnownTypes(addresses) &&
              WellKnownTypes(addresses)[addresses[i]] == WELL_KNOWN_TYPE_NAMES[i]
  {
    hide Artifact.MapOf, Artifact.Ascii;
    var pairs := seq(|addresses|, i requires 0 <= i < |addresses| => (addresses[i], WELL_KNOWN_TYPE_NAMES[i]));
    forall i | 0 <= i < |addresses| && addresses[i] !in addresses[i + 1..]
      ensures addresses[i] in WellKnownTypes(addresses)
      ensures WellKnownTypes(addresses)[addresses[i]] == WELL_KNOWN_TYPE_NAMES[i]
    {
      forall j | i < j < |pairs| ensures pairs[j].0 != pairs[i].0 {
        assert addresses[i + 1..][j - i - 1] == addresses[j];
      }
      Artifact.LastEntryStays(pairs, i);
    }
    forall a ensures a in WellKnownTypes(addresses) <==> a in addresses {
      if a in addresses {
        var i := LastPlace(addresses, a);
      }
      if a in WellKnownTypes(addresses) {
        var i := Artifact.KeyHasEntry(pairs, a);
        assert addresses[i] == a;
      }
    }
  }

  lemma {:induction false} LastPlace(addresses: seq<Address>, a: Address) returns (i: nat)
    requires a in addresses
    ensures i < |addresses| && addresses[i] == a && a !in addresses[i + 1..]
  {
    if a in addresses[1..] {
      i := LastPlace(addresses[1..], a);
      assert addresses[i + 2..] == addresses[1..][i + 1..];
      i := i + 1;
    } else {
      i := 0;
    }
  }

  lemma WellKnownTyped(addresses: seq<Address>)
    requires |addresses| == |WELL_KNOWN_TYPE_NAMES| && AllWide(addresses)
    ensures forall a | a in WellKnownTypes(addresses) :: ArtifactEncoding.Wide(a)
  {
    hide WellKnownTypes;
    TypesByPosition(addresses);
  }

  lemma StepTyped(cfg: Config, c: CollectorState, m: Message, c': CollectorState)
    requires cfg.Valid() && (c.phase.Failed? || Typed(c)) && Step(cfg, c, m, c')
    ensures c'.phase.Failed? || Typed(c')
  {
    hide Schedule, FitsObject, ParseObject, WellKnownTypes, AcceptHello, CanFinish, Enumerates, Popped, EncodeOptions,
         DecodeAddresses;
    match c.phase
    case AwaitHello =>
    case AwaitWellKnown =>
      if m.kind == WELL_KNOWN && DecodeAddresses(m.payload).Ok? {
        AddressesInverse(DecodeAddresses(m.payload).value, m.payload);
      }
    case AwaitRoots =>
      WellKnownTyped(c.wellKnown);
    case AwaitObject(seen, expected, remaining) =>
      var p := ParseObject(seen + [m], expected, cfg.strReprLen);
      if p.Complete? && FitsObject(p.obj) {
        var order :| Enumerates(order, p.obj.referents) && c' == AfterObject(c, p.obj, order, remaining);
        FitsTypeAddress(p.obj);
      }
    case AwaitBatchDone =>
    case AwaitComplete =>
  }

  lemma FitsTypeAddress(obj: CapturedObject)
    requires FitsObject(obj)
    ensures ArtifactEncoding.Wide(obj.typeAddress)
  {
  }

  // ---------------------------------------------------------------- longer runs

  lemma RunsMore(cfg: Config, messages: seq<Message>, c: CollectorState, m: Message, c': CollectorState)
    requires cfg.Valid() && Runs(cfg, messages, c) && Step(cfg, c, m, c')
    ensures Runs(cfg, messages + [m], c')
  {
    hide Step;
    assert Earlier(messages + [m]) == messages;
  }

  lemma {:induction false} RecordsExtend(obj: CapturedObject, a: seq<Message>, b: seq<Message>, strReprLen: int)
    ensures var p := ParseRecords(obj, a, strReprLen);
            && (p.Broken? ==> ParseRecords(obj, a + b, strReprLen) == p)
            && (p.Complete? ==> ParseRecords(obj, a + b, strReprLen) == Complete(p.obj, p.rest + b))
    decreases |a|
  {
    hide OnRecord;
    if a != [] {
      assert (a + b)[1..] == a[1..] + b;
      var r := OnRecord(obj, a[0], strReprLen);
      if r.Ok? && r.value.More? {
        RecordsExtend(r.value.obj, a[1..], b, strReprLen);
      }
    }
  }

  /** What is settled by some messages stays settled when more follow. */
  lemma ParseExtends(a: seq<Message>, b: seq<Message>, expected: Address, strReprLen: int)
    ensures var p := ParseObject(a, expected, strReprLen);
            && (p.Broken? ==> ParseObject(a + b, expected, strReprLen) == p)
            && (p.Complete? ==> ParseObject(a + b, expected, strReprLen) == Complete(p.obj, p.rest + b))
  {
    hide BeginObject, ParseRecords;
    if a != [] {
      assert (a + b)[1..] == a[1..] + b;
      if BeginObject(a[0], expected).Ok? {
        RecordsExtend(BeginObject(a[0], expected).value, a[1..], b, strReprLen);
      }
    }
  }

  /** Nothing is settled before the last message of an object. */
  lemma EarlierUnfinished(taken: seq<Message>, k: nat, expected: Address, strReprLen: int)
    requires k < |taken|
    requires var p := ParseObject(taken, expected, strReprLen); p == Unfinished || (p.Complete? && p.rest == [])
    ensures ParseObject(taken[..k], expected, strReprLen) == Unfinished
  {
    hide ParseObject;
    ParseExtends(taken[..k], taken[k..], expected, strReprLen);
    assert taken[..k] + taken[k..] == taken;
  }

  /** The state in which `seen` of the expected object has come. */
  ghost function Waiting(c: CollectorState, seen: seq<Message>): CollectorState
    requires c.phase.AwaitObject?
  {
    c.(phase := AwaitObject(seen, c.phase.expected, c.phase.remaining))
  }

  lemma {:induction false} RunsWaiting(cfg: Config, messages: seq<Message>, c: CollectorState, taken: seq<Message>, k: nat)
    requires cfg.Valid() && Runs(cfg, messages, c) && c.phase.AwaitObject? && c.phase.seen == [] && k <= |taken|
    requires forall j | 0 < j <= k :: ParseObject(taken[..j], c.phase.expected, cfg.strReprLen) == Unfinished
    ensures Runs(cfg, messages + taken[..k], Waiting(c, taken[..k]))
    decreases k
  {
    hide ParseObject, Runs;
    if k == 0 {
      assert messages + taken[..0] == messages;
    } else {
      RunsWaiting(cfg, messages, c, taken, k - 1);
      var before := Waiting(c, taken[..k - 1]);
      assert taken[..k] == taken[..k - 1] + [taken[k - 1]];
      assert ParseObject(taken[..k], c.phase.expected, cfg.strReprLen) == Unfinished;
      assert Step(cfg, before, taken[k - 1], Waiting(c, taken[..k]));
      RunsMore(cfg, messages + taken[..k - 1], before, taken[k - 1], Waiting(c, taken[..k]));
      assert messages + taken[..k - 1] + [taken[k - 1]] == messages + taken[..k];
    }
  }

  lemma LastOfObject(cfg: Config, messages: seq<Message>, c: CollectorState, taken: seq<Message>, c': CollectorState)
    requires cfg.Valid() && Runs(cfg, messages, c) && c.phase.AwaitObject? && c.phase.seen == [] && taken != []
    requires forall j | 0 < j < |taken| :: ParseObject(taken[..j], c.phase.expected, cfg.strReprLen) == Unfinished
    requires ObjectStep(cfg, Waiting(c, Earlier(taken)), taken[|taken| - 1], c')
    ensures Runs(cfg, messages + taken, c')
  {
    hide ParseObject, Runs, ObjectStep;
    RunsWaiting(cfg, messages, c, taken, |taken| - 1);
    var before, m := Waiting(c, Earlier(taken)), taken[|taken| - 1];
    assert messages + Earlier(taken) + [m] == messages + taken;
    RunsMore(cfg, messages + Earlier(taken), before, m, c');
  }

  lemma LastMessage(taken: seq<Message>)
    requires taken != []
    ensures Earlier(taken) + [taken[|taken| - 1]] == taken
  {
  }

  /** A whole object takes the machine past it. */
  lemma RunsObject(cfg: Config, messages: seq<Message>, c: CollectorState, taken: seq<Message>, obj: CapturedObject,
                   order: seq<Address>)
    requires cfg.Valid() && Runs(cfg, messages, c) && c.phase.AwaitObject? && c.phase.seen == []
    requires ParseObject(taken, c.phase.expected, cfg.strReprLen) == Complete(obj, [])
    requires FitsObject(obj) && Enumerates(order, obj.referents)
    ensures Runs(cfg, messages + taken, AfterObject(c, obj, order, c.phase.remaining))
  {
    ObjectNeedsMessages(taken, c.phase.expected, cfg.strReprLen);
    hide ParseObject, Runs, AfterObject, FitsObject, Enumerates;
    forall j | 0 < j < |taken| ensures ParseObject(taken[..j], c.phase.expected, cfg.strReprLen) == Unfinished {
      EarlierUnfinished(taken, j, c.phase.expected, cfg.strReprLen);
    }
    LastMessage(taken);
    SameAfter(c, Earlier(taken), obj, order);
    LastOfObject(cfg, messages, c, taken, AfterObject(c, obj, order, c.phase.remaining));
  }

  lemma SameAfter(c: CollectorState, seen: seq<Message>, obj: CapturedObject, order: seq<Address>)
    requires c.phase.AwaitObject?
    ensures AfterObject(Waiting(c, seen), obj, order, c.phase.remaining) == AfterObject(c, obj, order, c.phase.remaining)
  {
    hide Schedule;
  }

  lemma ObjectNeedsMessages(taken: seq<Message>, expected: Address, strReprLen: int)
    requires ParseObject(taken, expected, strReprLen) != Unfinished
    ensures taken != []
  {
  }

  /** An object that breaks off or cannot be written ends the run there. */
  lemma RunsObjectFails(cfg: Config, messages: seq<Message>, c: CollectorState, taken: seq<Message>, problem: Problem)
    requires cfg.Valid() && Runs(cfg, messages, c) && c.phase.AwaitObject? && c.phase.seen == []
    requires var p := ParseObject(taken, c.phase.expected, cfg.strReprLen);
             || (p == Broken(problem) && taken != [] &&
                 ParseObject(Earlier(taken), c.phase.expected, cfg.strReprLen) == Unfinished)
             || (p.Complete? && p.rest == [] && !FitsObject(p.obj) && problem == WriterFailed)
    ensures Runs(cfg, messages + taken, Fail(c, problem))
  {
    ObjectNeedsMessages(taken, c.phase.expected, cfg.strReprLen);
    hide ParseObject, Runs, AfterObject, FitsObject, Enumerates;
    forall j | 0 < j < |taken| ensures ParseObject(taken[..j], c.phase.expected, cfg.strReprLen) == Unfinished {
      if ParseObject(taken, c.phase.expected, cfg.strReprLen).Complete? {
        EarlierUnfinished(taken, j, c.phase.expected, cfg.strReprLen);
      } else if j < |Earlier(taken)| {
        EarlierUnfinished(Earlier(taken), j, c.phase.expected, cfg.strReprLen);
        assert Earlier(taken)[..j] == taken[..j];
      }
    }
    LastMessage(taken);
    var c' := Fail(Waiting(c, Earlier(taken)), problem);
    LastOfObject(cfg, messages, c, taken, c');
  }

  lemma {:induction false} RunsTyped(cfg: Config, messages: seq<Message>, c: CollectorState)
    requires cfg.Valid() && Runs(cfg, messages, c)
    ensures c.phase.Failed? || Typed(c)
    decreases |messages|
  {
    hide Step;
    if messages != [] {
      hide Typed;
      var before :| Runs(cfg, Earlier(messages), before) && Step(cfg, before, messages[|messages| - 1], c);
      RunsTyped(cfg, Earlier(messages), before);
      StepTyped(cfg, before, messages[|messages| - 1], c);
    }
  }

  /** The name entered for a type is that of the last object of the type, or else the one it is well known by. */
  ghost predicate Named(c: CollectorState) {
    if c.phase.AwaitHello? || c.phase.AwaitWellKnown? || c.phase.AwaitRoots? then c.types == map[] && c.written == []
    else
      |c.wellKnown| == |WELL_KNOWN_TYPE_NAMES| && TypesNamed(WellKnownTypes(c.wellKnown), c.written, c.types)
  }

  ghost predicate TypesNamed(wellKnown: map<Address, Text>, written: seq<CapturedObject>, types: map<Address, Text>) {
    && (forall t | t in wellKnown :: t in types)
    && (forall t | t in types :: (exists i: nat :: LastOfType(written, i, t)) || (t in wellKnown && types[t] == wellKnown[t]))
    && forall t, i: nat | LastOfType(written, i, t) :: t in types && types[t] == written[i].typeName
  }

  ghost predicate LastOfType(written: seq<CapturedObject>, i: nat, t: Address) {
    i < |written| && written[i].typeAddress == t && forall j | i < j < |written| :: written[j].typeAddress != t
  }

  lemma TypesNamedNext(wellKnown: map<Address, Text>, written: seq<CapturedObject>, types: map<Address, Text>,
                       obj: CapturedObject)
    requires TypesNamed(wellKnown, written, types)
    ensures TypesNamed(wellKnown, written + [obj], types[obj.typeAddress := obj.typeName])
  {
    var all, types' := written + [obj], types[obj.typeAddress := obj.typeName];
    assert LastOfType(all, |written|, obj.typeAddress);
    forall t, i: nat | t != obj.typeAddress
      ensures LastOfType(all, i, t) <==> LastOfType(written, i, t)
    {
      assert forall j | 0 <= j < |written| :: all[j] == written[j];
      assert i < |written| ==> all[i] == written[i];
    }
    forall t, i: nat | LastOfType(all, i, t) ensures t in types' && types'[t] == all[i].typeName {
      if t == obj.typeAddress {
        assert i == |written|;
      } else {
        assert LastOfType(written, i, t);
      }
    }
    forall t | t in types'
      ensures (exists i: nat :: LastOfType(all, i, t)) || (t in wellKnown && types'[t] == wellKnown[t])
    {
      if t != obj.typeAddress && exists i: nat :: LastOfType(written, i, t) {
        var i: nat :| LastOfType(written, i, t);
        assert LastOfType(all, i, t);
      }
    }
  }

  lemma RequestKeepsNames(cfg: Config, c: CollectorState)
    requires cfg.Valid() && |c.wellKnown| == |WELL_KNOWN_TYPE_NAMES|
    requires TypesNamed(WellKnownTypes(c.wellKnown), c.written, c.types)
    ensures var c' := NextRequest(cfg, c); c'.phase.Failed? || Named(c')
  {
    hide Popped, Request, TypesNamed, WellKnownTypes;
  }

  lemma StepNames(cfg: Config, c: CollectorState, m: Message, c': CollectorState)
    requires cfg.Valid() && (c.phase.Failed? || Named(c)) && Step(cfg, c, m, c')
    ensures c'.phase.Failed? || Named(c')
  {
    hide Schedule, FitsObject, ParseObject, WellKnownTypes, AcceptHello, CanFinish, Enumerates, Popped, EncodeOptions,
         DecodeAddresses, TypesNamed, NextRequest;
    match c.phase
    case AwaitHello =>
    case AwaitWellKnown =>
    case AwaitRoots =>
      var types := WellKnownTypes(c.wellKnown);
      NoneNamed(types);
      RequestKeepsNames(cfg, c.(work := Schedule(c.work, c.wellKnown), types := types));
    case AwaitObject(seen, expected, remaining) =>
      var p := ParseObject(seen + [m], expected, cfg.strReprLen);
      if p.Complete? && FitsObject(p.obj) {
        var order :| Enumerates(order, p.obj.referents) && c' == AfterObject(c, p.obj, order, remaining);
        TypesNamedNext(WellKnownTypes(c.wellKnown), c.written, c.types, p.obj);
      }
    case AwaitBatchDone =>
      RequestKeepsNames(cfg, c);
    case AwaitComplete =>
  }

  lemma NoneNamed(types: map<Address, Text>)
    ensures TypesNamed(types, [], types)
  {
  }

  lemma {:induction false} RunsNamed(cfg: Config, messages: seq<Message>, c: CollectorState)
    requires cfg.Valid() && Runs(cfg, messages, c)
    ensures c.phase.Failed? || Named(c)
    decreases |messages|
  {
    hide Step;
    if messages != [] {
      hide Named;
      var before :| Runs(cfg, Earlier(messages), before) && Step(cfg, before, messages[|messages| - 1], c);
      RunsNamed(cfg, Earlier(messages), before);
      StepNames(cfg, before, messages[|messages| - 1], c);
    }
  }

  lemma FinishingStep(cfg: Config, before: CollectorState, m: Message, c: CollectorState)
    requires cfg.Valid() && Step(cfg, before, m, c) && c.phase.Finished?
    ensures CanFinish(before) && c == before.(phase := Finished)
  {
    hide Schedule, FitsObject, ParseObject, WellKnownTypes, DecodeAddresses, Popped, AcceptHello, EncodeOptions,
         ContentEdges, Enumerates, CanFinish;
  }

  lemma RunsCanFinish(cfg: Config, messages: seq<Message>, c: CollectorState)
    requires cfg.Valid() && Runs(cfg, messages, c) && c.phase.Finished?
    ensures CanFinish(c)
  {
    hide Step;
    if messages != [] {
      var before :| Runs(cfg, Earlier(messages), before) && Step(cfg, before, messages[|messages| - 1], c);
      FinishingStep(cfg, before, messages[|messages| - 1], c);
    }
  }
}
