/** The PyHeap v1 artifact format, as the collector writes it, and what a reader makes of it. */
module ArtifactEncoding {
  import opened GraphTheory
  import opened HeapModel
  import opened Bytes
  import opened Parsing
  import opened Artifact
  import opened CaptureModel
  import opened ReadBack

  const MAX_UINT32 := 0xFFFF_FFFF
  const MAX_SHORT := 0x7FFF
  const U64 := 0x1_0000_0000_0000_0000

  lemma {:induction false} LeastBelow(s: set<nat>, y: nat) returns (m: nat)
    requires y in s
    ensures m in s && forall x | x in s :: m <= x
    decreases y
  {
    if x :| x in s && x < y {
      m := LeastBelow(s, x);
    } else {
      m := y;
    }
  }

  ghost predicate Least(s: set<nat>, m: nat) {
    m in s && forall x | x in s :: m <= x
  }

  lemma LeastExists(s: set<nat>)
    requires s != {}
    ensures exists m :: Least(s, m)
  {
    var y :| y in s;
    var m := LeastBelow(s, y);
    assert Least(s, m);
  }

  /** The ascending sequence of a set. */
  ghost function Ascending(s: set<nat>): seq<nat> {
    if s == {} then []
    else
      LeastExists(s);
      var m :| Least(s, m);
      [m] + Ascending(s - {m})
  }

  lemma {:induction false} AscendingHolds(s: set<nat>)
    ensures |Ascending(s)| == |s| && SetOf(Ascending(s)) == s
  {
    if s != {} {
      LeastExists(s);
      var m :| Least(s, m) && Ascending(s) == [m] + Ascending(s - {m});
      AscendingHolds(s - {m});
      assert s == s - {m} + {m};
    }
  }

  /** 64-bit addresses. */
  ghost predicate Wide(a: nat) {
    a < U64
  }

  ghost predicate AllWide(s: seq<Address>) {
    forall i | 0 <= i < |s| :: Wide(s[i])
  }

  // ---------------------------------------------------------------- threads

  ghost function NamedAddress(p: (Text, Address)): Octets {
    TextBytes(p.0) + Be(p.1, 8)
  }

  ghost function NamedAddresses(pairs: seq<(Text, Address)>): seq<Octets> {
    seq(|pairs|, i requires 0 <= i < |pairs| => NamedAddress(pairs[i]))
  }

  ghost function CutNames(pairs: seq<(Text, Address)>): seq<(Text, Address)> {
    seq(|pairs|, i requires 0 <= i < |pairs| => (Cut(pairs[i].0, MAX_TEXT), pairs[i].1))
  }

  ghost predicate FitsNames(pairs: seq<(Text, Address)>) {
    |pairs| <= MAX_UINT32 && forall i | 0 <= i < |pairs| :: Wide(pairs[i].1)
  }

  ghost predicate FitsFrame(f: CapturedFrame) {
    0 <= f.lineNumber <= MAX_UINT32 && FitsNames(f.locals)
  }

  ghost function FrameBytes(f: CapturedFrame): Octets
    requires FitsFrame(f)
  {
    TextBytes(f.fileName) + (Be(f.lineNumber, 4) + (TextBytes(f.function_) + CountedBytes(NamedAddresses(f.locals))))
  }

  ghost function FrameRead(f: CapturedFrame): Frame
    requires FitsFrame(f)
  {
    Frame(Cut(f.fileName, MAX_TEXT), f.lineNumber, Cut(f.function_, MAX_TEXT), MapOf(CutNames(f.locals)))
  }

  ghost predicate FitsThread(t: CapturedThread) {
    |t.frames| <= MAX_UINT32 && forall i | 0 <= i < |t.frames| :: FitsFrame(t.frames[i])
  }

  function BoolByte(b: bool): Octets {
    [if b then 1 else 0]
  }

  ghost function FramesBytes(frames: seq<CapturedFrame>): seq<Octets>
    requires forall i | 0 <= i < |frames| :: FitsFrame(frames[i])
  {
    seq(|frames|, i requires 0 <= i < |frames| => FrameBytes(frames[i]))
  }

  ghost function ThreadBytes(t: CapturedThread): Octets
    requires FitsThread(t)
  {
    TextBytes(t.name) + (BoolByte(t.isAlive) + (BoolByte(t.isDaemon) + CountedBytes(FramesBytes(t.frames))))
  }

  ghost function FramesRead(frames: seq<CapturedFrame>): seq<Frame>
    requires forall i | 0 <= i < |frames| :: FitsFrame(frames[i])
  {
    seq(|frames|, i requires 0 <= i < |frames| => FrameRead(frames[i]))
  }

  ghost function ThreadRead(t: CapturedThread): Thread
    requires FitsThread(t)
  {
    Thread(Cut(t.name, MAX_TEXT), t.isAlive, t.isDaemon,
           FramesRead(t.frames))
  }

  lemma CutIs(t: Text, n: nat)
    ensures CutTo(t, n, Cut(t, n)) && forall r | CutTo(t, n, r) :: r == Cut(t, n)
  {
  }

  lemma FrameReadAs(f: CapturedFrame)
    requires FitsFrame(f)
    ensures FrameAsWritten(f, FrameRead(f))
  {
    hide Cut, CutTo;
    var pairs, r := CutNames(f.locals), FrameRead(f);
    CutIs(f.fileName, MAX_TEXT);
    CutIs(f.function_, MAX_TEXT);
    forall n | n in r.locals ensures exists k :: 0 <= k < |f.locals| && CutTo(f.locals[k].0, 65535, n) {
      var k := KeyHasEntry(pairs, n);
      CutIs(f.locals[k].0, MAX_TEXT);
    }
    forall k, n | 0 <= k < |pairs| && CutTo(f.locals[k].0, 65535, n)
      ensures n in r.locals
      ensures (forall j | k < j < |f.locals| :: !CutTo(f.locals[j].0, 65535, n)) ==> r.locals[n] == f.locals[k].1
    {
      CutIs(f.locals[k].0, MAX_TEXT);
      var last := LastNamed(pairs, k);
      LastEntryStays(pairs, last);
      CutIs(f.locals[last].0, MAX_TEXT);
    }
  }

  /** The last entry with the key of the entry at `k`. */
  lemma {:induction false} LastNamed<K, V>(pairs: seq<(K, V)>, k: nat) returns (last: nat)
    requires k < |pairs|
    ensures k <= last < |pairs| && pairs[last].0 == pairs[k].0
    ensures forall j | last < j < |pairs| :: pairs[j].0 != pairs[last].0
    decreases |pairs| - k
  {
    if j :| k < j < |pairs| && pairs[j].0 == pairs[k].0 {
      last := LastNamed(pairs, j);
    } else {
      last := k;
    }
  }

  lemma ThreadReadAs(t: CapturedThread)
    requires FitsThread(t)
    ensures ThreadAsWritten(t, ThreadRead(t))
  {
    hide FrameAsWritten, FrameRead;
    CutIs(t.name, MAX_TEXT);
    forall i | 0 <= i < |t.frames| ensures FrameAsWritten(t.frames[i], ThreadRead(t).stackTrace[i]) {
      FrameReadAs(t.frames[i]);
    }
  }

  lemma NamesAt(s: Octets, pairs: seq<(Text, Address)>)
    requires FitsNames(pairs)
    ensures ReadsEach(ReadTextAddress, s, NamedAddresses(pairs), CutNames(pairs))
  {
    hide TextBytes, ReadText;
    var parts := NamedAddresses(pairs);
    forall i, o: nat | 0 <= i < |parts| && At(s, o, parts[i])
      ensures ReadTextAddress(s, o) == Ok(CutNames(pairs)[i], o + |parts[i]|)
    {
      AtSplit(s, o, TextBytes(pairs[i].0), Be(pairs[i].1, 8));
      ReadTextAt(pairs[i].0, s, o);
      Powers();
      ReadBeAt(8, pairs[i].1, s, o + |TextBytes(pairs[i].0)|);
    }
  }

  lemma FrameAt(f: CapturedFrame, s: Octets, o: nat)
    requires FitsFrame(f) && At(s, o, FrameBytes(f))
    ensures ReadFrame(s, o) == Ok(FrameRead(f), o + |FrameBytes(f)|)
  {
    hide TextBytes, ReadText, CountedBytes, Counted, NamedAddresses, MapOf;
    var name, line, func, locals :=
      TextBytes(f.fileName), Be(f.lineNumber, 4), TextBytes(f.function_), CountedBytes(NamedAddresses(f.locals));
    AtSplit(s, o, name, line + (func + locals));
    AtSplit(s, o + |name|, line, func + locals);
    AtSplit(s, o + |name| + 4, func, locals);
    ReadTextAt(f.fileName, s, o);
    Powers();
    ReadBeAt(4, f.lineNumber, s, o + |name|);
    ReadTextAt(f.function_, s, o + |name| + 4);
    NamesAt(s, f.locals);
    NamesLength(f.locals);
    CountedAt(ReadTextAddress, s, o + |name| + 4 + |func|, NamedAddresses(f.locals), CutNames(f.locals));
  }

  lemma NamesLength(pairs: seq<(Text, Address)>)
    ensures |NamedAddresses(pairs)| == |pairs|
  {
  }

  lemma FramesAt(frames: seq<CapturedFrame>, s: Octets, o: nat)
    requires |frames| <= MAX_UINT32 && forall i | 0 <= i < |frames| :: FitsFrame(frames[i])
    requires At(s, o, CountedBytes(FramesBytes(frames)))
    ensures Counted(ReadFrame, s, o) == Ok(FramesRead(frames), o + |CountedBytes(FramesBytes(frames))|)
  {
    hide CountedBytes, Counted, FrameBytes, ReadFrame, FrameRead;
    var parts, values := FramesBytes(frames), FramesRead(frames);
    forall i, o': nat | 0 <= i < |parts| && At(s, o', parts[i])
      ensures ReadFrame(s, o') == Ok(values[i], o' + |parts[i]|)
    {
      FrameAt(frames[i], s, o');
    }
    CountedAt(ReadFrame, s, o, parts, values);
  }

  lemma ThreadParsed(t: CapturedThread, s: Octets, o: nat)
    requires FitsThread(t) && At(s, o, ThreadBytes(t))
    ensures ReadThread(s, o) == Ok(ThreadRead(t), o + |ThreadBytes(t)|)
  {
    hide TextBytes, ReadText, CountedBytes, Counted, FramesBytes, ReadFrame, FramesRead, ReadBool;
    var name, alive, daemon, frames :=
      TextBytes(t.name), BoolByte(t.isAlive), BoolByte(t.isDaemon), CountedBytes(FramesBytes(t.frames));
    AtSplit(s, o, name, alive + (daemon + frames));
    AtSplit(s, o + |name|, alive, daemon + frames);
    AtSplit(s, o + |name| + 1, daemon, frames);
    ReadTextAt(t.name, s, o);
    BoolAt(t.isAlive, s, o + |name|);
    BoolAt(t.isDaemon, s, o + |name| + 1);
    FramesAt(t.frames, s, o + |name| + 2);
  }

  /** A thread reads back as it was written, wherever it stands. */
  lemma ThreadAt(t: CapturedThread, s: Octets, o: nat)
    requires FitsThread(t) && At(s, o, ThreadBytes(t))
    ensures var r := ReadThread(s, o);
            r.Ok? && r.next == o + |ThreadBytes(t)| && ThreadAsWritten(t, r.value)
  {
    hide ThreadBytes, ReadThread, ThreadAsWritten, ThreadRead, At, FitsThread;
    ThreadParsed(t, s, o);
    ThreadReadAs(t);
  }

  lemma BoolAt(b: bool, s: Octets, o: nat)
    requires At(s, o, BoolByte(b))
    ensures ReadBool(s, o) == Ok(b, o + 1)
  {
    assert FromBe(BoolByte(b)) == if b then 1 else 0 by {
      assert BoolByte(b)[..0] == [];
    }
  }

  ghost predicate FitsThreads(threads: seq<CapturedThread>) {
    |threads| <= MAX_UINT32 && forall i | 0 <= i < |threads| :: FitsThread(threads[i])
  }

  ghost function ThreadParts(threads: seq<CapturedThread>): seq<Octets>
    requires FitsThreads(threads)
  {
    seq(|threads|, i requires 0 <= i < |threads| => ThreadBytes(threads[i]))
  }

  ghost function ThreadsRead(threads: seq<CapturedThread>): seq<Thread>
    requires FitsThreads(threads)
  {
    seq(|threads|, i requires 0 <= i < |threads| => ThreadRead(threads[i]))
  }

  lemma ThreadsAt(threads: seq<CapturedThread>, s: Octets, o: nat)
    requires FitsThreads(threads) && At(s, o, CountedBytes(ThreadParts(threads)))
    ensures Counted(ReadThread, s, o) == Ok(ThreadsRead(threads), o + |CountedBytes(ThreadParts(threads))|)
  {
    hide ThreadBytes, ThreadRead, ReadThread, Counted, CountedBytes;
    var parts, values := ThreadParts(threads), ThreadsRead(threads);
    forall i, o': nat | 0 <= i < |parts| && At(s, o', parts[i])
      ensures ReadThread(s, o') == Ok(values[i], o' + |parts[i]|)
    {
      ThreadParsed(threads[i], s, o');
    }
    CountedAt(ReadThread, s, o, parts, values);
  }

  // ---------------------------------------------------------------- objects

  function Clamp(size: int): nat {
    if size < 0 then 0 else if size > MAX_UINT32 then MAX_UINT32 else size
  }

  ghost function AddressParts(addresses: seq<Address>): seq<Octets> {
    seq(|addresses|, i requires 0 <= i < |addresses| => Be(addresses[i], 8))
  }

  ghost function EntryParts(entries: seq<(Address, Address)>): seq<Octets> {
    seq(|entries|, i requires 0 <= i < |entries| => Be(entries[i].0, 8) + Be(entries[i].1, 8))
  }

  function ShortBytes(t: Text): Octets {
    Be(|Cut(t, MAX_SHORT)|, 2) + Cut(t, MAX_SHORT)
  }

  ghost function AttributeParts(attributes: seq<(Text, Address)>): seq<Octets> {
    seq(|attributes|, i requires 0 <= i < |attributes| => ShortBytes(attributes[i].0) + Be(attributes[i].1, 8))
  }

  /** The addresses an object's content names. */
  ghost function ContentAddresses(obj: CapturedObject): set<Address> {
    match obj.contentKind
    case DICT => EntryAddresses(obj.dictContent)
    case NONE => {}
    case _ => SetOf(obj.sequenceContent)
  }

  ghost function ContentBytes(obj: CapturedObject): Octets {
    match obj.contentKind
    case DICT => CountedBytes(EntryParts(obj.dictContent))
    case NONE => []
    case _ => CountedBytes(AddressParts(obj.sequenceContent))
  }

  /** Referents that the content does not name, ascending. */
  ghost function Remaining(obj: CapturedObject): seq<Address> {
    Ascending(obj.referents - ContentAddresses(obj))
  }

  ghost function StringBytes(obj: CapturedObject, c: Context): Octets
    requires c.Valid()
  {
    if c.withStrRepr && !IsContainer(obj.typeAddress, c.known) then TextBytes(obj.strRepr) else []
  }

  ghost function TailBytes(obj: CapturedObject, c: Context): Octets
    requires c.Valid()
  {
    CountedBytes(AddressParts(Remaining(obj))) + (CountedBytes(AttributeParts(obj.attributes)) + StringBytes(obj, c))
  }

  ghost function ObjectBytes(obj: CapturedObject, c: Context): Octets
    requires c.Valid()
  {
    Be(obj.address, 8) + (Be(obj.typeAddress, 8) + (Be(Clamp(obj.shallowSize), 4) +
      (ContentBytes(obj) + TailBytes(obj, c))))
  }

  ghost predicate FitsEntries(entries: seq<(Address, Address)>) {
    |entries| <= MAX_UINT32 && forall i | 0 <= i < |entries| :: Wide(entries[i].0) && Wide(entries[i].1)
  }

  ghost predicate FitsAddresses(addresses: seq<Address>) {
    |addresses| <= MAX_UINT32 && AllWide(addresses)
  }

  ghost predicate FitsContent(obj: CapturedObject) {
    match obj.contentKind
    case DICT => FitsEntries(obj.dictContent)
    case NONE => true
    case _ => FitsAddresses(obj.sequenceContent)
  }

  /** Everything of the object that is written fits its field. */
  ghost predicate FitsObject(obj: CapturedObject) {
    && Wide(obj.address) && Wide(obj.typeAddress)
    && FitsContent(obj) && FitsAddresses(Remaining(obj)) && FitsNames(obj.attributes)
  }

  /** The kind of content a reader expects of a type; where types share an address, the first of these. */
  function KindOfType(typeAddress: Address, known: map<Text, Address>): ContentKind
    requires HasContainers(known)
  {
    if typeAddress == known[Artifact.DICT] then ContentKind.DICT
    else if typeAddress == known[Artifact.TUPLE] then ContentKind.TUPLE
    else if typeAddress == known[Artifact.SET] then ContentKind.SET
    else if typeAddress == known[Artifact.LIST] then ContentKind.LIST
    else NONE
  }

  /** The kind of content written is the kind a reader expects of that type. */
  ghost predicate KindAgrees(obj: CapturedObject, known: map<Text, Address>)
    requires HasContainers(known)
  {
    obj.contentKind == KindOfType(obj.typeAddress, known)
  }

  ghost function ContentRead(obj: CapturedObject): Content {
    match obj.contentKind
    case DICT => DictContent(MapOf(obj.dictContent))
    case LIST => ListContent(obj.sequenceContent)
    case TUPLE => TupleContent(obj.sequenceContent)
    case SET => SetContent(SetOf(obj.sequenceContent))
    case NONE => NoContent
  }

  /** What a reader makes of an object written at offset `o`. */
  ghost function ObjectRead(obj: CapturedObject, c: Context, o: nat): HeapObject
    requires c.Valid()
  {
    HeapObject(
      obj.address, obj.typeAddress, Clamp(obj.shallowSize), obj.referents + ContentAddresses(obj), ContentRead(obj),
      if c.withStrRepr && !IsContainer(obj.typeAddress, c.known)
      then Some(o + |ObjectBytes(obj, c)| - |TextBytes(obj.strRepr)|) else None)
  }

  lemma EntriesReadAs(entries: seq<(Address, Address)>)
    ensures EntriesAsWritten(entries, MapOf(entries))
  {
    hide MapOf;
    forall k | k in MapOf(entries) ensures exists i :: 0 <= i < |entries| && entries[i].0 == k {
      var i := KeyHasEntry(entries, k);
    }
    forall i | 0 <= i < |entries|
      ensures entries[i].0 in MapOf(entries)
      ensures (forall j | i < j < |entries| :: entries[j].0 != entries[i].0) ==>
                MapOf(entries)[entries[i].0] == entries[i].1
    {
      var last := LastNamed(entries, i);
      LastEntryStays(entries, last);
    }
  }

  lemma MentionsAre(obj: CapturedObject, a: Address)
    ensures a in ContentAddresses(obj) <==> Mentions(obj.contentKind, obj.sequenceContent, obj.dictContent, a)
  {
    var entries := obj.dictContent;
    if i :| 0 <= i < |entries| && (entries[i].0 == a || entries[i].1 == a) {
      assert entries[i] in entries;
    }
  }

  lemma ObjectReadAs(obj: CapturedObject, c: Context, o: nat)
    requires c.Valid()
    ensures ObjectAsWritten(obj, ObjectRead(obj, c, o))
  {
    hide MapOf, EntriesAsWritten, ContentAddresses, Mentions, ObjectBytes, TextBytes, IsContainer;
    EntriesReadAs(obj.dictContent);
    forall a
      ensures a in ContentAddresses(obj) <==> Mentions(obj.contentKind, obj.sequenceContent, obj.dictContent, a)
    {
      MentionsAre(obj, a);
    }
  }

  /** The collector leaves both compression tables empty. */
  ghost predicate Plain(c: Context) {
    c.Valid() && c.frequent == [] && c.common == {}
  }

  lemma AddressesAt(addresses: seq<Address>, s: Octets, o: nat)
    requires FitsAddresses(addresses) && At(s, o, CountedBytes(AddressParts(addresses)))
    ensures Counted(ReadU64, s, o) == Ok(addresses, o + |CountedBytes(AddressParts(addresses))|)
  {
    hide Counted, CountedBytes;
    var parts := AddressParts(addresses);
    forall i, o': nat | 0 <= i < |parts| && At(s, o', parts[i])
      ensures ReadU64(s, o') == Ok(addresses[i], o' + |parts[i]|)
    {
      Powers();
      assert Wide(addresses[i]);
      ReadBeAt(8, addresses[i], s, o');
    }
    CountedAt(ReadU64, s, o, parts, addresses);
  }

  lemma EntriesAt(entries: seq<(Address, Address)>, s: Octets, o: nat)
    requires FitsEntries(entries) && At(s, o, CountedBytes(EntryParts(entries)))
    ensures Counted(ReadAddressPair, s, o) == Ok(entries, o + |CountedBytes(EntryParts(entries))|)
  {
    hide Counted, CountedBytes;
    var parts := EntryParts(entries);
    forall i, o': nat | 0 <= i < |parts| && At(s, o', parts[i])
      ensures ReadAddressPair(s, o') == Ok(entries[i], o' + |parts[i]|)
    {
      Powers();
      AtSplit(s, o', Be(entries[i].0, 8), Be(entries[i].1, 8));
      ReadBeAt(8, entries[i].0, s, o');
      ReadBeAt(8, entries[i].1, s, o' + 8);
    }
    CountedAt(ReadAddressPair, s, o, parts, entries);
  }

  ghost function CutShort(attributes: seq<(Text, Address)>): seq<(Text, Address)> {
    seq(|attributes|, i requires 0 <= i < |attributes| => (Cut(attributes[i].0, MAX_SHORT), attributes[i].1))
  }

  lemma AttributeAt(frequent: seq<Text>, attribute: (Text, Address), s: Octets, o: nat)
    requires Wide(attribute.1) && At(s, o, ShortBytes(attribute.0) + Be(attribute.1, 8))
    ensures Attribute(frequent)(s, o) ==
            Ok((Cut(attribute.0, MAX_SHORT), attribute.1), o + |ShortBytes(attribute.0) + Be(attribute.1, 8)|)
  {
    var name := Cut(attribute.0, MAX_SHORT);
    AtSplit(s, o, ShortBytes(attribute.0), Be(attribute.1, 8));
    AtSplit(s, o, Be(|name|, 2), name);
    Powers();
    ReadBeAt(2, |name|, s, o);
    ReadBeAt(8, attribute.1, s, o + 2 + |name|);
  }

  lemma AttributesAt(frequent: seq<Text>, attributes: seq<(Text, Address)>, s: Octets, o: nat)
    requires FitsNames(attributes) && At(s, o, CountedBytes(AttributeParts(attributes)))
    ensures Counted(Attribute(frequent), s, o) ==
            Ok(CutShort(attributes), o + |CountedBytes(AttributeParts(attributes))|)
  {
    hide Counted, CountedBytes, ShortBytes, Attribute;
    var parts := AttributeParts(attributes);
    forall i, o': nat | 0 <= i < |parts| && At(s, o', parts[i])
      ensures Attribute(frequent)(s, o') == Ok(CutShort(attributes)[i], o' + |parts[i]|)
    {
      AttributeAt(frequent, attributes[i], s, o');
    }
    CountedAt(Attribute(frequent), s, o, parts, CutShort(attributes));
  }

  lemma ContentAt(obj: CapturedObject, known: map<Text, Address>, s: Octets, o: nat)
    requires HasContainers(known) && FitsObject(obj) && KindAgrees(obj, known) && At(s, o, ContentBytes(obj))
    ensures ReadContent(obj.typeAddress, known, s, o) ==
            Ok((ContentRead(obj), ContentAddresses(obj)), o + |ContentBytes(obj)|)
  {
    hide Counted, CountedBytes, Ascending;
    match obj.contentKind
    case DICT => EntriesAt(obj.dictContent, s, o);
    case NONE =>
    case _ => AddressesAt(obj.sequenceContent, s, o);
  }

  lemma RemainingHolds(obj: CapturedObject)
    ensures SetOf(Remaining(obj)) == obj.referents - ContentAddresses(obj)
  {
    AscendingHolds(obj.referents - ContentAddresses(obj));
  }

  lemma TailAt(obj: CapturedObject, c: Context, s: Octets, o: nat)
    requires Plain(c) && FitsObject(obj) && At(s, o, TailBytes(obj, c))
    ensures ReadObjectTail(c, obj.typeAddress, s, o) ==
            Ok((Remaining(obj), if c.withStrRepr && !IsContainer(obj.typeAddress, c.known)
                                then Some(o + |TailBytes(obj, c)| - |TextBytes(obj.strRepr)|) else None),
               o + |TailBytes(obj, c)|)
  {
    hide Counted, CountedBytes, Remaining, Attribute, AttributeParts, TextBytes, ReadText, AddressParts;
    var rest, attributes, text :=
      CountedBytes(AddressParts(Remaining(obj))), CountedBytes(AttributeParts(obj.attributes)), StringBytes(obj, c);
    AtSplit(s, o, rest, attributes + text);
    AtSplit(s, o + |rest|, attributes, text);
    AddressesAt(Remaining(obj), s, o);
    AttributesAt(c.frequent, obj.attributes, s, o + |rest|);
    if text != [] {
      ReadTextAt(obj.strRepr, s, o + |rest| + |attributes|);
    } else {
      TextNotEmpty(obj.strRepr);
    }
  }

  lemma TextNotEmpty(t: Text)
    ensures |TextBytes(t)| >= 2
  {
  }

  lemma ObjectParsed(obj: CapturedObject, c: Context, s: Octets, o: nat)
    requires Plain(c) && FitsObject(obj) && KindAgrees(obj, c.known) && At(s, o, ObjectBytes(obj, c))
    ensures ReadObject(c, s, o) == Ok(ObjectRead(obj, c, o), o + |ObjectBytes(obj, c)|)
  {
    hide ContentBytes, TailBytes, ReadContent, ReadObjectTail, Remaining, ContentRead, ContentAddresses, IsContainer,
         TextBytes, KindAgrees;
    var size, content, tail := Be(Clamp(obj.shallowSize), 4), ContentBytes(obj), TailBytes(obj, c);
    AtSplit(s, o, Be(obj.address, 8), Be(obj.typeAddress, 8) + (size + (content + tail)));
    AtSplit(s, o + 8, Be(obj.typeAddress, 8), size + (content + tail));
    AtSplit(s, o + 16, size, content + tail);
    AtSplit(s, o + 20, content, tail);
    Powers();
    ReadBeAt(8, obj.address, s, o);
    ReadBeAt(8, obj.typeAddress, s, o + 8);
    ReadBeAt(4, Clamp(obj.shallowSize), s, o + 16);
    ContentAt(obj, c.known, s, o + 20);
    TailAt(obj, c, s, o + 20 + |content|);
    RemainingHolds(obj);
    assert SetOf(Remaining(obj)) + ContentAddresses(obj) == obj.referents + ContentAddresses(obj);
  }

  /** An object reads back as it was written, at any offset; where its string stands is known from the offset. */
  lemma ObjectAt(obj: CapturedObject, c: Context, s: Octets, o: nat)
    requires Plain(c) && FitsObject(obj) && KindAgrees(obj, c.known) && At(s, o, ObjectBytes(obj, c))
    ensures var r := ReadObject(c, s, o);
            && r.Ok? && r.next == o + |ObjectBytes(obj, c)| && ObjectAsWritten(obj, r.value)
            && (r.value.stringOffset.Some? <==> c.withStrRepr && obj.contentKind == NONE)
            && (r.value.stringOffset.Some? ==>
                  var text := ReadText(s, r.value.stringOffset.value);
                  text.Ok? && text.next == r.next && CutTo(obj.strRepr, 65535, text.value))
  {
    hide ObjectBytes, ReadObject, ObjectAsWritten, At, FitsObject, KindAgrees, TextBytes, IsContainer, KindOfType, ReadText;
    ObjectParsed(obj, c, s, o);
    ObjectReadAs(obj, c, o);
    ContainersAreKinds(obj, c.known);
    if c.withStrRepr && obj.contentKind == NONE {
      StringAt(obj, c, s, o);
      CutIs(obj.strRepr, MAX_TEXT);
    }
  }

  lemma ContainersAreKinds(obj: CapturedObject, known: map<Text, Address>)
    requires HasContainers(known) && KindAgrees(obj, known)
    ensures IsContainer(obj.typeAddress, known) <==> obj.contentKind != NONE
  {
  }

  lemma StringAt(obj: CapturedObject, c: Context, s: Octets, o: nat)
    requires c.Valid() && At(s, o, ObjectBytes(obj, c)) && c.withStrRepr && !IsContainer(obj.typeAddress, c.known)
    ensures var read := ObjectRead(obj, c, o);
            && read.stringOffset.Some?
            && ReadText(s, read.stringOffset.value) == Ok(Cut(obj.strRepr, MAX_TEXT), o + |ObjectBytes(obj, c)|)
  {
    hide ContentBytes, Remaining, TextBytes, ReadText, AddressParts, AttributeParts, CountedBytes, IsContainer, Cut;
    var text := TextBytes(obj.strRepr);
    var before := Be(obj.address, 8) + Be(obj.typeAddress, 8) + Be(Clamp(obj.shallowSize), 4) + ContentBytes(obj)
                  + CountedBytes(AddressParts(Remaining(obj))) + CountedBytes(AttributeParts(obj.attributes));
    assert ObjectBytes(obj, c) == before + text;
    AtSplit(s, o, before, text);
    ReadTextAt(obj.strRepr, s, o + |before|);
  }
}
