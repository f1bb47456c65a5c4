/** A finished artifact reads back as the capture it was written from. */
module ArtifactRoundTrip {
  import opened GraphTheory
  import opened HeapModel
  import opened Bytes
  import opened Parsing
  import opened Artifact
  import opened CaptureModel
  import opened ReadBack
  import opened ArtifactEncoding

  const WELL_KNOWN_TYPE_NAMES: seq<Text> := [
    Artifact.LIST, Artifact.TUPLE, Artifact.DICT, Artifact.SET, Ascii("str"), Ascii("bytes"), Ascii("bytearray"),
    Ascii("int"), Ascii("bool"), Ascii("float"), Ascii("object"), Ascii("type"), Ascii("NoneType")]

  /** The names of the well-known types, character by character. */
  lemma NamesSpelt()
    ensures WELL_KNOWN_TYPE_NAMES == [
              [108, 105, 115, 116], [116, 117, 112, 108, 101], [100, 105, 99, 116], [115, 101, 116], [115, 116, 114],
              [98, 121, 116, 101, 115], [98, 121, 116, 101, 97, 114, 114, 97, 121], [105, 110, 116],
              [98, 111, 111, 108], [102, 108, 111, 97, 116], [111, 98, 106, 101, 99, 116], [116, 121, 112, 101],
              [78, 111, 110, 101, 84, 121, 112, 101]]
    ensures [Artifact.LIST, Artifact.TUPLE, Artifact.DICT, Artifact.SET] == WELL_KNOWN_TYPE_NAMES[..4]
  {
    assert Ascii("list") == [108, 105, 115, 116] && Ascii("tuple") == [116, 117, 112, 108, 101];
    assert Ascii("dict") == [100, 105, 99, 116] && Ascii("set") == [115, 101, 116];
    assert Ascii("str") == [115, 116, 114] && Ascii("bytes") == [98, 121, 116, 101, 115];
    assert Ascii("bytearray") == [98, 121, 116, 101, 97, 114, 114, 97, 121] && Ascii("int") == [105, 110, 116];
    assert Ascii("bool") == [98, 111, 111, 108] && Ascii("float") == [102, 108, 111, 97, 116];
    assert Ascii("object") == [111, 98, 106, 101, 99, 116] && Ascii("type") == [116, 121, 112, 101];
    assert Ascii("NoneType") == [78, 111, 110, 101, 84, 121, 112, 101];
  }

  lemma NamesDiffer()
    ensures forall i, j | 0 <= i < j < |WELL_KNOWN_TYPE_NAMES| :: WELL_KNOWN_TYPE_NAMES[i] != WELL_KNOWN_TYPE_NAMES[j]
  {
    hide Ascii;
    NamesSpelt();
  }

  datatype Capture = Capture(
    known: map<Text, Address>, createdAt: Text, withStrRepr: bool, threads: seq<CapturedThread>,
    objects: seq<CapturedObject>, types: map<Address, Text>)

  predicate NamesAll(known: map<Text, Address>) {
    forall i | 0 <= i < |WELL_KNOWN_TYPE_NAMES| :: WELL_KNOWN_TYPE_NAMES[i] in known
  }

  function KnownPairs(known: map<Text, Address>): seq<(Text, Address)>
    requires NamesAll(known)
  {
    seq(|WELL_KNOWN_TYPE_NAMES|, i requires 0 <= i < |WELL_KNOWN_TYPE_NAMES| =>
      (WELL_KNOWN_TYPE_NAMES[i], known[WELL_KNOWN_TYPE_NAMES[i]]))
  }

  /** Only the well-known names are kept. */
  function KnownRead(known: map<Text, Address>): map<Text, Address> {
    map n | n in known && n in WELL_KNOWN_TYPE_NAMES :: known[n]
  }

  lemma {:induction false} MapOfAgrees<K, V>(pairs: seq<(K, V)>, m: map<K, V>)
    requires forall i | 0 <= i < |pairs| :: pairs[i].0 in m && m[pairs[i].0] == pairs[i].1
    ensures MapOf(pairs).Keys == set i | 0 <= i < |pairs| :: pairs[i].0
    ensures forall k | k in MapOf(pairs) :: k in m && MapOf(pairs)[k] == m[k]
  {
    if pairs != [] {
      MapOfAgrees(pairs[..|pairs| - 1], m);
    }
  }

  lemma ShortNames()
    ensures forall i | 0 <= i < |WELL_KNOWN_TYPE_NAMES| :: |WELL_KNOWN_TYPE_NAMES[i]| <= 9
  {
  }

  lemma KnownNamesUncut(known: map<Text, Address>)
    requires NamesAll(known)
    ensures CutNames(KnownPairs(known)) == KnownPairs(known)
  {
    var pairs := KnownPairs(known);
    forall i | 0 <= i < |pairs| ensures Cut(pairs[i].0, MAX_TEXT) == pairs[i].0 {
      ShortNames();
    }
  }

  lemma KnownReadBack(known: map<Text, Address>)
    requires NamesAll(known)
    ensures MapOf(KnownPairs(known)) == KnownRead(known)
  {
    hide Ascii;
    var pairs := KnownPairs(known);
    MapOfAgrees(pairs, known);
    forall n | n in KnownRead(known) ensures n in MapOf(pairs) {
      var i :| 0 <= i < |WELL_KNOWN_TYPE_NAMES| && WELL_KNOWN_TYPE_NAMES[i] == n;
      assert pairs[i].0 == n;
    }
  }

  lemma ContainersNamed(known: map<Text, Address>)
    requires NamesAll(known)
    ensures HasContainers(known) && HasContainers(KnownRead(known))
  {
    hide Ascii;
    assert WELL_KNOWN_TYPE_NAMES[0] in known && WELL_KNOWN_TYPE_NAMES[1] in known;
    assert WELL_KNOWN_TYPE_NAMES[2] in known && WELL_KNOWN_TYPE_NAMES[3] in known;
  }

  ghost function HeaderBytes(known: map<Text, Address>, createdAt: Text, withStrRepr: bool): Octets
    requires NamesAll(known)
  {
    Be(MAGIC, 8) + (Be(FORMAT_VERSION, 4) + (TextBytes(createdAt) + (Be(if withStrRepr then 1 else 0, 8) +
      CountedBytes(NamedAddresses(KnownPairs(known))))))
  }

  lemma OpeningAt(s: Octets, o: nat)
    requires At(s, o, Be(MAGIC, 8)) && At(s, o + 8, Be(FORMAT_VERSION, 4))
    ensures ReadOpening(s, o) == Ok(FORMAT_VERSION, o + 12)
  {
    Powers();
    ReadBeAt(8, MAGIC, s, o);
    ReadBeAt(4, FORMAT_VERSION, s, o + 8);
  }

  lemma FlagAt(flag: bool, s: Octets, o: nat)
    requires At(s, o, Be(if flag then 1 else 0, 8))
    ensures ReadU64(s, o) == Ok(if flag then 1 else 0, o + 8)
  {
    Powers();
    ReadBeAt(8, if flag then 1 else 0, s, o);
  }

  lemma HeaderAt(known: map<Text, Address>, createdAt: Text, withStrRepr: bool, s: Octets, o: nat)
    requires NamesAll(known) && FitsNames(KnownPairs(known)) && At(s, o, HeaderBytes(known, createdAt, withStrRepr))
    ensures ReadHeader(s, o) ==
            Ok(Header(1, Cut(createdAt, MAX_TEXT), withStrRepr, KnownRead(known)),
               o + |HeaderBytes(known, createdAt, withStrRepr)|)
  {
    hide TextBytes, ReadText, CountedBytes, Counted, NamedAddresses, MapOf, NamesAll, KnownPairs, KnownRead, ReadOpening,
         ReadU64, CutNames, Cut, At;
    var text, flag, names :=
      TextBytes(createdAt), Be(if withStrRepr then 1 else 0, 8), CountedBytes(NamedAddresses(KnownPairs(known)));
    KnownReadBack(known);
    KnownNamesUncut(known);
    AtSplit(s, o, Be(MAGIC, 8), Be(FORMAT_VERSION, 4) + (text + (flag + names)));
    AtSplit(s, o + 8, Be(FORMAT_VERSION, 4), text + (flag + names));
    AtSplit(s, o + 12, text, flag + names);
    AtSplit(s, o + 12 + |text|, flag, names);
    OpeningAt(s, o);
    ReadTextAt(createdAt, s, o + 12);
    FlagAt(withStrRepr, s, o + 12 + |text|);
    NamesAt(s, KnownPairs(known));
    NamesLength(KnownPairs(known));
    CountedAt(ReadTextAddress, s, o + 20 + |text|, NamedAddresses(KnownPairs(known)), CutNames(KnownPairs(known)));
  }

  // ---------------------------------------------------------------- the object section

  ghost function ObjectsBytes(objects: seq<CapturedObject>, c: Context): Octets
    requires c.Valid()
    decreases |objects|
  {
    if objects == [] then [] else ObjectBytes(objects[0], c) + ObjectsBytes(objects[1..], c)
  }

  /** What a reader makes of objects written one after the other from offset `o`. */
  ghost function ObjectsRead(objects: seq<CapturedObject>, c: Context, o: nat): map<Address, HeapObject>
    requires c.Valid()
    decreases |objects|
  {
    if objects == [] then map[]
    else ObjectsRead(objects[1..], c, o + |ObjectBytes(objects[0], c)|)[objects[0].address := ObjectRead(objects[0], c, o)]
  }

  ghost predicate FitsObjects(objects: seq<CapturedObject>, known: map<Text, Address>)
    requires HasContainers(known)
  {
    && |objects| <= MAX_UINT32
    && (forall i | 0 <= i < |objects| :: FitsObject(objects[i]) && KindAgrees(objects[i], known))
    && forall i, j | 0 <= i < j < |objects| :: objects[i].address != objects[j].address
  }

  lemma {:induction false} NotAmongObjects(objects: seq<CapturedObject>, c: Context, o: nat, a: Address)
    requires c.Valid() && forall i | 0 <= i < |objects| :: objects[i].address != a
    ensures a !in ObjectsRead(objects, c, o)
    decreases |objects|
  {
    hide ObjectBytes, ObjectRead;
    if objects != [] {
      NotAmongObjects(objects[1..], c, o + |ObjectBytes(objects[0], c)|, a);
    }
  }

  lemma {:induction false} ObjectsAt(objects: seq<CapturedObject>, c: Context, result: map<Address, HeapObject>,
                                     s: Octets, o: nat)
    requires Plain(c) && FitsObjects(objects, c.known) && At(s, o, ObjectsBytes(objects, c))
    requires forall i | 0 <= i < |objects| :: objects[i].address !in result
    ensures ReadObjects(c, |objects|, result, s, o) ==
            Ok(result + ObjectsRead(objects, c, o), o + |ObjectsBytes(objects, c)|)
    decreases |objects|
  {
    hide ReadObject, ObjectBytes, FitsObject, KindAgrees;
    if objects != [] {
      var first, rest := objects[0], objects[1..];
      var next := o + |ObjectBytes(first, c)|;
      AtSplit(s, o, ObjectBytes(first, c), ObjectsBytes(rest, c));
      ObjectParsed(first, c, s, o);
      var result' := result[first.address := ObjectRead(first, c, o)];
      forall i | 0 <= i < |rest| ensures rest[i].address !in result' {
        assert rest[i] == objects[i + 1];
      }
      ObjectsAt(rest, c, result', s, next);
      NotAmongObjects(rest, c, next, first.address);
      assert result' + ObjectsRead(rest, c, next) == result + ObjectsRead(objects, c, o);
    } else {
      assert result + map[] == result;
    }
  }

  /** Every kept string offset leads back to the representation that was written, cut to 65535 bytes. */
  lemma {:induction false} StringsAt(objects: seq<CapturedObject>, c: Context, s: Octets, o: nat, i: nat)
    requires Plain(c) && FitsObjects(objects, c.known) && At(s, o, ObjectsBytes(objects, c)) && i < |objects|
    requires c.withStrRepr && !IsContainer(objects[i].typeAddress, c.known)
    ensures objects[i].address in ObjectsRead(objects, c, o)
    ensures var obj := ObjectsRead(objects, c, o)[objects[i].address];
            && obj.stringOffset.Some?
            && ReadText(s, obj.stringOffset.value).Ok?
            && StringRepresentation(s, obj) == Cut(objects[i].strRepr, MAX_TEXT)
    decreases |objects|
  {
    hide FitsObject, KindAgrees, TextBytes, ReadText, ObjectBytes, ObjectRead, At, IsContainer;
    var first, rest := objects[0], objects[1..];
    AtSplit(s, o, ObjectBytes(first, c), ObjectsBytes(rest, c));
    if i == 0 {
      StringAt(first, c, s, o);
    } else {
      assert FitsObjects(rest, c.known) && rest[i - 1] == objects[i];
      StringsAt(rest, c, s, o + |ObjectBytes(first, c)|, i - 1);
    }
  }

  // ---------------------------------------------------------------- the type table

  ghost function TypePairs(types: map<Address, Text>): seq<(Address, Text)> {
    var addresses := Ascending(types.Keys);
    AscendingHolds(types.Keys);
    seq(|addresses|, i requires 0 <= i < |addresses| =>
      assert addresses[i] in SetOf(addresses); (addresses[i], types[addresses[i]]))
  }

  ghost function TypeParts(pairs: seq<(Address, Text)>): seq<Octets> {
    seq(|pairs|, i requires 0 <= i < |pairs| => Be(pairs[i].0, 8) + TextBytes(pairs[i].1))
  }

  ghost function CutTypes(pairs: seq<(Address, Text)>): seq<(Address, Text)> {
    seq(|pairs|, i requires 0 <= i < |pairs| => (pairs[i].0, Cut(pairs[i].1, MAX_TEXT)))
  }

  ghost function TypesRead(types: map<Address, Text>): map<Address, Text> {
    map a | a in types :: Cut(types[a], MAX_TEXT)
  }

  lemma TypesReadBack(types: map<Address, Text>)
    ensures MapOf(CutTypes(TypePairs(types))) == TypesRead(types)
    ensures |TypePairs(types)| == |types.Keys|
  {
    var pairs := CutTypes(TypePairs(types));
    var addresses := Ascending(types.Keys);
    AscendingHolds(types.Keys);
    forall i | 0 <= i < |pairs| ensures pairs[i].0 in types && TypesRead(types)[pairs[i].0] == pairs[i].1 {
      assert addresses[i] in SetOf(addresses);
    }
    MapOfAgrees(pairs, TypesRead(types));
    forall a | a in types ensures a in MapOf(pairs) {
      assert a in SetOf(addresses);
      var i :| 0 <= i < |addresses| && addresses[i] == a;
      assert pairs[i].0 == a;
    }
  }

  lemma TypesAt(pairs: seq<(Address, Text)>, s: Octets, o: nat)
    requires |pairs| <= MAX_UINT32 && (forall i | 0 <= i < |pairs| :: Wide(pairs[i].0))
    requires At(s, o, CountedBytes(TypeParts(pairs)))
    ensures Counted(ReadAddressText, s, o) == Ok(CutTypes(pairs), o + |CountedBytes(TypeParts(pairs))|)
  {
    hide Counted, CountedBytes, TextBytes, ReadText;
    var parts := TypeParts(pairs);
    forall i, o': nat | 0 <= i < |parts| && At(s, o', parts[i])
      ensures ReadAddressText(s, o') == Ok(CutTypes(pairs)[i], o' + |parts[i]|)
    {
      Powers();
      AtSplit(s, o', Be(pairs[i].0, 8), TextBytes(pairs[i].1));
      ReadBeAt(8, pairs[i].0, s, o');
      ReadTextAt(pairs[i].1, s, o' + 8);
    }
    CountedAt(ReadAddressText, s, o, parts, CutTypes(pairs));
  }

  ghost function FooterBytes(types: map<Address, Text>): Octets {
    CountedBytes(TypeParts(TypePairs(types))) + Be(MAGIC, 8)
  }

  // ---------------------------------------------------------------- the whole artifact

  /** The collector's tables of frequent attributes and common types are empty. */
  ghost function ContextOf(cap: Capture): Context {
    Context(KnownRead(cap.known), cap.withStrRepr, [], {})
  }

  ghost predicate Fits(cap: Capture) {
    && NamesAll(cap.known) && FitsNames(KnownPairs(cap.known)) && HasContainers(KnownRead(cap.known))
    && FitsThreads(cap.threads)
    && FitsObjects(cap.objects, KnownRead(cap.known))
    && |cap.types.Keys| <= MAX_UINT32 && (forall a | a in cap.types :: Wide(a))
    && forall i | 0 <= i < |cap.objects| :: cap.objects[i].typeAddress in cap.types
  }

  ghost function ArtifactBytes(cap: Capture): Octets
    requires Fits(cap)
  {
    HeaderBytes(cap.known, cap.createdAt, cap.withStrRepr) + (CountedBytes(ThreadParts(cap.threads)) +
      (Be(0, 4) + (Be(0, 4) + (Be(|cap.objects|, 4) + (ObjectsBytes(cap.objects, ContextOf(cap)) +
        FooterBytes(cap.types))))))
  }

  /** Where the first object stands. */
  ghost function ObjectsOffset(cap: Capture): nat
    requires Fits(cap)
  {
    |HeaderBytes(cap.known, cap.createdAt, cap.withStrRepr)| + |CountedBytes(ThreadParts(cap.threads))| + 12
  }

  ghost function HeapRead(cap: Capture): Heap
    requires Fits(cap)
  {
    Heap(Header(1, Cut(cap.createdAt, MAX_TEXT), cap.withStrRepr, KnownRead(cap.known)), ThreadsRead(cap.threads),
         ObjectsRead(cap.objects, ContextOf(cap), ObjectsOffset(cap)), TypesRead(cap.types))
  }

  lemma NothingCounted<T(!new)>(p: Parser<T>, s: Octets, o: nat)
    requires At(s, o, Be(0, 4))
    ensures Counted(p, s, o) == Ok([], o + 4)
  {
    Powers();
    ReadBeAt(4, 0, s, o);
  }

  lemma CountAt(n: nat, s: Octets, o: nat)
    requires n <= MAX_UINT32 && At(s, o, Be(n, 4))
    ensures ReadU32(s, o) == Ok(n, o + 4)
  {
    Powers();
    ReadBeAt(4, n, s, o);
  }

  lemma ObjectSectionAt(header: Header, objects: seq<CapturedObject>, c: Context, s: Octets, o: nat)
    requires Plain(c) && header.wellKnownTypes == c.known && header.withStrRepr == c.withStrRepr
    requires FitsObjects(objects, c.known)
    requires At(s, o, Be(0, 4)) && At(s, o + 4, Be(0, 4)) && At(s, o + 8, Be(|objects|, 4))
    requires At(s, o + 12, ObjectsBytes(objects, c))
    ensures ReadObjectSection(header, s, o) ==
            Ok(ObjectsRead(objects, c, o + 12), o + 12 + |ObjectsBytes(objects, c)|)
  {
    hide Counted, ReadText, CommonType, ReadObjects, ObjectsRead, ObjectsBytes, ReadU32, At, HasContainers;
    NothingCounted(ReadText, s, o);
    NothingCounted(CommonType([]), s, o + 4);
    CountAt(|objects|, s, o + 8);
    assert SetOf<Address>([]) == {};
    ObjectsAt(objects, c, map[], s, o + 12);
    assert map[] + ObjectsRead(objects, c, o + 12) == ObjectsRead(objects, c, o + 12);
  }

  lemma TypesCoverObjects(cap: Capture)
    requires Fits(cap)
    ensures TypesKnown(HeapRead(cap).objects, TypesRead(cap.types))
  {
    hide FitsObjects;
    ObjectsTyped(cap.objects, ContextOf(cap), ObjectsOffset(cap), cap.types);
  }

  lemma {:induction false} ObjectsTyped(objects: seq<CapturedObject>, c: Context, o: nat, types: map<Address, Text>)
    requires c.Valid() && forall i | 0 <= i < |objects| :: objects[i].typeAddress in types
    ensures forall a | a in ObjectsRead(objects, c, o) :: ObjectsRead(objects, c, o)[a].typeAddress in types
    decreases |objects|
  {
    hide ObjectBytes, IsContainer, ContentRead, ContentAddresses;
    if objects != [] {
      ObjectsTyped(objects[1..], c, o + |ObjectBytes(objects[0], c)|, types);
    }
  }

  lemma FooterAt(cap: Capture, s: Octets, o: nat)
    requires Fits(cap) && At(s, o, FooterBytes(cap.types))
    ensures ReadFooter(HeapRead(cap).header, HeapRead(cap).threads, HeapRead(cap).objects, s, o) ==
            Ok(HeapRead(cap), o + |FooterBytes(cap.types)|)
  {
    hide Counted, CountedBytes, TypePairs, TypeParts, CutTypes, MapOf, TypesKnown, ObjectsRead, ThreadsRead, FitsObjects,
         FitsThreads, KnownRead, TypesRead;
    var pairs := TypePairs(cap.types);
    AtSplit(s, o, CountedBytes(TypeParts(pairs)), Be(MAGIC, 8));
    TypesReadBack(cap.types);
    TypePairsWide(cap.types);
    TypesAt(pairs, s, o);
    Powers();
    ReadBeAt(8, MAGIC, s, o + |CountedBytes(TypeParts(pairs))|);
    TypesCoverObjects(cap);
  }

  lemma TypePairsWide(types: map<Address, Text>)
    requires forall a | a in types :: Wide(a)
    ensures forall i | 0 <= i < |TypePairs(types)| :: Wide(TypePairs(types)[i].0)
  {
    var addresses := Ascending(types.Keys);
    AscendingHolds(types.Keys);
    forall i | 0 <= i < |addresses| ensures Wide(addresses[i]) {
      assert addresses[i] in SetOf(addresses);
    }
  }

  /** Where each section of a finished artifact stands. */
  lemma SectionsAt(cap: Capture)
    requires Fits(cap)
    ensures var s, o := ArtifactBytes(cap), ObjectsOffset(cap) - 12;
            var head := HeaderBytes(cap.known, cap.createdAt, cap.withStrRepr);
            && At(s, 0, head) && At(s, |head|, CountedBytes(ThreadParts(cap.threads)))
            && At(s, o, Be(0, 4)) && At(s, o + 4, Be(0, 4)) && At(s, o + 8, Be(|cap.objects|, 4))
            && At(s, o + 12, ObjectsBytes(cap.objects, ContextOf(cap)))
            && At(s, o + 12 + |ObjectsBytes(cap.objects, ContextOf(cap))|, FooterBytes(cap.types))
  {
    hide HeaderBytes, CountedBytes, FooterBytes, ObjectsBytes, ThreadParts, FitsObjects, FitsThreads, KnownRead,
         HasContainers, NamesAll, FitsNames, Be;
    var s := ArtifactBytes(cap);
    var head, threads, objects, footer :=
      HeaderBytes(cap.known, cap.createdAt, cap.withStrRepr), CountedBytes(ThreadParts(cap.threads)),
      ObjectsBytes(cap.objects, ContextOf(cap)), FooterBytes(cap.types);
    var zero, count, o := Be(0, 4), Be(|cap.objects|, 4), |head| + |threads|;
    assert At(s, 0, s);
    hide At;
    AtSplit(s, 0, head, threads + (zero + (zero + (count + (objects + footer)))));
    AtSplit(s, |head|, threads, zero + (zero + (count + (objects + footer))));
    AtSplit(s, o, zero, zero + (count + (objects + footer)));
    AtSplit(s, o + 4, zero, count + (objects + footer));
    AtSplit(s, o + 8, count, objects + footer);
    AtSplit(s, o + 12, objects, footer);
  }

  // ---------------------------------------------------------------- what a reader makes of it, value by value

  lemma {:induction false} ObjectsReadAs(objects: seq<CapturedObject>, c: Context, o: nat, i: nat)
    requires c.Valid() && i < |objects|
    requires forall j, k | 0 <= j < k < |objects| :: objects[j].address != objects[k].address
    ensures objects[i].address in ObjectsRead(objects, c, o)
    ensures ObjectAsWritten(objects[i], ObjectsRead(objects, c, o)[objects[i].address])
    decreases |objects|
  {
    hide ObjectBytes, ObjectRead, ObjectAsWritten;
    if i == 0 {
      ObjectReadAs(objects[0], c, o);
    } else {
      ObjectsReadAs(objects[1..], c, o + |ObjectBytes(objects[0], c)|, i - 1);
    }
  }

  lemma {:induction false} OnlyWritten(objects: seq<CapturedObject>, c: Context, o: nat, a: Address)
    requires c.Valid() && a in ObjectsRead(objects, c, o)
    ensures exists i :: 0 <= i < |objects| && objects[i].address == a
    decreases |objects|
  {
    hide ObjectBytes, ObjectRead;
    if objects[0].address != a {
      OnlyWritten(objects[1..], c, o + |ObjectBytes(objects[0], c)|, a);
      var i :| 0 <= i < |objects[1..]| && objects[1..][i].address == a;
      assert objects[i + 1].address == a;
    }
  }

  /** All objects, each under its own address, and nothing else. */
  ghost predicate ObjectsAsWritten(objects: seq<CapturedObject>, r: map<Address, HeapObject>) {
    && (forall a | a in r :: exists i :: 0 <= i < |objects| && objects[i].address == a)
    && forall i | 0 <= i < |objects| :: objects[i].address in r && ObjectAsWritten(objects[i], r[objects[i].address])
  }

  lemma ObjectsReadBack(objects: seq<CapturedObject>, c: Context, o: nat)
    requires c.Valid() && FitsObjects(objects, c.known)
    ensures ObjectsAsWritten(objects, ObjectsRead(objects, c, o))
  {
    hide ObjectAsWritten, ObjectsRead, FitsObject, KindAgrees;
    var r := ObjectsRead(objects, c, o);
    forall a | a in r ensures exists i :: 0 <= i < |objects| && objects[i].address == a {
      OnlyWritten(objects, c, o, a);
    }
    forall i | 0 <= i < |objects|
      ensures objects[i].address in r
      ensures ObjectAsWritten(objects[i], r[objects[i].address])
    {
      ObjectsReadAs(objects, c, o, i);
    }
  }

  /** Each well-known name with its address, and no other name. */
  ghost predicate NamesAsWritten(known: map<Text, Address>, r: map<Text, Address>) {
    && (forall n | n in r :: n in WELL_KNOWN_TYPE_NAMES)
    && forall n | n in WELL_KNOWN_TYPE_NAMES :: n in known && n in r && r[n] == known[n]
  }

  ghost predicate HeaderAsWritten(cap: Capture, r: Header) {
    && r.version == 1 && CutTo(cap.createdAt, 65535, r.createdAt) && r.withStrRepr == cap.withStrRepr
    && NamesAsWritten(cap.known, r.wellKnownTypes)
  }

  ghost predicate ThreadsAsWritten(threads: seq<CapturedThread>, r: seq<Thread>) {
    |r| == |threads| && forall i | 0 <= i < |threads| :: ThreadAsWritten(threads[i], r[i])
  }

  ghost predicate TypesAsWritten(types: map<Address, Text>, r: map<Address, Text>) {
    r.Keys == types.Keys && forall a | a in types :: CutTo(types[a], 65535, r[a])
  }

  ghost predicate HeapAsWritten(cap: Capture, r: Heap) {
    && HeaderAsWritten(cap, r.header) && ThreadsAsWritten(cap.threads, r.threads)
    && ObjectsAsWritten(cap.objects, r.objects) && TypesAsWritten(cap.types, r.types)
  }

  lemma NamesReadBack(known: map<Text, Address>)
    requires NamesAll(known)
    ensures NamesAsWritten(known, KnownRead(known))
  {
    hide Ascii;
    forall n | n in WELL_KNOWN_TYPE_NAMES ensures n in known {
      var i :| 0 <= i < |WELL_KNOWN_TYPE_NAMES| && WELL_KNOWN_TYPE_NAMES[i] == n;
    }
  }

  lemma ThreadsReadBack(threads: seq<CapturedThread>)
    requires FitsThreads(threads)
    ensures ThreadsAsWritten(threads, ThreadsRead(threads))
  {
    hide FitsThread, ThreadRead, ThreadAsWritten;
    forall i | 0 <= i < |threads| ensures ThreadAsWritten(threads[i], ThreadsRead(threads)[i]) {
      ThreadReadAs(threads[i]);
    }
  }

  lemma TypesAre(types: map<Address, Text>)
    ensures TypesAsWritten(types, TypesRead(types))
  {
    hide Cut, CutTo;
    forall a | a in types ensures CutTo(types[a], 65535, TypesRead(types)[a]) {
      CutIs(types[a], MAX_TEXT);
    }
  }

  lemma HeapReadAs(cap: Capture)
    requires Fits(cap)
    ensures HeapAsWritten(cap, HeapRead(cap))
  {
    hide FitsThreads, FitsObjects, FitsNames, KnownPairs, HasContainers, Cut, CutTo, ObjectsRead, ThreadsRead, TypesRead,
         KnownRead, NamesAsWritten, ThreadsAsWritten, ObjectsAsWritten, TypesAsWritten;
    NamesReadBack(cap.known);
    ThreadsReadBack(cap.threads);
    TypesAre(cap.types);
    CutIs(cap.createdAt, MAX_TEXT);
    ObjectsReadBack(cap.objects, ContextOf(cap), ObjectsOffset(cap));
  }

  lemma ArtifactParsed(cap: Capture)
    requires Fits(cap)
    ensures ReadArtifact(ArtifactBytes(cap)) == Ok(HeapRead(cap), |ArtifactBytes(cap)|)
  {
    hide HeaderBytes, CountedBytes, Counted, ReadHeader, ReadObjectSection, ReadFooter, FooterBytes, ObjectsBytes,
         ObjectsRead, ThreadsRead, ThreadParts, FitsObjects, FitsThreads, KnownRead, TypesRead, ReadThread, At,
         HasContainers, NamesAll, FitsNames;
    var s, o := ArtifactBytes(cap), ObjectsOffset(cap) - 12;
    SectionsAt(cap);
    HeaderAt(cap.known, cap.createdAt, cap.withStrRepr, s, 0);
    ThreadsAt(cap.threads, s, |HeaderBytes(cap.known, cap.createdAt, cap.withStrRepr)|);
    ObjectSectionAt(HeapRead(cap).header, cap.objects, ContextOf(cap), s, o);
    FooterAt(cap, s, o + 12 + |ObjectsBytes(cap.objects, ContextOf(cap))|);
    ArtifactLength(cap);
  }

  /**
   * The round trip: what a reader makes of a finished artifact is the capture it was written from, with
   * sizes clamped to 32 bits, strings cut to 65535 bytes, and referents united with the content.
   */
  lemma RoundTrip(cap: Capture)
    requires Fits(cap)
    ensures ReadArtifact(ArtifactBytes(cap)) == Ok(HeapRead(cap), |ArtifactBytes(cap)|)
    ensures HeapAsWritten(cap, ReadArtifact(ArtifactBytes(cap)).value)
  {
    hide Fits, ArtifactBytes, ReadArtifact, HeapRead, HeapAsWritten;
    ArtifactParsed(cap);
    HeapReadAs(cap);
  }

  lemma ArtifactLength(cap: Capture)
    requires Fits(cap)
    ensures |ArtifactBytes(cap)| ==
            ObjectsOffset(cap) + |ObjectsBytes(cap.objects, ContextOf(cap))| + |FooterBytes(cap.types)|
  {
    hide HeaderBytes, CountedBytes, FooterBytes, ObjectsBytes, ThreadParts, FitsObjects, FitsThreads, KnownRead,
         HasContainers, NamesAll, FitsNames;
  }

  /** Reading a string representation lazily gives back what was written. */
  lemma StringsReadBack(cap: Capture, i: nat)
    requires Fits(cap) && i < |cap.objects| && cap.withStrRepr
    requires !IsContainer(cap.objects[i].typeAddress, KnownRead(cap.known))
    ensures cap.objects[i].address in HeapRead(cap).objects
    ensures var obj := HeapRead(cap).objects[cap.objects[i].address];
            && (obj.stringOffset.Some? ==> ReadText(ArtifactBytes(cap), obj.stringOffset.value).Ok?)
            && CutTo(cap.objects[i].strRepr, 65535, StringRepresentation(ArtifactBytes(cap), obj))
  {
    CutIs(cap.objects[i].strRepr, MAX_TEXT);
    hide Cut, CutTo;
    hide HeaderBytes, CountedBytes, FooterBytes, ObjectsBytes, ObjectsRead, ThreadParts, FitsObjects, FitsThreads,
         KnownRead, IsContainer, ReadText, StringRepresentation, ArtifactBytes, At, HasContainers, NamesAll, FitsNames,
         ThreadsRead, TypesRead;
    SectionsAt(cap);
    StringsAt(cap.objects, ContextOf(cap), ArtifactBytes(cap), ObjectsOffset(cap), i);
  }
}
