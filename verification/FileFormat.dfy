/**
 * The artifact format byte by byte: what its numbers, texts and tables look like, spelt out without the functions
 * that write and read them, and one whole artifact.
 */
module FileFormat {
  import opened GraphTheory
  import opened HeapModel
  import opened Bytes
  import opened Parsing
  import opened Artifact
  import opened CaptureModel
  import opened ReadBack
  import opened ArtifactEncoding
  import opened ArtifactRoundTrip
  import Collector
  import UniqueSorted

  // ---------------------------------------------------------------- numbers and texts

  /** The eight bytes that open and close every artifact, and the version. */
  lemma MagicSpelt()
    ensures Be(MAGIC, 8) == [0, 0, 0, 0, 0x07, 0x54, 0xD6, 0x01] && Be(FORMAT_VERSION, 4) == [0, 0, 0, 1]
    ensures FromBe([0, 0, 0, 0, 0x07, 0x54, 0xD6, 0x01]) == 123_000_321
  {
    BeSmall(1);
    assert Be(0, 4) == [0, 0, 0, 0];
    assert Be(0x07, 5) == Be(0, 4) + [0x07] && Be(0x07_54, 6) == Be(0x07, 5) + [0x54];
    assert Be(0x07_54_D6, 7) == Be(0x07_54, 6) + [0xD6] && Be(0x07_54_D6_01, 8) == Be(0x07_54_D6, 7) + [0x01];
    Powers();
    FromBeBe(MAGIC, 8);
  }

  /** No artifact begins otherwise. */
  lemma OpeningJudged(s: Octets)
    requires |s| >= 12
    ensures ReadOpening(s, 0).Ok? <==> s[..12] == [0, 0, 0, 0, 0x07, 0x54, 0xD6, 0x01, 0, 0, 0, 1]
    ensures ReadOpening(s, 0).Ok? ==> ReadOpening(s, 0) == Ok(1, 12)
  {
    hide Be, FromBe;
    MagicSpelt();
    var opening: Octets := [0, 0, 0, 0, 0x07, 0x54, 0xD6, 0x01, 0, 0, 0, 1];
    assert s[..12] == s[0..8] + s[8..12] && opening == Be(MAGIC, 8) + Be(FORMAT_VERSION, 4);
    if s[..12] == opening {
      assert s[0..8] == s[..12][..8] && s[8..12] == s[..12][8..];
    }
    BeFromBe(s[0..8]);
    BeFromBe(s[8..12]);
    Powers();
    FromBeBe(FORMAT_VERSION, 4);
  }

  /** A text of up to 65535 bytes stays whole behind its length; of a longer one, the first 65535 bytes are written. */
  lemma TextSpelt(t: Text)
    ensures |t| <= 65535 ==> TextBytes(t) == [|t| / 256, |t| % 256] + t
    ensures |t| > 65535 ==> TextBytes(t) == [255, 255] + t[..65535]
  {
    hide Be;
    BeSpelt(|Cut(t, MAX_TEXT)|);
  }

  /** The same for the name of an attribute, with 32767 bytes. */
  lemma ShortSpelt(t: Text)
    ensures |t| <= 32767 ==> ShortBytes(t) == [|t| / 256, |t| % 256] + t
    ensures |t| > 32767 ==> ShortBytes(t) == [127, 255] + t[..32767]
  {
    hide Be;
    BeSpelt(|Cut(t, MAX_SHORT)|);
  }

  function Number(high: int, low: int): int {
    256 * high + low
  }

  lemma TextJudged(s: Octets, o: nat)
    requires o + 2 <= |s|
    ensures var n := Number(s[o], s[o + 1]);
            ReadText(s, o) == if o + 2 + n <= |s| then Ok(s[o + 2..o + 2 + n], o + 2 + n) else Failed(Truncated)
  {
    hide FromBe;
    FromBeTwo(s[o], s[o + 1]);
    assert s[o..o + 2] == [s[o], s[o + 1]];
  }

  /**
   * An attribute's name: a length up to 32767 and the name itself, or else a place in the table of frequent names,
   * where 65535 stands for the first, 65534 for the second, and so on.
   */
  lemma AttributeNameJudged(frequent: seq<Text>, s: Octets, o: nat)
    requires o + 2 <= |s|
    ensures var n := Number(s[o], s[o + 1]);
            ReadAttributeName(frequent, s, o) ==
              if n <= 32767 then
                if o + 2 + n <= |s| then Ok(s[o + 2..o + 2 + n], o + 2 + n) else Failed(Truncated)
              else if 65535 - n < |frequent| then Ok(frequent[65535 - n], o + 2)
              else Failed(Malformed)
  {
    hide FromBe;
    FromBeTwo(s[o], s[o + 1]);
    assert s[o..o + 2] == [s[o], s[o + 1]];
  }

  /** An object's size is written as it is where 32 bits hold it, and as the nearest number they hold where not. */
  lemma SizeSpelt(obj: CapturedObject, c: Context)
    requires c.Valid()
    ensures var size := FromBe(ObjectBytes(obj, c)[16..20]);
            SizeAsWritten(obj.shallowSize, size)
  {
    hide Be, FromBe, ContentBytes, TailBytes;
    Powers();
    FromBeBe(Clamp(obj.shallowSize), 4);
    assert ObjectBytes(obj, c)[16..20] == Be(Clamp(obj.shallowSize), 4);
  }

  // ---------------------------------------------------------------- what can be written

  /** A list that a 32-bit count can say, of addresses that 64 bits can say. */
  ghost predicate Sayable(addresses: seq<Address>) {
    |addresses| <= 0xFFFF_FFFF && forall i | 0 <= i < |addresses| :: addresses[i] <= 0xFFFF_FFFF_FFFF_FFFF
  }

  function Firsts(pairs: seq<(Address, Address)>): seq<Address> {
    seq(|pairs|, i requires 0 <= i < |pairs| => pairs[i].0)
  }

  function Seconds<T>(pairs: seq<(T, Address)>): seq<Address> {
    seq(|pairs|, i requires 0 <= i < |pairs| => pairs[i].1)
  }

  /** An object can be written exactly when its addresses and the lengths of its lists can be said. */
  lemma ObjectFitsIff(obj: CapturedObject)
    ensures var rest := set a | a in obj.referents &&
                                !Mentions(obj.contentKind, obj.sequenceContent, obj.dictContent, a);
            FitsObject(obj) <==>
              && Sayable([obj.address, obj.typeAddress])
              && |rest| <= 0xFFFF_FFFF && (forall a | a in rest :: a <= 0xFFFF_FFFF_FFFF_FFFF)
              && Sayable(Seconds(obj.attributes))
              && match obj.contentKind
                 case NONE => true
                 case DICT =>
                   Sayable(Firsts(obj.dictContent)) && Sayable(Seconds(obj.dictContent))
                 case _ => Sayable(obj.sequenceContent)
  {
    hide Mentions, ContentAddresses;
    var rest := set a | a in obj.referents && !Mentions(obj.contentKind, obj.sequenceContent, obj.dictContent, a);
    forall a ensures a in rest <==> a in obj.referents - ContentAddresses(obj) {
      MentionsAre(obj, a);
    }
    assert rest == obj.referents - ContentAddresses(obj);
    RestFitsIff(rest);
    AttributesFitIff(obj.attributes);
    EntriesFitIff(obj.dictContent);
    hide FitsAddresses, FitsNames, FitsEntries, Remaining, Sayable, Firsts, Seconds, Ascending;
    assert FitsContent(obj) <==>
             match obj.contentKind
             case NONE => true
             case DICT => FitsEntries(obj.dictContent)
             case _ => FitsAddresses(obj.sequenceContent);
    SayableIs(obj.sequenceContent);
    RemainingIs(obj);
    assert Sayable([obj.address, obj.typeAddress]) <==> Wide(obj.address) && Wide(obj.typeAddress) by {
      TwoSayable(obj.address, obj.typeAddress);
    }
  }

  lemma TwoSayable(a: Address, b: Address)
    ensures Sayable([a, b]) <==> Wide(a) && Wide(b)
  {
    var both: seq<Address> := [a, b];
    assert both[0] == a && both[1] == b;
  }

  lemma SayableIs(addresses: seq<Address>)
    ensures FitsAddresses(addresses) <==> Sayable(addresses)
  {
  }

  lemma RemainingIs(obj: CapturedObject)
    ensures Remaining(obj) == Ascending(obj.referents - ContentAddresses(obj))
  {
  }

  lemma RestFitsIff(rest: set<Address>)
    ensures FitsAddresses(Ascending(rest)) <==>
            |rest| <= 0xFFFF_FFFF && forall a | a in rest :: a <= 0xFFFF_FFFF_FFFF_FFFF
  {
    hide Ascending;
    var all := Ascending(rest);
    AscendingHolds(rest);
    if FitsAddresses(all) {
      forall a | a in rest ensures a <= 0xFFFF_FFFF_FFFF_FFFF {
        assert a in SetOf(all);
        var i :| 0 <= i < |all| && all[i] == a;
        assert Wide(all[i]);
      }
    }
    if forall a | a in rest :: a <= 0xFFFF_FFFF_FFFF_FFFF {
      forall i | 0 <= i < |all| ensures Wide(all[i]) {
        assert all[i] in SetOf(all);
      }
    }
  }

  lemma AttributesFitIff(attributes: seq<(Text, Address)>)
    ensures FitsNames(attributes) <==> Sayable(Seconds(attributes))
  {
    assert forall i | 0 <= i < |attributes| :: Seconds(attributes)[i] == attributes[i].1;
  }

  lemma EntriesFitIff(entries: seq<(Address, Address)>)
    ensures FitsEntries(entries) <==> Sayable(Firsts(entries)) && Sayable(Seconds(entries))
  {
    assert forall i | 0 <= i < |entries| ::
             Firsts(entries)[i] == entries[i].0 && Seconds(entries)[i] == entries[i].1;
  }

  /** A thread, likewise, with line numbers that 32 bits can say. */
  lemma ThreadFitsIff(t: CapturedThread)
    ensures FitsThread(t) <==>
            |t.frames| <= 0xFFFF_FFFF &&
            forall i | 0 <= i < |t.frames| ::
              var f := t.frames[i];
              && 0 <= f.lineNumber <= 0xFFFF_FFFF
              && Sayable(Seconds(f.locals))
  {
    hide FitsNames, Sayable, Seconds;
    forall i | 0 <= i < |t.frames|
      ensures FitsNames(t.frames[i].locals) <==> Sayable(Seconds(t.frames[i].locals))
    {
      AttributesFitIff(t.frames[i].locals);
    }
  }

  // ---------------------------------------------------------------- the header

  /** The entry for the well-known type at a place: its name with its length, and its address. */
  ghost function Named(name: Octets, known: map<Text, Address>, i: nat): Octets
    requires NamesAll(known) && i < |WELL_KNOWN_TYPE_NAMES|
  {
    name + Be(known[WELL_KNOWN_TYPE_NAMES[i]], 8)
  }

  lemma ConcatFrom(parts: seq<Octets>, k: nat)
    requires k < |parts|
    ensures Concat(parts[k..]) == parts[k] + Concat(parts[k + 1..])
  {
    assert parts[k..][1..] == parts[k + 1..];
  }

  lemma Thirteen(p: seq<Octets>)
    requires |p| == 13
    ensures Concat(p) ==
            p[0] + (p[1] + (p[2] + (p[3] + (p[4] + (p[5] + (p[6] + (p[7] + (p[8] + (p[9] + (p[10] + (p[11] + p[12])))))))))))
  {
    assert Concat(p[13..]) == [];
    assert p[0..] == p;
    hide Concat;
    forall k | 0 <= k < 13 ensures Concat(p[k..]) == p[k] + Concat(p[k + 1..]) {
      ConcatFrom(p, k);
    }
    assert p[12] + [] == p[12];
  }

  lemma NameSpelt(known: map<Text, Address>, i: nat, name: Octets)
    requires NamesAll(known) && i < |WELL_KNOWN_TYPE_NAMES|
    requires |name| == 2 + |WELL_KNOWN_TYPE_NAMES[i]| && name[2..] == WELL_KNOWN_TYPE_NAMES[i]
    requires name[0] == 0 && name[1] == |WELL_KNOWN_TYPE_NAMES[i]|
    ensures NamedAddresses(KnownPairs(known))[i] == Named(name, known, i)
  {
    hide Be, Ascii;
    TextSpelt(WELL_KNOWN_TYPE_NAMES[i]);
    assert [0, |WELL_KNOWN_TYPE_NAMES[i]|] + WELL_KNOWN_TYPE_NAMES[i] == name;
  }

  /** The header: magic value, version, creation time, flags, and thirteen names in this order. */
  lemma HeaderSpelt(known: map<Text, Address>, createdAt: Text, withStrRepr: bool)
    requires NamesAll(known) && |createdAt| <= 65535
    ensures HeaderBytes(known, createdAt, withStrRepr) ==
            [0, 0, 0, 0, 0x07, 0x54, 0xD6, 0x01, 0, 0, 0, 1] + ([|createdAt| / 256, |createdAt| % 256] + createdAt +
              ([0, 0, 0, 0, 0, 0, 0, if withStrRepr then 1 else 0] + ([0, 0, 0, 13] + NamesPart(known))))
  {
    hide Be, TextBytes, NamedAddresses, KnownPairs, Ascii, NamesAll;
    MagicSpelt();
    TextSpelt(createdAt);
    BeSmall(if withStrRepr then 1 else 0);
    BeSmall(13);
    NamesLength(KnownPairs(known));
    NamesPartSpelt(known);
    PairsCount(known);
  }

  lemma PairsCount(known: map<Text, Address>)
    requires NamesAll(known)
    ensures |KnownPairs(known)| == 13
  {
  }

  ghost function NamesPart(known: map<Text, Address>): Octets
    requires NamesAll(known)
  {
    Named([0, 4, 108, 105, 115, 116], known, 0) + (
    Named([0, 5, 116, 117, 112, 108, 101], known, 1) + (
    Named([0, 4, 100, 105, 99, 116], known, 2) + (
    Named([0, 3, 115, 101, 116], known, 3) + (
    Named([0, 3, 115, 116, 114], known, 4) + (
    Named([0, 5, 98, 121, 116, 101, 115], known, 5) + (
    Named([0, 9, 98, 121, 116, 101, 97, 114, 114, 97, 121], known, 6) + (
    Named([0, 3, 105, 110, 116], known, 7) + (
    Named([0, 4, 98, 111, 111, 108], known, 8) + (
    Named([0, 5, 102, 108, 111, 97, 116], known, 9) + (
    Named([0, 6, 111, 98, 106, 101, 99, 116], known, 10) + (
    Named([0, 4, 116, 121, 112, 101], known, 11) + (
    Named([0, 8, 78, 111, 110, 101, 84, 121, 112, 101], known, 12)))))))))))))
  }

  lemma NamesPartSpelt(known: map<Text, Address>)
    requires NamesAll(known)
    ensures Concat(NamedAddresses(KnownPairs(known))) == NamesPart(known)
  {
    hide Be, NamedAddresses, KnownPairs, Ascii, NamesAll, Named;
    PairsCount(known);
    NamesLength(KnownPairs(known));
    NamesSpelt();
    Thirteen(NamedAddresses(KnownPairs(known)));
    NameSpelt(known, 0, [0, 4, 108, 105, 115, 116]);
    NameSpelt(known, 1, [0, 5, 116, 117, 112, 108, 101]);
    NameSpelt(known, 2, [0, 4, 100, 105, 99, 116]);
    NameSpelt(known, 3, [0, 3, 115, 101, 116]);
    NameSpelt(known, 4, [0, 3, 115, 116, 114]);
    NameSpelt(known, 5, [0, 5, 98, 121, 116, 101, 115]);
    NameSpelt(known, 6, [0, 9, 98, 121, 116, 101, 97, 114, 114, 97, 121]);
    NameSpelt(known, 7, [0, 3, 105, 110, 116]);
    NameSpelt(known, 8, [0, 4, 98, 111, 111, 108]);
    NameSpelt(known, 9, [0, 5, 102, 108, 111, 97, 116]);
    NameSpelt(known, 10, [0, 6, 111, 98, 106, 101, 99, 116]);
    NameSpelt(known, 11, [0, 4, 116, 121, 112, 101]);
    NameSpelt(known, 12, [0, 8, 78, 111, 110, 101, 84, 121, 112, 101]);
  }

  // ---------------------------------------------------------------- one whole artifact

  /** A small number in eight bytes. */
  function Eight(n: Byte): (s: Octets)
    ensures |s| == 8
  {
    [0, 0, 0, 0, 0, 0, 0, n]
  }

  /** A dict of one entry and one more referent. */
  ghost function SomeDict(): CapturedObject {
    CapturedObject(0x20, 3, [100, 105, 99, 116], 56, ContentKind.DICT, [], [(0x21, 0x22)], {0x21, 0x23}, [], [])
  }

  /** An object with an attribute and a string representation. */
  ghost function SomeText(): CapturedObject {
    CapturedObject(0x21, 5, [115, 116, 114], 50, NONE, [], [], {}, [([97], 0x24)], [104, 105])
  }

  /** A tuple with a repeated item. */
  ghost function SomeTuple(): CapturedObject {
    CapturedObject(0x22, 2, [116, 117, 112, 108, 101], 64, ContentKind.TUPLE, [0x21, 0x20, 0x21], [], {}, [], [])
  }

  ghost function SomeFrame(): CapturedFrame {
    CapturedFrame([102], 7, [103], [([120], 0x20)])
  }

  ghost function SomeThread(): CapturedThread {
    CapturedThread([119], true, false, [SomeFrame()])
  }

  ghost function SomeKnown(): (known: map<Text, Address>)
    ensures NamesAll(known)
    ensures forall i | 0 <= i < |WELL_KNOWN_TYPE_NAMES| :: known[WELL_KNOWN_TYPE_NAMES[i]] == i + 1
  {
    Collector.KnownByPosition([1, 2, 3, 4, 5, 6, 7, 8, 9, 10, 11, 12, 13]);
    Collector.KnownOf([1, 2, 3, 4, 5, 6, 7, 8, 9, 10, 11, 12, 13])
  }

  ghost function SomeTypes(): map<Address, Text> {
    map[2 := [116, 117, 112, 108, 101], 3 := [100, 105, 99, 116], 5 := [115, 116, 114]]
  }

  ghost function SomeCapture(): Capture {
    Capture(SomeKnown(), [84], true, [SomeThread()], [SomeDict(), SomeText(), SomeTuple()], SomeTypes())
  }

  ghost function SomeHeader(): Octets {
    [0, 0, 0, 0, 0x07, 0x54, 0xD6, 0x01, 0, 0, 0, 1] + ([0, 1, 84] + ([0, 0, 0, 0, 0, 0, 0, 1] + ([0, 0, 0, 13] + (
      [0, 4, 108, 105, 115, 116] + Eight(1) + (
      [0, 5, 116, 117, 112, 108, 101] + Eight(2) + (
      [0, 4, 100, 105, 99, 116] + Eight(3) + (
      [0, 3, 115, 101, 116] + Eight(4) + (
      [0, 3, 115, 116, 114] + Eight(5) + (
      [0, 5, 98, 121, 116, 101, 115] + Eight(6) + (
      [0, 9, 98, 121, 116, 101, 97, 114, 114, 97, 121] + Eight(7) + (
      [0, 3, 105, 110, 116] + Eight(8) + (
      [0, 4, 98, 111, 111, 108] + Eight(9) + (
      [0, 5, 102, 108, 111, 97, 116] + Eight(10) + (
      [0, 6, 111, 98, 106, 101, 99, 116] + Eight(11) + (
      [0, 4, 116, 121, 112, 101] + Eight(12) + (
      [0, 8, 78, 111, 110, 101, 84, 121, 112, 101] + Eight(13)))))))))))))))))
  }

  /** Alive and not a daemon, with one frame with one local. */
  ghost function SomeThreads(): Octets {
    [0, 0, 0, 1] + ([0, 1, 119] + ([1] + ([0] + ([0, 0, 0, 1] + (
      [0, 1, 102] + ([0, 0, 0, 7] + ([0, 1, 103] + ([0, 0, 0, 1] + ([0, 1, 120] + Eight(0x20))))))))))
  }

  /** Address, type, size, one entry, one more referent, no attributes. */
  ghost function SomeDictBytes(): Octets {
    Eight(0x20) + (Eight(3) + ([0, 0, 0, 56] + (
      [0, 0, 0, 1] + (Eight(0x21) + Eight(0x22)) + ([0, 0, 0, 1] + Eight(0x23) + ([0, 0, 0, 0] + [])))))
  }

  /** Address, type, size, no referents, one attribute, the representation. */
  ghost function SomeTextBytes(): Octets {
    Eight(0x21) + (Eight(5) + ([0, 0, 0, 50] + (
      [] + ([0, 0, 0, 0] + ([0, 0, 0, 1] + ([0, 1, 97] + Eight(0x24)) + [0, 2, 104, 105])))))
  }

  /** Address, type, size, three items, no more referents, no attributes. */
  ghost function SomeTupleBytes(): Octets {
    Eight(0x22) + (Eight(2) + ([0, 0, 0, 64] + (
      [0, 0, 0, 3] + (Eight(0x21) + (Eight(0x20) + Eight(0x21))) + ([0, 0, 0, 0] + ([0, 0, 0, 0] + [])))))
  }

  /** Three types in the order of their addresses, and the closing magic value. */
  ghost function SomeFooter(): Octets {
    [0, 0, 0, 3] + (Eight(2) + [0, 5, 116, 117, 112, 108, 101] + (
      Eight(3) + [0, 4, 100, 105, 99, 116] + (Eight(5) + [0, 3, 115, 116, 114]))) +
    [0, 0, 0, 0, 0x07, 0x54, 0xD6, 0x01]
  }

  /** The artifact of this capture, byte by byte: no frequent names, no common types, three objects. */
  ghost function SomeArtifact(): Octets {
    SomeHeader() + (SomeThreads() + ([0, 0, 0, 0] + ([0, 0, 0, 0] + ([0, 0, 0, 3] +
      (SomeDictBytes() + (SomeTextBytes() + (SomeTupleBytes() + [])) + SomeFooter())))))
  }

  lemma EightIs(n: Byte)
    ensures Be(n, 8) == Eight(n) && Be(n, 4) == [0, 0, 0, n]
  {
    BeSmall(n);
  }

  lemma NamedSpelt(name: Octets, i: Byte)
    requires i < |WELL_KNOWN_TYPE_NAMES|
    ensures Named(name, SomeKnown(), i) == name + Eight(i + 1)
  {
    hide Be, Ascii, SomeKnown, Eight;
    EightIs(i + 1);
  }

  lemma SomeHeaderSpelt()
    ensures HeaderBytes(SomeKnown(), [84], true) == SomeHeader()
  {
    hide Be, SomeKnown, HeaderBytes, Named, Eight;
    HeaderSpelt(SomeKnown(), [84], true);
    assert [1 / 256, 1 % 256] + [84] == [0, 1, 84];
    SomeNamesSpelt();
  }

  lemma SomeNamesSpelt()
    ensures NamesPart(SomeKnown()) ==
      [0, 4, 108, 105, 115, 116] + Eight(1) + (
      [0, 5, 116, 117, 112, 108, 101] + Eight(2) + (
      [0, 4, 100, 105, 99, 116] + Eight(3) + (
      [0, 3, 115, 101, 116] + Eight(4) + (
      [0, 3, 115, 116, 114] + Eight(5) + (
      [0, 5, 98, 121, 116, 101, 115] + Eight(6) + (
      [0, 9, 98, 121, 116, 101, 97, 114, 114, 97, 121] + Eight(7) + (
      [0, 3, 105, 110, 116] + Eight(8) + (
      [0, 4, 98, 111, 111, 108] + Eight(9) + (
      [0, 5, 102, 108, 111, 97, 116] + Eight(10) + (
      [0, 6, 111, 98, 106, 101, 99, 116] + Eight(11) + (
      [0, 4, 116, 121, 112, 101] + Eight(12) + (
      [0, 8, 78, 111, 110, 101, 84, 121, 112, 101] + Eight(13)))))))))))))
  {
    hide Be, SomeKnown, Named, Eight;
    NamedSpelt([0, 4, 108, 105, 115, 116], 0);
    NamedSpelt([0, 5, 116, 117, 112, 108, 101], 1);
    NamedSpelt([0, 4, 100, 105, 99, 116], 2);
    NamedSpelt([0, 3, 115, 101, 116], 3);
    NamedSpelt([0, 3, 115, 116, 114], 4);
    NamedSpelt([0, 5, 98, 121, 116, 101, 115], 5);
    NamedSpelt([0, 9, 98, 121, 116, 101, 97, 114, 114, 97, 121], 6);
    NamedSpelt([0, 3, 105, 110, 116], 7);
    NamedSpelt([0, 4, 98, 111, 111, 108], 8);
    NamedSpelt([0, 5, 102, 108, 111, 97, 116], 9);
    NamedSpelt([0, 6, 111, 98, 106, 101, 99, 116], 10);
    NamedSpelt([0, 4, 116, 121, 112, 101], 11);
    NamedSpelt([0, 8, 78, 111, 110, 101, 84, 121, 112, 101], 12);
  }

  lemma SmallText(t: Text)
    requires |t| < 256
    ensures TextBytes(t) == [0, |t|] + t && ShortBytes(t) == [0, |t|] + t
  {
    hide TextBytes, ShortBytes;
    TextSpelt(t);
    ShortSpelt(t);
  }

  lemma NoParts()
    ensures CountedBytes([]) == [0, 0, 0, 0]
  {
    BeSmall(0);
  }

  lemma OnePart(a: Octets)
    ensures Concat([a]) == a && CountedBytes([a]) == [0, 0, 0, 1] + a
  {
    hide Be;
    BeSmall(1);
    assert [a][1..] == [];
    assert a + [] == a;
  }

  lemma ThreeParts(a: Octets, b: Octets, c: Octets)
    ensures CountedBytes([a, b, c]) == [0, 0, 0, 3] + (a + (b + c))
  {
    hide Be;
    BeSmall(3);
    var all, rest := [a, b, c], [b, c];
    assert all[1..] == rest && rest[1..] == [c];
    OnePart(c);
    assert Concat(rest) == b + c;
  }

  lemma SomeFrameSpelt()
    ensures FitsFrame(SomeFrame())
    ensures FrameBytes(SomeFrame()) ==
      [0, 1, 102] + ([0, 0, 0, 7] + ([0, 1, 103] + ([0, 0, 0, 1] + ([0, 1, 120] + Eight(0x20)))))
  {
    hide Be, CountedBytes, TextBytes, Eight;
    EightIs(7);
    EightIs(0x20);
    SmallText([102]);
    SmallText([103]);
    SmallText([120]);
    assert [0, 1] + [102] == [0, 1, 102] && [0, 1] + [103] == [0, 1, 103] && [0, 1] + [120] == [0, 1, 120];
    assert NamedAddresses(SomeFrame().locals) == [[0, 1, 120] + Eight(0x20)];
    OnePart([0, 1, 120] + Eight(0x20));
  }

  lemma SomeThreadSpelt()
    ensures FitsThreads([SomeThread()]) && CountedBytes(ThreadParts([SomeThread()])) == SomeThreads()
  {
    hide Be, CountedBytes, TextBytes, Eight, FrameBytes, SomeFrame, FitsFrame;
    SmallText([119]);
    assert [0, 1] + [119] == [0, 1, 119];
    SomeFrameSpelt();
    assert FramesBytes([SomeFrame()]) == [FrameBytes(SomeFrame())];
    OnePart(FrameBytes(SomeFrame()));
    assert ThreadParts([SomeThread()]) == [ThreadBytes(SomeThread())];
    OnePart(ThreadBytes(SomeThread()));
  }

  ghost function SomeContext(): Context {
    Context(KnownRead(SomeKnown()), true, [], {})
  }

  lemma SomeContextIs()
    ensures SomeContext().Valid() && SomeContext().withStrRepr
    ensures var known := SomeContext().known;
            known[Artifact.LIST] == 1 && known[Artifact.TUPLE] == 2 && known[Artifact.DICT] == 3 && known[Artifact.SET] == 4
  {
    hide Ascii, SomeKnown;
    ContainersNamed(SomeKnown());
    assert WELL_KNOWN_TYPE_NAMES[0] == Artifact.LIST && WELL_KNOWN_TYPE_NAMES[1] == Artifact.TUPLE;
    assert WELL_KNOWN_TYPE_NAMES[2] == Artifact.DICT && WELL_KNOWN_TYPE_NAMES[3] == Artifact.SET;
  }

  lemma One(a: Address)
    ensures Ascending({}) == [] && Ascending({a}) == [a]
  {
    hide Ascending;
    UniqueSorted.StrictIsAscending([]);
    UniqueSorted.StrictIsAscending([a]);
    assert SetOf<Address>([]) == {} && SetOf([a]) == {a};
  }

  lemma SomeRest(o: CapturedObject)
    requires o == SomeDict() || o == SomeText() || o == SomeTuple()
    ensures Remaining(o) == if o == SomeDict() then [0x23] else []
  {
    hide Ascending;
    One(0x23);
    var entries: seq<(Address, Address)> := [(0x21, 0x22)];
    assert EntryAddresses(entries) == {0x21, 0x22};
    assert {0x21, 0x23} - EntryAddresses(entries) == {0x23};
    if o == SomeDict() {
      assert o.referents - ContentAddresses(o) == {0x23};
    } else {
      assert o.referents - ContentAddresses(o) == {};
    }
  }

  lemma SomeDictSpelt(c: Context)
    requires c == SomeContext() && c.Valid()
    ensures FitsObject(SomeDict()) && KindAgrees(SomeDict(), c.known)
    ensures ObjectBytes(SomeDict(), c) == SomeDictBytes()
  {
    hide Be, CountedBytes, Ascending, SomeContext, Eight, Remaining;
    SomeContextIs();
    var o := SomeDict();
    EightIs(0x20);
    EightIs(3);
    EightIs(56);
    EightIs(0x21);
    EightIs(0x22);
    EightIs(0x23);
    SomeRest(o);
    assert EntryParts(o.dictContent) == [Eight(0x21) + Eight(0x22)];
    OnePart(Eight(0x21) + Eight(0x22));
    assert AddressParts(Remaining(o)) == [Eight(0x23)];
    OnePart(Eight(0x23));
    assert AttributeParts(o.attributes) == [];
    NoParts();
  }

  lemma SomeTextSpelt(c: Context)
    requires c == SomeContext() && c.Valid()
    ensures FitsObject(SomeText()) && KindAgrees(SomeText(), c.known)
    ensures ObjectBytes(SomeText(), c) == SomeTextBytes()
  {
    hide Be, CountedBytes, Ascending, SomeContext, ShortBytes, TextBytes, Eight, Remaining;
    SomeContextIs();
    var o := SomeText();
    EightIs(0x21);
    EightIs(5);
    EightIs(50);
    EightIs(0x24);
    SomeRest(o);
    assert AddressParts(Remaining(o)) == [];
    NoParts();
    SmallText([97]);
    SmallText(o.strRepr);
    assert [0, 1] + [97] == [0, 1, 97];
    assert AttributeParts(o.attributes) == [[0, 1, 97] + Eight(0x24)];
    OnePart([0, 1, 97] + Eight(0x24));
    assert TextBytes(o.strRepr) == [0, 2, 104, 105];
    assert c.withStrRepr && !IsContainer(o.typeAddress, c.known);
    assert ContentBytes(o) == [] && StringBytes(o, c) == TextBytes(o.strRepr);
  }

  lemma SomeTupleSpelt(c: Context)
    requires c == SomeContext() && c.Valid()
    ensures FitsObject(SomeTuple()) && KindAgrees(SomeTuple(), c.known)
    ensures ObjectBytes(SomeTuple(), c) == SomeTupleBytes()
  {
    hide Be, CountedBytes, Ascending, SomeContext, Eight, Remaining;
    SomeContextIs();
    var o := SomeTuple();
    EightIs(0x20);
    EightIs(0x21);
    EightIs(0x22);
    EightIs(2);
    EightIs(64);
    SomeRest(o);
    assert AddressParts(Remaining(o)) == [];
    NoParts();
    assert AddressParts(o.sequenceContent) == [Eight(0x21), Eight(0x20), Eight(0x21)];
    ThreeParts(Eight(0x21), Eight(0x20), Eight(0x21));
    assert AttributeParts(o.attributes) == [];
  }

  lemma SomeTypesAscend()
    ensures TypePairs(SomeTypes()) == [(2, [116, 117, 112, 108, 101]), (3, [100, 105, 99, 116]), (5, [115, 116, 114])]
  {
    hide Ascending;
    var s: seq<Address> := [2, 3, 5];
    UniqueSorted.StrictIsAscending(s);
    assert SetOf(s) == {2, 3, 5} == SomeTypes().Keys;
  }

  lemma SomeFooterSpelt()
    ensures FooterBytes(SomeTypes()) == SomeFooter()
  {
    hide Be, CountedBytes, TextBytes, Eight;
    SomeTypesAscend();
    MagicSpelt();
    EightIs(2);
    EightIs(3);
    EightIs(5);
    var tuple, dict, str: Text := [116, 117, 112, 108, 101], [100, 105, 99, 116], [115, 116, 114];
    SmallText(tuple);
    SmallText(dict);
    SmallText(str);
    assert [0, 5] + tuple == [0, 5, 116, 117, 112, 108, 101];
    assert [0, 4] + dict == [0, 4, 100, 105, 99, 116] && [0, 3] + str == [0, 3, 115, 116, 114];
    assert TypeParts(TypePairs(SomeTypes())) ==
           [Eight(2) + TextBytes(tuple), Eight(3) + TextBytes(dict), Eight(5) + TextBytes(str)];
    ThreeParts(Eight(2) + TextBytes(tuple), Eight(3) + TextBytes(dict), Eight(5) + TextBytes(str));
  }

  lemma SomeObjectsFit(known: map<Text, Address>)
    requires SomeContext().Valid() && known == SomeContext().known
    ensures FitsObjects([SomeDict(), SomeText(), SomeTuple()], known)
  {
    hide FitsObject, KindAgrees, SomeContext, ObjectBytes, SomeDictBytes, SomeTextBytes, SomeTupleBytes;
    SomeDictSpelt(SomeContext());
    SomeTextSpelt(SomeContext());
    SomeTupleSpelt(SomeContext());
  }

  lemma SomePairsFit()
    ensures FitsNames(KnownPairs(SomeKnown()))
  {
    hide Ascii, SomeKnown;
  }

  lemma SomeCaptureFits()
    ensures Fits(SomeCapture()) && ContextOf(SomeCapture()) == SomeContext() && SomeContext().Valid()
  {
    hide SomeKnown, KnownRead, FitsObjects, FitsThreads, FitsNames, KnownPairs, HasContainers, SomeThread, NamesAll,
         CountedBytes, ThreadParts, SomeThreads;
    SomeContextIs();
    SomeThreadSpelt();
    SomeObjectsFit(SomeContext().known);
    SomePairsFit();
    assert SomeTypes().Keys == {2, 3, 5};
  }

  lemma SomeObjectsSpelt(c: Context)
    requires c == SomeContext() && c.Valid()
    ensures ObjectsBytes([SomeDict(), SomeText(), SomeTuple()], c) ==
            SomeDictBytes() + (SomeTextBytes() + (SomeTupleBytes() + []))
  {
    hide ObjectBytes, SomeContext, SomeDict, SomeText, SomeTuple, SomeDictBytes, SomeTextBytes, SomeTupleBytes;
    SomeDictSpelt(c);
    SomeTextSpelt(c);
    SomeTupleSpelt(c);
    var a, b, d := SomeDict(), SomeText(), SomeTuple();
    assert [a, b, d][1..] == [b, d] && [b, d][1..] == [d] && [d][1..] == [];
  }

  /** The whole artifact, byte by byte, and what a reader makes of these bytes. */
  lemma SomeArtifactSpelt()
    ensures Fits(SomeCapture()) && ArtifactBytes(SomeCapture()) == SomeArtifact()
    ensures ReadArtifact(SomeArtifact()).Ok? && HeapAsWritten(SomeCapture(), ReadArtifact(SomeArtifact()).value)
  {
    SomeCaptureFits();
    hide Be, SomeContext, SomeDictBytes, SomeTextBytes, SomeTupleBytes, SomeThreads, SomeFooter, SomeHeader, SomeTypes,
         SomeKnown, Fits, HeaderBytes, FooterBytes, ObjectsBytes, CountedBytes, ReadArtifact, HeapAsWritten, HeapRead,
         SomeThread, SomeDict, SomeText, SomeTuple, ThreadParts, KnownRead, ContextOf;
    RoundTrip(SomeCapture());
    SomeHeaderSpelt();
    SomeThreadSpelt();
    SomeObjectsSpelt(SomeContext());
    SomeFooterSpelt();
    BeSmall(0);
    BeSmall(3);
  }
}
