/**
 * The artifact format allows what its writer does not do: a table of frequent attribute names, referred to by index,
 * and a table of common types, whose objects come without attributes. A reader makes the same of an object section
 * however it uses these tables.
 */
module Compression {
  import opened GraphTheory
  import opened HeapModel
  import opened Bytes
  import opened Parsing
  import opened Artifact
  import opened CaptureModel
  import opened ReadBack
  import opened ArtifactEncoding
  import opened ArtifactRoundTrip

  /** An attribute in either form: with its name in full, or with the index of the name. */
  ghost predicate Codes(part: Octets, attribute: (Text, Address), frequent: seq<Text>) {
    && Wide(attribute.1)
    && (|| part == ShortBytes(attribute.0) + Be(attribute.1, 8)
        || exists k :: 0 <= k < |frequent| && k <= 32767 && frequent[k] == attribute.0 &&
                       part == Indexed(k) + Be(attribute.1, 8))
  }

  /** The index counted down from 65535. */
  function Indexed(k: nat): Octets
    requires k <= 32767
  {
    [255 - k / 256, 255 - k % 256]
  }

  ghost predicate CodesEach(parts: seq<Octets>, attributes: seq<(Text, Address)>, frequent: seq<Text>) {
    && |parts| == |attributes| && |parts| <= MAX_UINT32
    && forall i | 0 <= i < |parts| :: Codes(parts[i], attributes[i], frequent)
  }

  /** What a reader makes of an attribute. */
  ghost function Decoded(part: Octets, attribute: (Text, Address)): (Text, Address) {
    if part == ShortBytes(attribute.0) + Be(attribute.1, 8) then (Cut(attribute.0, MAX_SHORT), attribute.1) else attribute
  }

  lemma CodedAt(part: Octets, attribute: (Text, Address), frequent: seq<Text>, s: Octets, o: nat)
    requires Codes(part, attribute, frequent) && At(s, o, part)
    ensures Attribute(frequent)(s, o) == Ok(Decoded(part, attribute), o + |part|)
  {
    hide ShortBytes, Attribute, Indexed;
    if part == ShortBytes(attribute.0) + Be(attribute.1, 8) {
      AttributeAt(frequent, attribute, s, o);
    } else {
      var k :| 0 <= k < |frequent| && k <= 32767 && frequent[k] == attribute.0 &&
               part == Indexed(k) + Be(attribute.1, 8);
      IndexedAt(frequent, k, attribute.1, s, o);
    }
  }

  lemma IndexedAt(frequent: seq<Text>, k: nat, value: Address, s: Octets, o: nat)
    requires k < |frequent| && k <= 32767 && Wide(value) && At(s, o, Indexed(k) + Be(value, 8))
    ensures Attribute(frequent)(s, o) == Ok((frequent[k], value), o + |Indexed(k) + Be(value, 8)|)
  {
    hide Be, FromBe;
    AtSplit(s, o, Indexed(k), Be(value, 8));
    FromBeTwo(255 - k / 256, 255 - k % 256);
    Powers();
    ReadBeAt(8, value, s, o + 2);
  }

  /** Whatever the forms of the attributes, a reader gets past them. */
  lemma CodedAttributesAt(parts: seq<Octets>, attributes: seq<(Text, Address)>, frequent: seq<Text>, s: Octets, o: nat)
    requires CodesEach(parts, attributes, frequent) && At(s, o, CountedBytes(parts))
    ensures var r := Counted(Attribute(frequent), s, o);
            r.Ok? && r.next == o + |CountedBytes(parts)|
  {
    hide Counted, CountedBytes, Codes, Attribute, Decoded;
    var values := seq(|parts|, i requires 0 <= i < |parts| => Decoded(parts[i], attributes[i]));
    forall i, o': nat | 0 <= i < |parts| && At(s, o', parts[i])
      ensures Attribute(frequent)(s, o') == Ok(values[i], o' + |parts[i]|)
    {
      CodedAt(parts[i], attributes[i], frequent, s, o');
    }
    CountedAt(Attribute(frequent), s, o, parts, values);
  }

  // ---------------------------------------------------------------- common types

  /** A common type and the attributes its objects share, in either form. */
  datatype CommonEntry = CommonEntry(address: Address, attributes: seq<(Text, Address)>, parts: seq<Octets>)

  ghost predicate FitsCommon(e: CommonEntry, frequent: seq<Text>) {
    Wide(e.address) && CodesEach(e.parts, e.attributes, frequent)
  }

  function CommonBytes(e: CommonEntry): Octets {
    Be(e.address, 8) + CountedBytes(e.parts)
  }

  lemma CommonAt(e: CommonEntry, frequent: seq<Text>, s: Octets, o: nat)
    requires FitsCommon(e, frequent) && At(s, o, CommonBytes(e))
    ensures CommonType(frequent)(s, o) == Ok(e.address, o + |CommonBytes(e)|)
  {
    hide Counted, CountedBytes, CodesEach;
    AtSplit(s, o, Be(e.address, 8), CountedBytes(e.parts));
    Powers();
    ReadBeAt(8, e.address, s, o);
    CodedAttributesAt(e.parts, e.attributes, frequent, s, o + 8);
  }

  ghost predicate FitsCommons(entries: seq<CommonEntry>, frequent: seq<Text>) {
    |entries| <= MAX_UINT32 && forall i | 0 <= i < |entries| :: FitsCommon(entries[i], frequent)
  }

  ghost function CommonParts(entries: seq<CommonEntry>): seq<Octets> {
    seq(|entries|, i requires 0 <= i < |entries| => CommonBytes(entries[i]))
  }

  ghost function CommonAddresses(entries: seq<CommonEntry>): seq<Address> {
    seq(|entries|, i requires 0 <= i < |entries| => entries[i].address)
  }

  lemma CommonsAt(entries: seq<CommonEntry>, frequent: seq<Text>, s: Octets, o: nat)
    requires FitsCommons(entries, frequent) && At(s, o, CountedBytes(CommonParts(entries)))
    ensures Counted(CommonType(frequent), s, o) ==
            Ok(CommonAddresses(entries), o + |CountedBytes(CommonParts(entries))|)
  {
    hide Counted, CountedBytes, FitsCommon, CommonBytes, CommonType;
    var parts := CommonParts(entries);
    forall i, o': nat | 0 <= i < |parts| && At(s, o', parts[i])
      ensures CommonType(frequent)(s, o') == Ok(CommonAddresses(entries)[i], o' + |parts[i]|)
    {
      CommonAt(entries[i], frequent, s, o');
    }
    CountedAt(CommonType(frequent), s, o, parts, CommonAddresses(entries));
  }

  /** The table of frequent names; it holds names of any length that a text can have. */
  ghost function NameParts(frequent: seq<Text>): seq<Octets> {
    seq(|frequent|, i requires 0 <= i < |frequent| => TextBytes(frequent[i]))
  }

  lemma FrequentAt(frequent: seq<Text>, s: Octets, o: nat)
    requires |frequent| <= MAX_UINT32 && forall i | 0 <= i < |frequent| :: |frequent[i]| <= 65535
    requires At(s, o, CountedBytes(NameParts(frequent)))
    ensures Counted(ReadText, s, o) == Ok(frequent, o + |CountedBytes(NameParts(frequent))|)
  {
    hide Counted, CountedBytes, TextBytes, ReadText;
    var parts := NameParts(frequent);
    forall i, o': nat | 0 <= i < |parts| && At(s, o', parts[i])
      ensures ReadText(s, o') == Ok(frequent[i], o' + |parts[i]|)
    {
      ReadTextAt(frequent[i], s, o');
    }
    CountedAt(ReadText, s, o, parts, frequent);
  }

  // ---------------------------------------------------------------- objects

  /** An object and the forms of its attributes. */
  datatype CodedObject = CodedObject(obj: CapturedObject, parts: seq<Octets>)

  ghost predicate FitsCoded(x: CodedObject, c: Context)
    requires c.Valid()
  {
    && FitsObject(x.obj) && KindAgrees(x.obj, c.known)
    && (x.obj.typeAddress in c.common || CodesEach(x.parts, x.obj.attributes, c.frequent))
  }

  /** Objects of common types come without attributes. */
  ghost function AttributesPart(x: CodedObject, c: Context): Octets {
    if x.obj.typeAddress in c.common then [] else CountedBytes(x.parts)
  }

  ghost function CodedTail(x: CodedObject, c: Context): Octets
    requires c.Valid()
  {
    CountedBytes(AddressParts(Remaining(x.obj))) + (AttributesPart(x, c) + StringBytes(x.obj, c))
  }

  ghost function CodedBytes(x: CodedObject, c: Context): Octets
    requires c.Valid()
  {
    Be(x.obj.address, 8) + (Be(x.obj.typeAddress, 8) + (Be(Clamp(x.obj.shallowSize), 4) +
      (ContentBytes(x.obj) + CodedTail(x, c))))
  }

  lemma CodedTailAt(x: CodedObject, c: Context, s: Octets, o: nat)
    requires c.Valid() && FitsCoded(x, c) && At(s, o, CodedTail(x, c))
    ensures var r := ReadObjectTail(c, x.obj.typeAddress, s, o);
            r.Ok? && r.next == o + |CodedTail(x, c)| && r.value.0 == Remaining(x.obj)
  {
    hide Counted, CountedBytes, Remaining, Attribute, TextBytes, ReadText, AddressParts, CodesEach, KindAgrees;
    var rest, attributes, text :=
      CountedBytes(AddressParts(Remaining(x.obj))), AttributesPart(x, c), StringBytes(x.obj, c);
    AtSplit(s, o, rest, attributes + text);
    AtSplit(s, o + |rest|, attributes, text);
    AddressesAt(Remaining(x.obj), s, o);
    if x.obj.typeAddress !in c.common {
      CodedAttributesAt(x.parts, x.obj.attributes, c.frequent, s, o + |rest|);
    }
    if text != [] {
      ReadTextAt(x.obj.strRepr, s, o + |rest| + |attributes|);
    } else {
      TextNotEmpty(x.obj.strRepr);
    }
  }

  /** Whatever the tables, an object reads back as it was written. */
  lemma CodedObjectAt(x: CodedObject, c: Context, s: Octets, o: nat)
    requires c.Valid() && FitsCoded(x, c) && At(s, o, CodedBytes(x, c))
    ensures var r := ReadObject(c, s, o);
            r.Ok? && r.next == o + |CodedBytes(x, c)| && ObjectAsWritten(x.obj, r.value)
  {
    hide ContentBytes, CodedTail, ReadContent, ReadObjectTail, Remaining, ContentRead, ContentAddresses, IsContainer,
         TextBytes, KindAgrees, ObjectAsWritten, CodesEach;
    var obj := x.obj;
    var size, content, tail := Be(Clamp(obj.shallowSize), 4), ContentBytes(obj), CodedTail(x, c);
    AtSplit(s, o, Be(obj.address, 8), Be(obj.typeAddress, 8) + (size + (content + tail)));
    AtSplit(s, o + 8, Be(obj.typeAddress, 8), size + (content + tail));
    AtSplit(s, o + 16, size, content + tail);
    AtSplit(s, o + 20, content, tail);
    Powers();
    ReadBeAt(8, obj.address, s, o);
    ReadBeAt(8, obj.typeAddress, s, o + 8);
    ReadBeAt(4, Clamp(obj.shallowSize), s, o + 16);
    ContentAt(obj, c.known, s, o + 20);
    CodedTailAt(x, c, s, o + 20 + |content|);
    RemainingHolds(obj);
    assert SetOf(Remaining(obj)) + ContentAddresses(obj) == obj.referents + ContentAddresses(obj);
    ObjectReadAs(obj, c, o);
    SameButString(obj, ObjectRead(obj, c, o), ReadObject(c, s, o).value);
  }

  lemma SameButString(obj: CapturedObject, a: HeapObject, b: HeapObject)
    requires ObjectAsWritten(obj, a) && b == a.(stringOffset := b.stringOffset)
    ensures ObjectAsWritten(obj, b)
  {
  }

  ghost predicate FitsAllCoded(all: seq<CodedObject>, c: Context)
    requires c.Valid()
  {
    && |all| <= MAX_UINT32 && (forall i | 0 <= i < |all| :: FitsCoded(all[i], c))
    && forall i, j | 0 <= i < j < |all| :: all[i].obj.address != all[j].obj.address
  }

  ghost function AllCodedBytes(all: seq<CodedObject>, c: Context): Octets
    requires c.Valid()
    decreases |all|
  {
    if all == [] then [] else CodedBytes(all[0], c) + AllCodedBytes(all[1..], c)
  }

  ghost function Plainly(all: seq<CodedObject>): seq<CapturedObject> {
    seq(|all|, i requires 0 <= i < |all| => all[i].obj)
  }

  /** What was there before stays, and the objects come on top of it. */
  ghost predicate Added(before: map<Address, HeapObject>, all: seq<CodedObject>, after: map<Address, HeapObject>) {
    && (forall a | a in before :: a in after && after[a] == before[a])
    && (forall a | a in after && a !in before :: exists i :: 0 <= i < |all| && all[i].obj.address == a)
    && forall i | 0 <= i < |all| :: all[i].obj.address in after &&
                                    ObjectAsWritten(all[i].obj, after[all[i].obj.address])
  }

  lemma {:induction false} AllCodedAt(all: seq<CodedObject>, c: Context, before: map<Address, HeapObject>, s: Octets,
                                      o: nat)
    requires c.Valid() && FitsAllCoded(all, c) && At(s, o, AllCodedBytes(all, c))
    requires forall i | 0 <= i < |all| :: all[i].obj.address !in before
    ensures var r := ReadObjects(c, |all|, before, s, o);
            r.Ok? && r.next == o + |AllCodedBytes(all, c)| && Added(before, all, r.value)
    decreases |all|
  {
    hide ReadObject, CodedBytes, FitsCoded, ObjectAsWritten, Added;
    if all == [] {
      NoneAdded(before);
    } else {
      var x, rest := all[0], all[1..];
      AtSplit(s, o, CodedBytes(x, c), AllCodedBytes(rest, c));
      CodedObjectAt(x, c, s, o);
      var read := ReadObject(c, s, o).value;
      AddressAsWritten(x.obj, read);
      forall i | 0 <= i < |rest| ensures rest[i].obj.address !in before[read.address := read] {
        assert rest[i] == all[i + 1];
      }
      AllCodedAt(rest, c, before[read.address := read], s, o + |CodedBytes(x, c)|);
      OneAdded(before, all, read, ReadObjects(c, |all|, before, s, o).value);
    }
  }

  lemma AddressAsWritten(obj: CapturedObject, r: HeapObject)
    requires ObjectAsWritten(obj, r)
    ensures r.address == obj.address
  {
  }

  lemma NoneAdded(before: map<Address, HeapObject>)
    ensures Added(before, [], before)
  {
  }

  lemma OneAdded(before: map<Address, HeapObject>, all: seq<CodedObject>, read: HeapObject,
                 after: map<Address, HeapObject>)
    requires all != [] && read.address == all[0].obj.address && read.address !in before
    requires ObjectAsWritten(all[0].obj, read) && Added(before[read.address := read], all[1..], after)
    ensures Added(before, all, after)
  {
    hide ObjectAsWritten;
    var rest := all[1..];
    forall a | a in after && a !in before ensures exists i :: 0 <= i < |all| && all[i].obj.address == a {
      if a == read.address {
        assert all[0].obj.address == a;
      } else {
        var i :| 0 <= i < |rest| && rest[i].obj.address == a;
        assert all[i + 1].obj.address == a;
      }
    }
    forall i | 0 <= i < |all|
      ensures all[i].obj.address in after && ObjectAsWritten(all[i].obj, after[all[i].obj.address])
    {
      if i > 0 {
        assert all[i] == rest[i - 1];
      } else {
        assert after[read.address] == before[read.address := read][read.address];
      }
    }
  }

  /** The object section with its two tables. */
  ghost function SectionBytes(frequent: seq<Text>, common: seq<CommonEntry>, all: seq<CodedObject>, c: Context): Octets
    requires c.Valid()
  {
    CountedBytes(NameParts(frequent)) + (CountedBytes(CommonParts(common)) + (Be(|all|, 4) + AllCodedBytes(all, c)))
  }

  /**
   * An object section reads back as the objects it was made from, whatever names are in its table of frequent
   * names, whichever attributes refer to it, and whatever types are common.
   */
  lemma SectionReads(header: Header, frequent: seq<Text>, common: seq<CommonEntry>, all: seq<CodedObject>, c: Context,
                     s: Octets, o: nat)
    requires HasContainers(header.wellKnownTypes)
    requires c == Context(header.wellKnownTypes, header.withStrRepr, frequent, SetOf(CommonAddresses(common)))
    requires |frequent| <= MAX_UINT32 && forall i | 0 <= i < |frequent| :: |frequent[i]| <= 65535
    requires FitsCommons(common, frequent) && FitsAllCoded(all, c) && At(s, o, SectionBytes(frequent, common, all, c))
    ensures var r := ReadObjectSection(header, s, o);
            && r.Ok? && r.next == o + |SectionBytes(frequent, common, all, c)|
            && ObjectsAsWritten(Plainly(all), r.value)
  {
    hide Counted, CountedBytes, ReadText, CommonType, ReadObjects, AllCodedBytes, FitsAllCoded, FitsCommons, At,
         HasContainers, NameParts, CommonParts, CommonAddresses, Added, ObjectsAsWritten, SetOf;
    var names, types, objects :=
      CountedBytes(NameParts(frequent)), CountedBytes(CommonParts(common)), AllCodedBytes(all, c);
    var count := Be(|all|, 4);
    AtSplit(s, o, names, types + (count + objects));
    AtSplit(s, o + |names|, types, count + objects);
    AtSplit(s, o + |names| + |types|, count, objects);
    FrequentAt(frequent, s, o);
    CommonsAt(common, frequent, s, o + |names|);
    CodedCount(all, c);
    CountAt(|all|, s, o + |names| + |types|);
    AllCodedAt(all, c, map[], s, o + |names| + |types| + 4);
    OnTopOfNothing(all, ReadObjectSection(header, s, o).value);
  }

  lemma CodedCount(all: seq<CodedObject>, c: Context)
    requires c.Valid() && FitsAllCoded(all, c)
    ensures |all| <= MAX_UINT32
  {
  }

  lemma OnTopOfNothing(all: seq<CodedObject>, r: map<Address, HeapObject>)
    requires Added(map[], all, r)
    ensures ObjectsAsWritten(Plainly(all), r)
  {
    hide ObjectAsWritten;
    forall a | a in r ensures exists i :: 0 <= i < |Plainly(all)| && Plainly(all)[i].address == a {
      var i :| 0 <= i < |all| && all[i].obj.address == a;
      assert Plainly(all)[i].address == a;
    }
  }
}
