/**
 * The Go artifact reader. It keeps objects in a slice in file order, with sorted referents and an index by
 * address, where the Python reader keeps a dictionary. Its primitive reads are those of `HeapReader`.
 */
module GoReader {
  import opened GraphTheory
  import opened HeapModel
  import opened Bytes
  import opened Parsing
  import opened Artifact
  import opened HeapReader
  import opened ArtifactEncoding
  import UniqueSorted

  datatype ContentKind = ContentNone | ContentDict | ContentList | ContentSet | ContentTuple

  datatype GoContent = GoContent(kind: ContentKind, sequence: seq<Address>, dict: seq<(Address, Address)>)

  datatype Record = Record(address: Address, typeAddress: Address, size: nat, referents: seq<Address>,
                           content: GoContent, stringOffset: int)

  datatype GoArtifact = GoArtifact(header: Header, threads: seq<Thread>, records: seq<Record>,
                                   byAddress: map<Address, nat>, types: map<Address, Text>)

  /** The same content as the Python reader's. */
  ghost predicate SameContent(g: GoContent, p: Content) {
    match p
    case NoContent => g == GoContent(ContentNone, [], [])
    case DictContent(entries) => g.kind == ContentDict && g.sequence == [] && entries == MapOf(g.dict)
    case ListContent(items) => g == GoContent(ContentList, items, [])
    case TupleContent(items) => g == GoContent(ContentTuple, items, [])
    case SetContent(members) => g == GoContent(ContentSet, Ascending(members), [])
  }

  /** The header gives sets and tuples one address: Python then takes the object for a tuple, Go for a set. */
  predicate Ambiguous(typeAddress: Address, known: map<Text, Address>)
    requires HasContainers(known)
  {
    typeAddress == known[SET] == known[TUPLE] && typeAddress != known[DICT]
  }

  /** Go's content against Python's: the same, but a set where Python takes an ambiguous object for a tuple. */
  ghost predicate ReadsAs(g: GoContent, p: Content, typeAddress: Address, known: map<Text, Address>)
    requires HasContainers(known)
  {
    if Ambiguous(typeAddress, known) then p.TupleContent? && g == GoContent(ContentSet, Ascending(SetOf(p.items)), [])
    else SameContent(g, p)
  }

  /** The contents of an object agree exactly unless it is ambiguous. */
  lemma SameUnlessAmbiguous(g: GoContent, p: Content, typeAddress: Address, known: map<Text, Address>)
    requires HasContainers(known) && ReadsAs(g, p, typeAddress, known)
    ensures SameContent(g, p) <==> !Ambiguous(typeAddress, known)
  {
    hide Ascending;
  }

  ghost predicate SameRecord(g: Record, p: HeapObject) {
    && g.address == p.address && g.typeAddress == p.typeAddress && g.size == p.size
    && g.referents == Ascending(p.referents)
    && g.stringOffset == if p.stringOffset.Some? then p.stringOffset.value else -1
  }

  /** The records are the objects, each under its address, in the order they were read. */
  ghost predicate SameRecords(records: seq<Record>, byAddress: map<Address, nat>, known: map<Text, Address>,
                              objects: map<Address, HeapObject>)
    requires HasContainers(known)
  {
    && byAddress.Keys == objects.Keys
    && (forall i | 0 <= i < |records| :: RecordAt(records, i, byAddress, known, objects))
    && forall a | a in byAddress :: byAddress[a] < |records| && records[byAddress[a]].address == a
  }

  ghost predicate RecordAt(records: seq<Record>, i: nat, byAddress: map<Address, nat>, known: map<Text, Address>,
                           objects: map<Address, HeapObject>)
    requires i < |records| && HasContainers(known)
  {
    var a := records[i].address;
    && a in objects && SameRecord(records[i], objects[a]) && a in byAddress && byAddress[a] == i
    && ReadsAs(records[i].content, objects[a].content, records[i].typeAddress, known)
  }

  ghost predicate SameArtifact(g: GoArtifact, p: Heap) {
    && g.header == p.header && g.threads == p.threads && g.types == p.types
    && HasContainers(p.header.wellKnownTypes)
    && SameRecords(g.records, g.byAddress, p.header.wellKnownTypes, p.objects)
  }

  lemma SameParts(g: GoArtifact, p: Heap)
    requires g.header == p.header && g.threads == p.threads && g.types == p.types
    requires HasContainers(p.header.wellKnownTypes)
    requires SameRecords(g.records, g.byAddress, p.header.wellKnownTypes, p.objects)
    ensures SameArtifact(g, p)
  {
  }

  lemma TypesAgree(records: seq<Record>, byAddress: map<Address, nat>, known: map<Text, Address>,
                   objects: map<Address, HeapObject>, types: map<Address, Text>)
    requires HasContainers(known) && SameRecords(records, byAddress, known, objects)
    ensures (forall i | 0 <= i < |records| :: records[i].typeAddress in types) <==> TypesKnown(objects, types)
  {
    hide HasContainers, ReadsAs, RecordAt;
    forall a | a in objects
      ensures var i := byAddress[a]; i < |records| && records[i].typeAddress == objects[a].typeAddress
    {
      RecordTyped(records, byAddress[a], byAddress, known, objects);
    }
    forall i | 0 <= i < |records|
      ensures records[i].address in objects && objects[records[i].address].typeAddress == records[i].typeAddress
    {
      RecordTyped(records, i, byAddress, known, objects);
    }
  }

  lemma RecordTyped(records: seq<Record>, i: nat, byAddress: map<Address, nat>, known: map<Text, Address>,
                    objects: map<Address, HeapObject>)
    requires HasContainers(known) && SameRecords(records, byAddress, known, objects) && i < |records|
    ensures records[i].address in objects && objects[records[i].address].typeAddress == records[i].typeAddress
  {
    hide HasContainers, ReadsAs;
    assert RecordAt(records, i, byAddress, known, objects);
  }

  lemma RecordsNext(records: seq<Record>, byAddress: map<Address, nat>, known: map<Text, Address>,
                    objects: map<Address, HeapObject>, g: Record, p: HeapObject)
    requires HasContainers(known) && SameRecords(records, byAddress, known, objects)
    requires SameRecord(g, p) && ReadsAs(g.content, p.content, g.typeAddress, known)
    requires g.address !in byAddress
    ensures SameRecords(records + [g], byAddress[g.address := |records|], known, objects[p.address := p])
  {
    hide ReadsAs, SameRecord;
    var records', byAddress', objects' := records + [g], byAddress[g.address := |records|], objects[p.address := p];
    assert g.address == p.address by {
      SameAddress(g, p);
    }
    forall i | 0 <= i < |records'| ensures RecordAt(records', i, byAddress', known, objects') {
      if i < |records| {
        assert RecordAt(records, i, byAddress, known, objects);
      }
    }
  }

  lemma SameAddress(g: Record, p: HeapObject)
    requires SameRecord(g, p)
    ensures g.address == p.address
  {
  }

  lemma PairReferentsNext(pairs: seq<(Address, Address)>, referents: seq<Address>, p: (Address, Address))
    requires SetOf(referents) == EntryAddresses(pairs)
    ensures SetOf(referents + [p.0, p.1]) == EntryAddresses(pairs + [p])
  {
    EntriesNext(pairs, p);
  }

  class GoReader {
    const input: HeapReader

    constructor (source: Octets)
      ensures fresh(input) && input.source == source && input.offset == 0
    {
      input := new HeapReader(source);
    }

    /** `values` is the slice that is handed over; its array is sorted and compacted. */
    method Unique(values: seq<Address>) returns (unique: seq<Address>)
      ensures unique == Ascending(SetOf(values))
    {
      hide Ascending;
      var slice := new Address[|values|](i requires 0 <= i < |values| => values[i]);
      assert slice[..] == values;
      var length := UniqueSorted.UniqueSorted(slice);
      unique := slice[..length];
    }

    method Dictionary() returns (r: Parsed<(seq<(Address, Address)>, seq<Address>)>)
      modifies input
      ensures var all := Counted(ReadAddressPair, input.source, old(input.offset));
              && (all.Failed? ==> r.Failed?)
              && (all.Ok? ==> r.Ok? && r.value.0 == all.value && r.next == all.next == input.offset)
      ensures r.Ok? ==> SetOf(r.value.1) == EntryAddresses(r.value.0)
    {
      hide FromBe, ReadU64, Many, EntryAddresses, SetOf;
      var count :- input.NextU32();
      var entries: seq<(Address, Address)>, referents: seq<Address> := [], [];
      ghost var all := Many(ReadAddressPair, count.0, input.source, input.offset);
      ResumeStart(all);
      assert SetOf(referents) == EntryAddresses(entries) by {
        NoEntries();
      }
      for i := 0 to count.0
        invariant SetOf(referents) == EntryAddresses(entries)
        invariant all == Resume(entries, Many(ReadAddressPair, count.0 - i, input.source, input.offset))
      {
        ResumeNext(ReadAddressPair, entries, count.0 - i, input.source, input.offset);
        var key :- input.NextU64();
        var value :- input.NextU64();
        PairReferentsNext(entries, referents, (key.0, value.0));
        entries := entries + [(key.0, value.0)];
        referents := referents + [key.0, value.0];
      }
      ResumeEnd(ReadAddressPair, entries, input.source, input.offset);
      return Ok((entries, referents), input.offset);
    }

    /** The content of a container, and its addresses as they stand in it. */
    method Content(typeAddress: Address, known: map<Text, Address>) returns (r: Parsed<(GoContent, seq<Address>)>)
      requires HasContainers(known)
      modifies input
      ensures var p := ReadContent(typeAddress, known, input.source, old(input.offset));
              && (p.Failed? ==> r.Failed?)
              && (p.Ok? ==> r.Ok? && r.next == p.next == input.offset && SetOf(r.value.1) == p.value.1)
              && (p.Ok? ==> ReadsAs(r.value.0, p.value.0, typeAddress, known))
    {
      hide Counted, Ascending, EntryAddresses, MapOf;
      if typeAddress == known[DICT] {
        var dictionary :- Dictionary();
        return Ok((GoContent(ContentDict, [], dictionary.0.0), dictionary.0.1), input.offset);
      }
      if typeAddress == known[LIST] || typeAddress == known[SET] || typeAddress == known[TUPLE] {
        var values :- input.NextAddressList();
        if typeAddress == known[SET] {
          var unique := Unique(values.0);
          AscendingHolds(SetOf(values.0));
          return Ok((GoContent(ContentSet, unique, []), unique), input.offset);
        }
        if typeAddress == known[TUPLE] {
          return Ok((GoContent(ContentTuple, values.0, []), values.0), input.offset);
        }
        return Ok((GoContent(ContentList, values.0, []), values.0), input.offset);
      }
      return Ok((GoContent(ContentNone, [], []), []), input.offset);
    }

    method Object(c: Context) returns (r: Parsed<Record>)
      requires c.Valid()
      modifies input
      ensures var p := ReadObject(c, input.source, old(input.offset));
              && (p.Failed? ==> r.Failed?)
              && (p.Ok? ==> r.Ok? && r.next == p.next == input.offset && SameRecord(r.value, p.value))
              && (p.Ok? ==> ReadsAs(r.value.content, p.value.content, r.value.typeAddress, c.known))
    {
      hide ReadU64, ReadU32, ReadContent, Counted, ReadText, Attribute, Ascending, ReadsAs;
      var address :- input.NextU64();
      var typeAddress :- input.NextU64();
      var size :- input.NextU32();
      var content :- Content(typeAddress.0, c.known);
      var extra :- input.NextAddressList();
      var referents := Unique(extra.0 + content.0.1);
      assert SetOf(extra.0 + content.0.1) == SetOf(extra.0) + SetOf(content.0.1);
      if typeAddress.0 !in c.common {
        var skipped :- input.SkipAttributes(c.frequent);
      }
      var stringOffset: int := -1;
      if c.withStrRepr && !IsContainer(typeAddress.0, c.known) {
        stringOffset := input.offset;
        var skipped :- input.NextText();
      }
      return Ok(Record(address.0, typeAddress.0, size.0, referents, content.0.0, stringOffset), input.offset);
    }

    method Objects(c: Context) returns (r: Parsed<(seq<Record>, map<Address, nat>)>)
      requires c.Valid()
      modifies input
      ensures var n := ReadU32(input.source, old(input.offset));
              && (n.Failed? ==> r.Failed?)
              && (n.Ok? ==>
                    var p := ReadObjects(c, n.value, map[], input.source, n.next);
                    && (p.Failed? ==> r.Failed?)
                    && (p.Ok? ==> r.Ok? && r.next == p.next == input.offset &&
                                  SameRecords(r.value.0, r.value.1, c.known, p.value)))
    {
      hide FromBe, ReadObject, SameRecord, ReadsAs, HasContainers;
      var count :- input.NextU32();
      var records: seq<Record>, byAddress: map<Address, nat> := [], map[];
      ghost var objects: map<Address, HeapObject> := map[];
      ghost var all := ReadObjects(c, count.0, objects, input.source, input.offset);
      for i := 0 to count.0
        invariant all == ReadObjects(c, count.0 - i, objects, input.source, input.offset)
        invariant SameRecords(records, byAddress, c.known, objects)
      {
        hide SameRecords;
        ghost var p := ReadObject(c, input.source, input.offset);
        var obj :- Object(c);
        SameAddress(obj.0, p.value);
        SameKeys(records, byAddress, c.known, objects);
        if obj.0.address in byAddress {
          return Failed(Malformed);
        }
        RecordsNext(records, byAddress, c.known, objects, obj.0, p.value);
        byAddress := byAddress[obj.0.address := |records|];
        records := records + [obj.0];
        objects := objects[p.value.address := p.value];
      }
      return Ok((records, byAddress), input.offset);
    }

    /**
     * The whole artifact. Go accepts exactly what Python accepts, although it looks for the container types,
     * the end of the file and the type names at other points, and its slice of records says the same.
     */
    method Read() returns (r: Parsed<GoArtifact>)
      requires input.offset == 0
      modifies input
      ensures r.Ok? <==> ReadArtifact(input.source).Ok?
      ensures r.Ok? ==> SameArtifact(r.value, ReadArtifact(input.source).value) && input.offset == |input.source|
    {
      hide Counted, ReadObjects, ReadU64, ReadU32, ReadThread, CommonType, ReadText, ReadHeader, MapOf, SameRecords,
           SameArtifact, HasContainers, TypesKnown;
      var header :- input.NextHeader();
      if !HasContainers(header.0.wellKnownTypes) {
        return Failed(Malformed);
      }
      var threads :- input.NextThreads();
      var frequent :- input.NextTextList();
      var common :- input.NextCommonTypes(frequent.0);
      ghost var c := Context(header.0.wellKnownTypes, header.0.withStrRepr, frequent.0, common.0);
      ghost var section := ReadObjectSection(header.0, input.source, threads.1);
      var objects :- Objects(Context(header.0.wellKnownTypes, header.0.withStrRepr, frequent.0, common.0));
      ghost var p := section.value;
      var types :- input.NextAddressTextMap();
      var magic :- input.NextU64();
      if magic.0 != MAGIC {
        return Failed(Malformed);
      }
      if input.offset != |input.source| {
        return Failed(Malformed);
      }
      var records := objects.0.0;
      var known := forall i | 0 <= i < |records| :: records[i].typeAddress in types.0;
      TypesAgree(records, objects.0.1, header.0.wellKnownTypes, p, types.0);
      if !known {
        return Failed(Malformed);
      }
      var artifact := GoArtifact(header.0, threads.0, records, objects.0.1, types.0);
      SameParts(artifact, Heap(header.0, threads.0, p, types.0));
      return Ok(artifact, input.offset);
    }
  }

  lemma SameKeys(records: seq<Record>, byAddress: map<Address, nat>, known: map<Text, Address>,
                 objects: map<Address, HeapObject>)
    requires HasContainers(known) && SameRecords(records, byAddress, known, objects)
    ensures byAddress.Keys == objects.Keys
  {
  }

  lemma NoEntries()
    ensures SetOf<Address>([]) == EntryAddresses([])
  {
  }
}
