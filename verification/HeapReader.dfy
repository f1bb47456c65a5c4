/** The Python artifact reader: a source, and an offset that every read advances. */
module HeapReader {
  import opened GraphTheory
  import opened HeapModel
  import opened Bytes
  import opened Parsing
  import opened Artifact

  /** Items already read, put before what the rest of the list gives. */
  ghost function Resume<T>(items: seq<T>, rest: Parsed<seq<T>>): Parsed<seq<T>> {
    match rest
    case Ok(more, next) => Ok(items + more, next)
    case Failed(error) => Failed(error)
  }

  lemma ResumeNext<T(!new)>(p: Parser<T>, items: seq<T>, n: nat, s: Octets, o: nat)
    requires n > 0
    ensures p(s, o).Ok? ==>
              Resume(items, Many(p, n, s, o)) == Resume(items + [p(s, o).value], Many(p, n - 1, s, p(s, o).next))
    ensures p(s, o).Failed? ==> Resume(items, Many(p, n, s, o)) == Failed(p(s, o).error)
  {
    if p(s, o).Ok? {
      var rest := Many(p, n - 1, s, p(s, o).next);
      if rest.Ok? {
        assert items + ([p(s, o).value] + rest.value) == items + [p(s, o).value] + rest.value;
      }
    }
  }

  lemma ResumeStart<T(!new)>(rest: Parsed<seq<T>>)
    ensures Resume([], rest) == rest
  {
    if rest.Ok? {
      assert [] + rest.value == rest.value;
    }
  }

  lemma ResumeEnd<T(!new)>(p: Parser<T>, items: seq<T>, s: Octets, o: nat)
    ensures Resume(items, Many(p, 0, s, o)) == Ok(items, o)
  {
    assert items + [] == items;
  }

  lemma MapOfNext<K, V>(pairs: seq<(K, V)>, p: (K, V))
    ensures MapOf(pairs + [p]) == MapOf(pairs)[p.0 := p.1]
  {
    assert (pairs + [p])[..|pairs|] == pairs;
  }

  lemma EntriesNext(pairs: seq<(Address, Address)>, p: (Address, Address))
    ensures EntryAddresses(pairs + [p]) == EntryAddresses(pairs) + {p.0, p.1}
  {
  }

  class HeapReader {
    const source: Octets
    var offset: nat

    constructor (source: Octets)
      ensures this.source == source && offset == 0
    {
      this.source := source;
      offset := 0;
    }

    method Unpack(size: nat) returns (r: Parsed<nat>)
      modifies this
      ensures r == ReadBe(size, source, old(offset)) && (r.Ok? ==> offset == r.next)
    {
      if offset + size > |source| {
        return Failed(Truncated);
      }
      var value := FromBe(source[offset..offset + size]);
      offset := offset + size;
      return Ok(value, offset);
    }

    method NextU32() returns (r: Parsed<nat>)
      modifies this
      ensures r == ReadU32(source, old(offset)) && (r.Ok? ==> offset == r.next)
    {
      r := Unpack(4);
    }

    method NextU64() returns (r: Parsed<nat>)
      modifies this
      ensures r == ReadU64(source, old(offset)) && (r.Ok? ==> offset == r.next)
    {
      r := Unpack(8);
    }

    method NextBool() returns (r: Parsed<bool>)
      modifies this
      ensures r == ReadBool(source, old(offset)) && (r.Ok? ==> offset == r.next)
    {
      var b :- Unpack(1);
      return Ok(b.0 != 0, offset);
    }

    method NextI16() returns (r: Parsed<int>)
      modifies this
      ensures r == ReadI16(source, old(offset)) && (r.Ok? ==> offset == r.next)
    {
      var n :- Unpack(2);
      var value: int := if n.0 < 0x8000 then n.0 as int else n.0 as int - 0x1_0000;
      return Ok(value, offset);
    }

    method Slice(length: nat) returns (r: Parsed<Text>)
      modifies this
      ensures r == Take(length, source, old(offset)) && (r.Ok? ==> offset == r.next)
    {
      var end := offset + length;
      if end > |source| {
        return Failed(Truncated);
      }
      var value := source[offset..end];
      offset := end;
      return Ok(value, offset);
    }

    method NextText() returns (r: Parsed<Text>)
      modifies this
      ensures r == ReadText(source, old(offset)) && (r.Ok? ==> offset == r.next)
    {
      var n :- Unpack(2);
      r := Slice(n.0);
    }

    method NextTextAddressMap() returns (r: Parsed<map<Text, Address>>)
      modifies this
      ensures var pairs := Counted(ReadTextAddress, source, old(offset));
              r == (match pairs case Ok(v, next) => Ok(MapOf(v), next) case Failed(e) => Failed(e))
      ensures r.Ok? ==> offset == r.next
    {
      hide FromBe, ReadText, ReadU64, Many;
      var count :- NextU32();
      var result: map<Text, Address> := map[];
      ghost var pairs: seq<(Text, Address)> := [];
      ghost var all := Many(ReadTextAddress, count.0, source, offset);
      ResumeStart(all);
      for i := 0 to count.0
        invariant result == MapOf(pairs)
        invariant all == Resume(pairs, Many(ReadTextAddress, count.0 - i, source, offset))
      {
        ResumeNext(ReadTextAddress, pairs, count.0 - i, source, offset);
        var name :- NextText();
        var address :- NextU64();
        MapOfNext(pairs, (name.0, address.0));
        pairs := pairs + [(name.0, address.0)];
        result := result[name.0 := address.0];
      }
      ResumeEnd(ReadTextAddress, pairs, source, offset);
      return Ok(result, offset);
    }

    method NextAddressTextMap() returns (r: Parsed<map<Address, Text>>)
      modifies this
      ensures var pairs := Counted(ReadAddressText, source, old(offset));
              r == (match pairs case Ok(v, next) => Ok(MapOf(v), next) case Failed(e) => Failed(e))
      ensures r.Ok? ==> offset == r.next
    {
      hide FromBe, ReadText, ReadU64, Many;
      var count :- NextU32();
      var result: map<Address, Text> := map[];
      ghost var pairs: seq<(Address, Text)> := [];
      ghost var all := Many(ReadAddressText, count.0, source, offset);
      ResumeStart(all);
      for i := 0 to count.0
        invariant result == MapOf(pairs)
        invariant all == Resume(pairs, Many(ReadAddressText, count.0 - i, source, offset))
      {
        ResumeNext(ReadAddressText, pairs, count.0 - i, source, offset);
        var address :- NextU64();
        var name :- NextText();
        MapOfNext(pairs, (address.0, name.0));
        pairs := pairs + [(address.0, name.0)];
        result := result[address.0 := name.0];
      }
      ResumeEnd(ReadAddressText, pairs, source, offset);
      return Ok(result, offset);
    }

    method NextTextList() returns (r: Parsed<seq<Text>>)
      modifies this
      ensures r == Counted(ReadText, source, old(offset)) && (r.Ok? ==> offset == r.next)
    {
      hide FromBe, ReadText, Many;
      var count :- NextU32();
      var result := [];
      ghost var all := Many(ReadText, count.0, source, offset);
      ResumeStart(all);
      for i := 0 to count.0
        invariant all == Resume(result, Many(ReadText, count.0 - i, source, offset))
      {
        ResumeNext(ReadText, result, count.0 - i, source, offset);
        var value :- NextText();
        result := result + [value.0];
      }
      ResumeEnd(ReadText, result, source, offset);
      return Ok(result, offset);
    }

    method NextAddressList() returns (r: Parsed<seq<Address>>)
      modifies this
      ensures r == Counted(ReadU64, source, old(offset)) && (r.Ok? ==> offset == r.next)
    {
      hide FromBe, ReadU64, Many;
      var count :- NextU32();
      var result := [];
      ghost var all := Many(ReadU64, count.0, source, offset);
      ResumeStart(all);
      for i := 0 to count.0
        invariant all == Resume(result, Many(ReadU64, count.0 - i, source, offset))
      {
        ResumeNext(ReadU64, result, count.0 - i, source, offset);
        var value :- NextU64();
        result := result + [value.0];
      }
      ResumeEnd(ReadU64, result, source, offset);
      return Ok(result, offset);
    }

    method NextFrame() returns (r: Parsed<Frame>)
      modifies this
      ensures r == ReadFrame(source, old(offset)) && (r.Ok? ==> offset == r.next)
    {
      hide Counted, ReadText, ReadU32;
      var fileName :- NextText();
      var lineNumber :- NextU32();
      var functionName :- NextText();
      var locals :- NextTextAddressMap();
      return Ok(Frame(fileName.0, lineNumber.0, functionName.0, locals.0), offset);
    }

    method NextThread() returns (r: Parsed<Thread>)
      modifies this
      ensures r == ReadThread(source, old(offset)) && (r.Ok? ==> offset == r.next)
    {
      hide FromBe, ReadText, ReadBool, ReadFrame, Many;
      var name :- NextText();
      var isAlive :- NextBool();
      var isDaemon :- NextBool();
      var count :- NextU32();
      var frames := [];
      ghost var all := Many(ReadFrame, count.0, source, offset);
      ResumeStart(all);
      for i := 0 to count.0
        invariant all == Resume(frames, Many(ReadFrame, count.0 - i, source, offset))
      {
        ResumeNext(ReadFrame, frames, count.0 - i, source, offset);
        var frame :- NextFrame();
        frames := frames + [frame.0];
      }
      ResumeEnd(ReadFrame, frames, source, offset);
      return Ok(Thread(name.0, isAlive.0, isDaemon.0, frames), offset);
    }

    method NextThreads() returns (r: Parsed<seq<Thread>>)
      modifies this
      ensures r == Counted(ReadThread, source, old(offset)) && (r.Ok? ==> offset == r.next)
    {
      hide FromBe, ReadThread, Many;
      var count :- NextU32();
      var threads := [];
      ghost var all := Many(ReadThread, count.0, source, offset);
      ResumeStart(all);
      for i := 0 to count.0
        invariant all == Resume(threads, Many(ReadThread, count.0 - i, source, offset))
      {
        ResumeNext(ReadThread, threads, count.0 - i, source, offset);
        var thread :- NextThread();
        threads := threads + [thread.0];
      }
      ResumeEnd(ReadThread, threads, source, offset);
      return Ok(threads, offset);
    }

    method NextAttributeName(frequent: seq<Text>) returns (r: Parsed<Text>)
      modifies this
      ensures r == ReadAttributeName(frequent, source, old(offset)) && (r.Ok? ==> offset == r.next)
    {
      hide Take, ReadI16;
      var lengthOrIndex :- NextI16();
      if lengthOrIndex.0 >= 0 {
        r := Slice(lengthOrIndex.0);
        return;
      }
      var index := -(lengthOrIndex.0 + 1);
      if index >= |frequent| {
        return Failed(Malformed);
      }
      return Ok(frequent[index], offset);
    }

    /** Attributes are read past; nothing of them is kept. */
    method SkipAttributes(frequent: seq<Text>) returns (r: Parsed<()>)
      modifies this
      ensures var all := Counted(Attribute(frequent), source, old(offset));
              r == (match all case Ok(_, next) => Ok((), next) case Failed(e) => Failed(e))
      ensures r.Ok? ==> offset == r.next
    {
      hide FromBe, ReadAttributeName, ReadU64, Many;
      var count :- NextU32();
      ghost var items: seq<(Text, Address)> := [];
      ghost var all := Many(Attribute(frequent), count.0, source, offset);
      ResumeStart(all);
      for i := 0 to count.0
        invariant all == Resume(items, Many(Attribute(frequent), count.0 - i, source, offset))
      {
        ResumeNext(Attribute(frequent), items, count.0 - i, source, offset);
        var name :- NextAttributeName(frequent);
        var value :- NextU64();
        items := items + [(name.0, value.0)];
      }
      ResumeEnd(Attribute(frequent), items, source, offset);
      return Ok((), offset);
    }

    method NextCommonTypes(frequent: seq<Text>) returns (r: Parsed<set<Address>>)
      modifies this
      ensures var all := Counted(CommonType(frequent), source, old(offset));
              r == (match all case Ok(v, next) => Ok(SetOf(v), next) case Failed(e) => Failed(e))
      ensures r.Ok? ==> offset == r.next
    {
      hide FromBe, Attribute, ReadU64, Many;
      var count :- NextU32();
      var result: set<Address> := {};
      ghost var items: seq<Address> := [];
      ghost var all := Many(CommonType(frequent), count.0, source, offset);
      ResumeStart(all);
      for i := 0 to count.0
        invariant result == SetOf(items)
        invariant all == Resume(items, Many(CommonType(frequent), count.0 - i, source, offset))
      {
        ResumeNext(CommonType(frequent), items, count.0 - i, source, offset);
        var address :- NextU64();
        var skipped :- SkipAttributes(frequent);
        items := items + [address.0];
        result := result + {address.0};
      }
      ResumeEnd(CommonType(frequent), items, source, offset);
      return Ok(result, offset);
    }

    method NextContent(typeAddress: Address, known: map<Text, Address>) returns (r: Parsed<(Content, set<Address>)>)
      requires HasContainers(known)
      modifies this
      ensures r == ReadContent(typeAddress, known, source, old(offset)) && (r.Ok? ==> offset == r.next)
    {
      if typeAddress == known[DICT] {
        r := NextEntries();
        return;
      }
      if typeAddress in {known[LIST], known[TUPLE], known[SET]} {
        hide Counted;
        var values :- NextAddressList();
        var referents := SetOf(values.0);
        if typeAddress == known[TUPLE] {
          return Ok((TupleContent(values.0), referents), offset);
        }
        if typeAddress == known[SET] {
          return Ok((SetContent(SetOf(values.0)), referents), offset);
        }
        return Ok((ListContent(values.0), referents), offset);
      }
      return Ok((NoContent, {}), offset);
    }

    method NextEntries() returns (r: Parsed<(Content, set<Address>)>)
      modifies this
      ensures var all := Counted(ReadAddressPair, source, old(offset));
              r == (match all
                    case Ok(v, next) => Ok((DictContent(MapOf(v)), EntryAddresses(v)), next)
                    case Failed(e) => Failed(e))
      ensures r.Ok? ==> offset == r.next
    {
      hide FromBe, ReadU64, Many;
      var count :- NextU32();
      var content: map<Address, Address> := map[];
      var referents: set<Address> := {};
      ghost var pairs: seq<(Address, Address)> := [];
      ghost var all := Many(ReadAddressPair, count.0, source, offset);
      ResumeStart(all);
      for i := 0 to count.0
        invariant content == MapOf(pairs) && referents == EntryAddresses(pairs)
        invariant all == Resume(pairs, Many(ReadAddressPair, count.0 - i, source, offset))
      {
        ResumeNext(ReadAddressPair, pairs, count.0 - i, source, offset);
        var key :- NextU64();
        var value :- NextU64();
        MapOfNext(pairs, (key.0, value.0));
        EntriesNext(pairs, (key.0, value.0));
        pairs := pairs + [(key.0, value.0)];
        content := content[key.0 := value.0];
        referents := referents + {key.0, value.0};
      }
      ResumeEnd(ReadAddressPair, pairs, source, offset);
      return Ok((DictContent(content), referents), offset);
    }

    method NextObject(c: Context) returns (r: Parsed<HeapObject>)
      requires c.Valid()
      modifies this
      ensures r == ReadObject(c, source, old(offset)) && (r.Ok? ==> offset == r.next)
    {
      hide ReadU64, ReadU32, ReadContent, Counted, ReadText, Attribute;
      var address :- NextU64();
      var typeAddress :- NextU64();
      var size :- NextU32();
      var content :- NextContent(typeAddress.0, c.known);
      var referents :- NextAddressList();
      if typeAddress.0 !in c.common {
        var skipped :- SkipAttributes(c.frequent);
      }
      var stringOffset: Option<nat> := None;
      if c.withStrRepr && !IsContainer(typeAddress.0, c.known) {
        stringOffset := Some(offset);
        var skipped :- NextText();
      }
      return Ok(HeapObject(address.0, typeAddress.0, size.0, SetOf(referents.0) + content.0.1, content.0.0, stringOffset),
                offset);
    }

    method NextObjects(c: Context) returns (r: Parsed<map<Address, HeapObject>>)
      requires c.Valid()
      modifies this
      ensures var n := ReadU32(source, old(offset));
              r == (match n
                    case Ok(count, next) => ReadObjects(c, count, map[], source, next)
                    case Failed(e) => Failed(e))
      ensures r.Ok? ==> offset == r.next
    {
      hide FromBe, ReadObject;
      var count :- NextU32();
      var result: map<Address, HeapObject> := map[];
      ghost var all := ReadObjects(c, count.0, result, source, offset);
      for i := 0 to count.0
        invariant all == ReadObjects(c, count.0 - i, result, source, offset)
      {
        var obj :- NextObject(c);
        if obj.0.address in result {
          return Failed(Malformed);
        }
        result := result[obj.0.address := obj.0];
      }
      return Ok(result, offset);
    }

    method NextHeader() returns (r: Parsed<Header>)
      modifies this
      ensures r == ReadHeader(source, old(offset)) && (r.Ok? ==> offset == r.next)
    {
      hide ReadU64, ReadU32, ReadText, Counted;
      var magic :- NextU64();
      if magic.0 != MAGIC {
        return Failed(Malformed);
      }
      var version :- NextU32();
      if version.0 != FORMAT_VERSION {
        return Failed(Malformed);
      }
      var createdAt :- NextText();
      var flags :- NextU64();
      var known :- NextTextAddressMap();
      return Ok(Header(version.0, createdAt.0, flags.0 % 2 == 1, known.0), offset);
    }

    method NextObjectSection(header: Header) returns (r: Parsed<map<Address, HeapObject>>)
      modifies this
      ensures r == ReadObjectSection(header, source, old(offset)) && (r.Ok? ==> offset == r.next)
    {
      hide ReadU32, ReadObjects, Counted, CommonType, ReadText;
      var frequent :- NextTextList();
      var common :- NextCommonTypes(frequent.0);
      if !HasContainers(header.wellKnownTypes) {
        return Failed(MissingKey);
      }
      r := NextObjects(Context(header.wellKnownTypes, header.withStrRepr, frequent.0, common.0));
    }

    /** The whole artifact: it is accepted exactly as the format demands, and consumed to its last byte. */
    method Read() returns (r: Parsed<Heap>)
      requires offset == 0
      modifies this
      ensures r == ReadArtifact(source)
      ensures r.Ok? ==> offset == |source|
    {
      hide ReadHeader, Counted, ReadObjectSection, ReadU64, ReadThread;
      var header :- NextHeader();
      var threads :- NextThreads();
      var objects :- NextObjectSection(header.0);
      var types :- NextAddressTextMap();
      var todo := objects.0.Keys;
      while todo != {}
        invariant todo <= objects.0.Keys
        invariant forall a | a in objects.0.Keys - todo :: objects.0[a].typeAddress in types.0
      {
        var address :| address in todo;
        todo := todo - {address};
        if objects.0[address].typeAddress !in types.0 {
          assert !TypesKnown(objects.0, types.0);
          return Failed(Malformed);
        }
      }
      var magic :- NextU64();
      if magic.0 != MAGIC {
        return Failed(Malformed);
      }
      if offset != |source| {
        return Failed(Malformed);
      }
      return Ok(Heap(header.0, threads.0, objects.0, types.0), offset);
    }
  }
}
