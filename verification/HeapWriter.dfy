/** The collector's streaming artifact writer, over a seekable file. */
module HeapWriter {
  import opened GraphTheory
  import opened HeapModel
  import opened Bytes
  import opened Parsing
  import opened Artifact
  import opened CaptureModel
  import opened ArtifactEncoding
  import opened ArtifactRoundTrip

  /** A file opened for binary writing: its bytes and a position. */
  class BinaryFile {
    var bytes: Octets
    var pos: nat

    constructor ()
      ensures bytes == [] && pos == 0
    {
      bytes, pos := [], 0;
    }

    /** Writes over what stands at the position, and past the end if need be. */
    method Write(data: Octets)
      requires pos <= |bytes|
      modifies this
      ensures pos == old(pos) + |data|
      ensures old(pos) == |old(bytes)| ==> bytes == old(bytes) + data
      ensures old(pos) + |data| <= |old(bytes)| ==>
                bytes == old(bytes)[..old(pos)] + data + old(bytes)[old(pos) + |data|..]
      ensures pos <= |bytes|
    {
      var rest := if pos + |data| <= |bytes| then bytes[pos + |data|..] else [];
      bytes := bytes[..pos] + data + rest;
      pos := pos + |data|;
    }

    method Seek(offset: nat)
      requires offset <= |bytes|
      modifies this`pos
      ensures pos == offset
    {
      pos := offset;
    }
  }

  lemma {:induction false} ConcatNext(parts: seq<Octets>, part: Octets)
    ensures Concat(parts + [part]) == Concat(parts) + part
    decreases |parts|
  {
    if parts == [] {
      assert [part][1..] == [];
    } else {
      ConcatNext(parts[1..], part);
      assert (parts + [part])[1..] == parts[1..] + [part];
    }
  }

  lemma {:induction false} ObjectsBytesNext(objects: seq<CapturedObject>, obj: CapturedObject, c: Context)
    requires c.Valid()
    ensures ObjectsBytes(objects + [obj], c) == ObjectsBytes(objects, c) + ObjectBytes(obj, c)
    decreases |objects|
  {
    hide ObjectBytes;
    if objects == [] {
      assert [obj][1..] == [];
    } else {
      ObjectsBytesNext(objects[1..], obj, c);
      assert (objects + [obj])[1..] == objects[1..] + [obj];
    }
  }

  /** A counted list of which the first `i` items have been written. */
  ghost function Partial(before: Octets, parts: seq<Octets>, i: nat): Octets
    requires i <= |parts|
  {
    before + Be(|parts|, 4) + Concat(parts[..i])
  }

  lemma PartialStart(before: Octets, parts: seq<Octets>)
    ensures Partial(before, parts, 0) == before + Be(|parts|, 4)
  {
  }

  lemma PartialNext(before: Octets, parts: seq<Octets>, i: nat)
    requires i < |parts|
    ensures Partial(before, parts, i + 1) == Partial(before, parts, i) + parts[i]
  {
    assert parts[..i + 1] == parts[..i] + [parts[i]];
    ConcatNext(parts[..i], parts[i]);
  }

  lemma PartialAll(before: Octets, parts: seq<Octets>)
    ensures Partial(before, parts, |parts|) == before + CountedBytes(parts)
  {
    assert parts[..|parts|] == parts;
  }

  ghost predicate FitsTypes(types: map<Address, Text>) {
    |types.Keys| <= MAX_UINT32 && forall a | a in types :: Wide(a)
  }

  lemma TypeRows(types: map<Address, Text>)
    ensures |TypeParts(TypePairs(types))| == |Ascending(types.Keys)|
    ensures FitsTypes(types) <==> FitsAddresses(Ascending(types.Keys))
  {
    var addresses := Ascending(types.Keys);
    AscendingHolds(types.Keys);
    forall a | a in types && AllWide(addresses) ensures Wide(a) {
      assert a in SetOf(addresses);
    }
    forall i | FitsTypes(types) && 0 <= i < |addresses| ensures Wide(addresses[i]) {
      assert addresses[i] in SetOf(addresses);
    }
  }

  lemma TypeRow(types: map<Address, Text>, i: nat)
    requires i < |Ascending(types.Keys)|
    ensures var a := Ascending(types.Keys)[i];
            && a in types && |TypeParts(TypePairs(types))| == |Ascending(types.Keys)|
            && TypeParts(TypePairs(types))[i] == Be(a, 8) + TextBytes(types[a])
  {
    hide Be, TextBytes;
    AscendingHolds(types.Keys);
    assert Ascending(types.Keys)[i] in SetOf(Ascending(types.Keys));
  }

  /** The elements of a set in ascending order. */
  method Sorted(s: set<Address>) returns (list: seq<Address>)
    ensures list == Ascending(s)
  {
    list := [];
    var todo := s;
    while todo != {}
      invariant Ascending(s) == list + Ascending(todo)
    {
      LeastExists(todo);
      var m: Address :| m in todo && forall x | x in todo :: m <= x;
      assert Least(todo, m);
      list, todo := list + [m], todo - {m};
    }
  }

  class HeapWriter {
    const file: BinaryFile
    const withStrRepr: bool
    var objectCountOffset: Option<nat>
    var objectCount: nat

    constructor (file: BinaryFile, withStrRepr: bool)
      ensures this.file == file && this.withStrRepr == withStrRepr
      ensures objectCountOffset == None && objectCount == 0
    {
      this.file := file;
      this.withStrRepr := withStrRepr;
      objectCountOffset, objectCount := None, 0;
    }

    /** Everything written so far, with the position behind it. */
    ghost predicate AtEnd()
      reads file
    {
      file.pos == |file.bytes|
    }

    /** The value is written if it fits 32 bits; otherwise nothing is. Inside the file it overwrites four bytes. */
    method WriteU32(value: int) returns (ok: bool)
      requires file.pos <= |file.bytes|
      modifies file
      ensures ok == (0 <= value <= MAX_UINT32) && (!ok ==> file.bytes == old(file.bytes) && file.pos == old(file.pos))
      ensures old(AtEnd()) ==> AtEnd() && file.bytes == old(file.bytes) + if ok then Be(value, 4) else []
      ensures ok && old(file.pos) + 4 <= |old(file.bytes)| ==>
                file.bytes == old(file.bytes)[..old(file.pos)] + Be(value, 4) + old(file.bytes)[old(file.pos) + 4..]
    {
      ok := 0 <= value <= MAX_UINT32;
      if ok {
        file.Write(Be(value, 4));
      }
    }

    method WriteU64(value: nat) returns (ok: bool)
      requires AtEnd()
      modifies file
      ensures AtEnd() && ok == Wide(value)
      ensures file.bytes == old(file.bytes) + if ok then Be(value, 8) else []
    {
      ok := value < U64;
      if ok {
        file.Write(Be(value, 8));
      }
    }

    method WriteLongString(value: Text)
      requires AtEnd()
      modifies file
      ensures AtEnd() && file.bytes == old(file.bytes) + TextBytes(value)
    {
      var encoded := value;
      if |encoded| > MAX_TEXT {
        encoded := encoded[..MAX_TEXT];
      }
      file.Write(Be(|encoded|, 2));
      file.Write(encoded);
    }

    method WriteShortString(value: Text)
      requires AtEnd()
      modifies file
      ensures AtEnd() && file.bytes == old(file.bytes) + ShortBytes(value)
    {
      var encoded := value;
      if |encoded| > MAX_SHORT {
        encoded := encoded[..MAX_SHORT];
      }
      file.Write(Be(|encoded|, 2));
      file.Write(encoded);
    }

    method WriteBool(value: bool)
      requires AtEnd()
      modifies file
      ensures AtEnd() && file.bytes == old(file.bytes) + BoolByte(value)
    {
      file.Write([if value then 1 else 0]);
    }

    method WriteNamedAddress(pair: (Text, Address)) returns (ok: bool)
      requires AtEnd()
      modifies file
      ensures AtEnd() && ok == Wide(pair.1)
      ensures ok ==> file.bytes == old(file.bytes) + NamedAddress(pair)
    {
      hide TextBytes;
      WriteLongString(pair.0);
      ok := WriteU64(pair.1);
    }

    method WriteNames(pairs: seq<(Text, Address)>) returns (ok: bool)
      requires AtEnd()
      modifies file
      ensures AtEnd() && ok == FitsNames(pairs)
      ensures ok ==> file.bytes == old(file.bytes) + CountedBytes(NamedAddresses(pairs))
    {
      hide Partial, NamedAddress, CountedBytes;
      ghost var before, parts := file.bytes, NamedAddresses(pairs);
      ok := WriteU32(|pairs|);
      if !ok {
        return;
      }
      PartialStart(before, parts);
      for i := 0 to |pairs|
        invariant AtEnd() && file.bytes == Partial(before, parts, i)
        invariant forall j | 0 <= j < i :: Wide(pairs[j].1)
      {
        ok := WriteNamedAddress(pairs[i]);
        if !ok {
          return;
        }
        PartialNext(before, parts, i);
      }
      PartialAll(before, parts);
    }

    method WriteFrame(frame: CapturedFrame) returns (ok: bool)
      requires AtEnd()
      modifies file
      ensures AtEnd() && ok == FitsFrame(frame)
      ensures ok ==> file.bytes == old(file.bytes) + FrameBytes(frame)
    {
      hide TextBytes, FitsNames, CountedBytes, NamedAddresses, Be;
      WriteLongString(frame.fileName);
      ok := WriteU32(frame.lineNumber);
      if !ok {
        return;
      }
      WriteLongString(frame.function_);
      ok := WriteNames(frame.locals);
    }

    method WriteThread(thread: CapturedThread) returns (ok: bool)
      requires AtEnd()
      modifies file
      ensures AtEnd() && ok == FitsThread(thread)
      ensures ok ==> file.bytes == old(file.bytes) + ThreadBytes(thread)
    {
      hide TextBytes, BoolByte, Partial, FrameBytes, FitsFrame, CountedBytes, Be;
      var frames := thread.frames;
      WriteLongString(thread.name);
      WriteBool(thread.isAlive);
      WriteBool(thread.isDaemon);
      ghost var before := file.bytes;
      ok := WriteU32(|frames|);
      if !ok {
        return;
      }
      if FitsThread(thread) {
        PartialStart(before, FramesBytes(frames));
      }
      for i := 0 to |frames|
        invariant AtEnd() && forall j | 0 <= j < i :: FitsFrame(frames[j])
        invariant FitsThread(thread) ==> file.bytes == Partial(before, FramesBytes(frames), i)
      {
        ok := WriteFrame(frames[i]);
        if !ok {
          return;
        }
        if FitsThread(thread) {
          PartialNext(before, FramesBytes(frames), i);
        }
      }
      PartialAll(before, FramesBytes(frames));
    }

    /** The thread section. */
    method WriteThreads(threads: seq<CapturedThread>) returns (ok: bool)
      requires AtEnd()
      modifies file
      ensures AtEnd() && ok == FitsThreads(threads)
      ensures ok ==> file.bytes == old(file.bytes) + CountedBytes(ThreadParts(threads))
    {
      hide Partial, ThreadBytes, FitsThread, CountedBytes, Be;
      ghost var before := file.bytes;
      ok := WriteU32(|threads|);
      if !ok {
        return;
      }
      if FitsThreads(threads) {
        PartialStart(before, ThreadParts(threads));
      }
      for i := 0 to |threads|
        invariant AtEnd() && forall j | 0 <= j < i :: FitsThread(threads[j])
        invariant FitsThreads(threads) ==> file.bytes == Partial(before, ThreadParts(threads), i)
      {
        ok := WriteThread(threads[i]);
        if !ok {
          return;
        }
        if FitsThreads(threads) {
          PartialNext(before, ThreadParts(threads), i);
        }
      }
      PartialAll(before, ThreadParts(threads));
    }

    /** The header, refused when the agent left out a well-known type. */
    method WriteHeader(known: map<Text, Address>, createdAt: Text) returns (ok: bool)
      requires AtEnd()
      modifies file
      ensures AtEnd() && ok == (NamesAll(known) && FitsNames(KnownPairs(known)))
      ensures !NamesAll(known) ==> file.bytes == old(file.bytes)
      ensures ok ==> file.bytes == old(file.bytes) + HeaderBytes(known, createdAt, withStrRepr)
    {
      hide TextBytes, CountedBytes, Be, NamedAddresses, FitsNames, Ascii;
      ok := forall i | 0 <= i < |WELL_KNOWN_TYPE_NAMES| :: WELL_KNOWN_TYPE_NAMES[i] in known;
      if !ok {
        return;
      }
      file.Write(Be(MAGIC, 8));
      file.Write(Be(FORMAT_VERSION, 4));
      WriteLongString(createdAt);
      file.Write(Be(if withStrRepr then 1 else 0, 8));
      ok := WriteNames(KnownPairs(known));
    }

    /** Two empty tables, and room for the object count. */
    method BeginObjects()
      requires AtEnd()
      modifies this, file
      ensures AtEnd() && file.bytes == old(file.bytes) + Be(0, 4) + Be(0, 4) + Be(0, 4)
      ensures objectCountOffset == Some(|old(file.bytes)| + 8) && objectCount == old(objectCount)
    {
      hide Be;
      var _ := WriteU32(0);
      var _ := WriteU32(0);
      objectCountOffset := Some(file.pos);
      var _ := WriteU32(0);
    }

    method WriteAddresses(addresses: seq<Address>) returns (ok: bool)
      requires AtEnd()
      modifies file
      ensures AtEnd() && ok == FitsAddresses(addresses)
      ensures ok ==> file.bytes == old(file.bytes) + CountedBytes(AddressParts(addresses))
    {
      hide Partial, CountedBytes, Be;
      ghost var before, parts := file.bytes, AddressParts(addresses);
      ok := WriteU32(|addresses|);
      if !ok {
        return;
      }
      PartialStart(before, parts);
      for i := 0 to |addresses|
        invariant AtEnd() && file.bytes == Partial(before, parts, i)
        invariant forall j | 0 <= j < i :: Wide(addresses[j])
      {
        ok := WriteU64(addresses[i]);
        if !ok {
          return;
        }
        PartialNext(before, parts, i);
      }
      PartialAll(before, parts);
    }

    method WriteEntries(entries: seq<(Address, Address)>) returns (ok: bool)
      requires AtEnd()
      modifies file
      ensures AtEnd() && ok == FitsEntries(entries)
      ensures ok ==> file.bytes == old(file.bytes) + CountedBytes(EntryParts(entries))
    {
      hide Partial, CountedBytes, Be;
      ghost var before, parts := file.bytes, EntryParts(entries);
      ok := WriteU32(|entries|);
      if !ok {
        return;
      }
      PartialStart(before, parts);
      for i := 0 to |entries|
        invariant AtEnd() && file.bytes == Partial(before, parts, i)
        invariant forall j | 0 <= j < i :: Wide(entries[j].0) && Wide(entries[j].1)
      {
        ghost var here := file.bytes;
        ok := WriteU64(entries[i].0);
        if !ok {
          return;
        }
        ok := WriteU64(entries[i].1);
        if !ok {
          return;
        }
        assert file.bytes == here + parts[i];
        PartialNext(before, parts, i);
      }
      PartialAll(before, parts);
    }

    method WriteAttributes(attributes: seq<(Text, Address)>) returns (ok: bool)
      requires AtEnd()
      modifies file
      ensures AtEnd() && ok == FitsNames(attributes)
      ensures ok ==> file.bytes == old(file.bytes) + CountedBytes(AttributeParts(attributes))
    {
      hide Partial, CountedBytes, Be, ShortBytes;
      ghost var before, parts := file.bytes, AttributeParts(attributes);
      ok := WriteU32(|attributes|);
      if !ok {
        return;
      }
      PartialStart(before, parts);
      for i := 0 to |attributes|
        invariant AtEnd() && file.bytes == Partial(before, parts, i)
        invariant forall j | 0 <= j < i :: Wide(attributes[j].1)
      {
        ghost var here := file.bytes;
        WriteShortString(attributes[i].0);
        ok := WriteU64(attributes[i].1);
        if !ok {
          return;
        }
        assert file.bytes == here + parts[i];
        PartialNext(before, parts, i);
      }
      PartialAll(before, parts);
    }

    /** The content that the kind calls for, and the addresses it names. */
    method WriteContent(obj: CapturedObject) returns (ok: bool, containerAddresses: set<Address>)
      requires AtEnd()
      modifies file
      ensures AtEnd() && ok == FitsContent(obj)
      ensures ok ==> file.bytes == old(file.bytes) + ContentBytes(obj) && containerAddresses == ContentAddresses(obj)
    {
      hide CountedBytes, FitsEntries, FitsAddresses, EntryParts, AddressParts;
      ok, containerAddresses := true, {};
      if obj.contentKind.DICT? {
        ok := WriteEntries(obj.dictContent);
        containerAddresses := EntryAddresses(obj.dictContent);
      } else if obj.contentKind.LIST? || obj.contentKind.SET? || obj.contentKind.TUPLE? {
        ok := WriteAddresses(obj.sequenceContent);
        containerAddresses := SetOf(obj.sequenceContent);
      }
    }

    /** What follows the content: the other referents in ascending order, the attributes, the string. */
    method WriteTail(obj: CapturedObject, known: map<Text, Address>, containerAddresses: set<Address>) returns (ok: bool)
      requires AtEnd() && containerAddresses == ContentAddresses(obj)
      modifies file
      ensures AtEnd() && ok == (FitsAddresses(Remaining(obj)) && FitsNames(obj.attributes) && HasContainers(known))
      ensures ok ==> file.bytes == old(file.bytes) + TailBytes(obj, Context(known, withStrRepr, [], {}))
    {
      hide CountedBytes, FitsNames, FitsAddresses, AttributeParts, AddressParts, ContentAddresses, TextBytes;
      var remaining := Sorted(obj.referents - containerAddresses);
      ok := WriteAddresses(remaining);
      if !ok {
        return;
      }
      ok := WriteAttributes(obj.attributes);
      if !ok {
        return;
      }
      ok := HasContainers(known);
      if ok && withStrRepr && !IsContainer(obj.typeAddress, known) {
        WriteLongString(obj.strRepr);
      }
    }

    method WriteObject(obj: CapturedObject, known: map<Text, Address>) returns (ok: bool)
      requires AtEnd()
      modifies this`objectCount, file
      ensures AtEnd() && ok == (objectCountOffset.Some? && FitsObject(obj) && HasContainers(known))
      ensures ok ==> file.bytes == old(file.bytes) + ObjectBytes(obj, Context(known, withStrRepr, [], {}))
      ensures objectCount == old(objectCount) + if ok then 1 else 0
    {
      hide TailBytes, ContentBytes, FitsContent, FitsAddresses, FitsNames, Remaining, ContentAddresses, Be, HasContainers;
      ok := objectCountOffset.Some?;
      if !ok {
        return;
      }
      ok := WriteU64(obj.address);
      if !ok {
        return;
      }
      ok := WriteU64(obj.typeAddress);
      if !ok {
        return;
      }
      var size := if obj.shallowSize > 0 then obj.shallowSize else 0;
      var _ := WriteU32(if size < MAX_UINT32 then size else MAX_UINT32);
      var containerAddresses;
      ok, containerAddresses := WriteContent(obj);
      if !ok {
        return;
      }
      ok := WriteTail(obj, known, containerAddresses);
      if ok {
        objectCount := objectCount + 1;
      }
    }

    method WriteTypes(types: map<Address, Text>) returns (ok: bool)
      requires AtEnd()
      modifies file
      ensures AtEnd() && ok == FitsTypes(types)
      ensures ok ==> file.bytes == old(file.bytes) + CountedBytes(TypeParts(TypePairs(types)))
    {
      hide Partial, CountedBytes, Be, TextBytes, TypeParts, TypePairs, Ascending, FitsTypes;
      ghost var before, parts := file.bytes, TypeParts(TypePairs(types));
      var addresses := Sorted(types.Keys);
      TypeRows(types);
      ok := WriteU32(|addresses|);
      if !ok {
        return;
      }
      PartialStart(before, parts);
      for i := 0 to |addresses|
        invariant AtEnd() && file.bytes == Partial(before, parts, i)
        invariant forall j | 0 <= j < i :: Wide(addresses[j])
      {
        TypeRow(types, i);
        ok := WriteU64(addresses[i]);
        if !ok {
          return;
        }
        WriteLongString(types[addresses[i]]);
        PartialNext(before, parts, i);
      }
      PartialAll(before, parts);
    }

    /** The count is put where room was left for it; the type table and the closing magic go to the end. */
    method Finish(types: map<Address, Text>) returns (ok: bool)
      requires AtEnd()
      requires objectCountOffset.Some? ==> objectCountOffset.value + 4 <= |file.bytes|
      modifies file
      ensures ok == (objectCountOffset.Some? && objectCount <= MAX_UINT32 && FitsTypes(types))
      ensures objectCountOffset.None? ==> file.bytes == old(file.bytes)
      ensures ok ==> AtEnd() && var o := objectCountOffset.value;
                     file.bytes == old(file.bytes)[..o] + Be(objectCount, 4) + old(file.bytes)[o + 4..] + FooterBytes(types)
    {
      hide Be, TypeParts, TypePairs, CountedBytes, FitsTypes;
      ok := objectCountOffset.Some?;
      if !ok {
        return;
      }
      var endOffset := file.pos;
      file.Seek(objectCountOffset.value);
      ok := WriteU32(objectCount);
      if !ok {
        return;
      }
      file.Seek(endOffset);
      ok := WriteTypes(types);
      if !ok {
        return;
      }
      file.Write(Be(MAGIC, 8));
    }
  }

  /** Names beyond the well-known ones do not matter to an object's bytes. */
  lemma SameObjectBytes(obj: CapturedObject, known: map<Text, Address>, withStrRepr: bool)
    requires NamesAll(known)
    ensures HasContainers(known) && HasContainers(KnownRead(known))
    ensures ObjectBytes(obj, Context(known, withStrRepr, [], {})) ==
            ObjectBytes(obj, Context(KnownRead(known), withStrRepr, [], {}))
  {
    hide Ascii, TextBytes, ContentBytes, Be, Remaining, AttributeParts, AddressParts, CountedBytes;
    ContainersNamed(known);
  }

  ghost predicate FitObjects(objects: seq<CapturedObject>) {
    forall i | 0 <= i < |objects| :: FitsObject(objects[i])
  }

  ghost predicate Writable(cap: Capture) {
    && NamesAll(cap.known) && FitsNames(KnownPairs(cap.known)) && FitsThreads(cap.threads)
    && FitObjects(cap.objects) && |cap.objects| <= MAX_UINT32 && FitsTypes(cap.types)
  }

  lemma FitsIsWritable(cap: Capture)
    requires Fits(cap)
    ensures Writable(cap)
  {
    hide FitsThreads, FitsObject, KnownRead, HasContainers, KindAgrees, NamesAll, FitsNames, KnownPairs;
  }

  /** The object section, one object after the other. */
  method WriteObjects(writer: HeapWriter, objects: seq<CapturedObject>, known: map<Text, Address>) returns (ok: bool)
    requires writer.AtEnd() && writer.objectCountOffset.Some? && writer.objectCount == 0 && NamesAll(known)
    modifies writer`objectCount, writer.file
    ensures writer.AtEnd() && ok == FitObjects(objects) && HasContainers(KnownRead(known))
    ensures ok ==> writer.objectCount == |objects|
    ensures ok ==>
              writer.file.bytes == old(writer.file.bytes) +
                ObjectsBytes(objects, Context(KnownRead(known), writer.withStrRepr, [], {}))
  {
    hide NamesAll, KnownRead, HasContainers, FitsObject, ObjectBytes;
    ContainersNamed(known);
    ghost var start, c := writer.file.bytes, Context(KnownRead(known), writer.withStrRepr, [], {});
    for i := 0 to |objects|
      invariant writer.AtEnd() && writer.objectCount == i && forall j | 0 <= j < i :: FitsObject(objects[j])
      invariant writer.file.bytes == start + ObjectsBytes(objects[..i], c)
    {
      SameObjectBytes(objects[i], known, writer.withStrRepr);
      ok := writer.WriteObject(objects[i], known);
      if !ok {
        return;
      }
      assert objects[..i + 1] == objects[..i] + [objects[i]];
      ObjectsBytesNext(objects[..i], objects[i], c);
    }
    assert objects[..|objects|] == objects;
    ok := true;
  }

  /**
   * A whole capture, in the order the collector writes it. The object count, left open at first, ends up
   * in place, so that the finished file reads back as the capture.
   */
  method WriteArtifact(cap: Capture) returns (file: BinaryFile, ok: bool)
    ensures ok == Writable(cap)
    ensures Fits(cap) ==> ok && file.bytes == ArtifactBytes(cap)
    ensures Fits(cap) ==> ReadArtifact(file.bytes) == Ok(HeapRead(cap), |file.bytes|)
  {
    hide NamesAll, FitsNames, KnownPairs, KnownRead, HasContainers, FitsThreads, FitObjects, FitsTypes, HeaderBytes,
         CountedBytes, ObjectsBytes, FooterBytes, ThreadParts, Be, FitsObjects, HeapRead, ReadArtifact, Fits;
    if Fits(cap) {
      FitsIsWritable(cap);
      RoundTrip(cap);
    }
    file := new BinaryFile();
    var writer := new HeapWriter(file, cap.withStrRepr);
    ok := writer.WriteHeader(cap.known, cap.createdAt);
    if !ok {
      return;
    }
    ok := writer.WriteThreads(cap.threads);
    if !ok {
      return;
    }
    ghost var head := file.bytes;
    writer.BeginObjects();
    ghost var begun := file.bytes;
    ok := WriteObjects(writer, cap.objects, cap.known);
    if !ok {
      return;
    }
    ghost var objects := ObjectsBytes(cap.objects, ContextOf(cap));
    assert file.bytes == begun + objects;
    ok := writer.Finish(cap.types);
    if ok && Fits(cap) {
      CountFilledIn(head, Be(0, 4), Be(|cap.objects|, 4), objects, FooterBytes(cap.types));
      ArtifactInOrder(cap);
    }
  }

  lemma CountFilledIn(head: Octets, zero: Octets, count: Octets, objects: Octets, footer: Octets)
    requires |zero| == 4
    ensures var o, written := |head| + 8, head + zero + zero + zero + objects;
            written[..o] + count + written[o + 4..] + footer
            == head + (zero + (zero + (count + (objects + footer))))
  {
    var o, written := |head| + 8, head + zero + zero + zero + objects;
    assert written[..o] == head + zero + zero;
    assert written[o + 4..] == objects;
  }

  lemma ArtifactInOrder(cap: Capture)
    requires Fits(cap)
    ensures ArtifactBytes(cap) == HeaderBytes(cap.known, cap.createdAt, cap.withStrRepr) +
              CountedBytes(ThreadParts(cap.threads)) + (Be(0, 4) + (Be(0, 4) + (Be(|cap.objects|, 4) +
                (ObjectsBytes(cap.objects, ContextOf(cap)) + FooterBytes(cap.types)))))
  {
    hide FitsNames, KnownPairs, KnownRead, HasContainers, FitsThreads, HeaderBytes,
         CountedBytes, ObjectsBytes, FooterBytes, ThreadParts, Be, FitsObjects;
  }
}
