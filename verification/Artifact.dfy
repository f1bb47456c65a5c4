/** The PyHeap v1 artifact format, as the analyzer reads it. */
module Artifact {
  import opened GraphTheory
  import opened HeapModel
  import opened Bytes
  import opened Parsing

  const MAGIC: nat := 123_000_321
  const FORMAT_VERSION: nat := 1

  function Ascii(name: string): Text {
    seq(|name|, i requires 0 <= i < |name| => if name[i] < 128 as char then name[i] as int else 0)
  }

  const DICT := Ascii("dict")
  const LIST := Ascii("list")
  const SET := Ascii("set")
  const TUPLE := Ascii("tuple")

  /** Later entries replace earlier ones. */
  function MapOf<K(==), V>(pairs: seq<(K, V)>): map<K, V> {
    if pairs == [] then map[]
    else MapOf(pairs[..|pairs| - 1])[pairs[|pairs| - 1].0 := pairs[|pairs| - 1].1]
  }

  /** The last entry of a key is the one that stays. */
  lemma {:induction false} LastEntryStays<K, V>(pairs: seq<(K, V)>, i: nat)
    requires i < |pairs| && forall j | i < j < |pairs| :: pairs[j].0 != pairs[i].0
    ensures pairs[i].0 in MapOf(pairs) && MapOf(pairs)[pairs[i].0] == pairs[i].1
    decreases |pairs|
  {
    if i < |pairs| - 1 {
      LastEntryStays(pairs[..|pairs| - 1], i);
    }
  }

  /** Every key of the map has an entry that stays. */
  lemma {:induction false} KeyHasEntry<K, V>(pairs: seq<(K, V)>, k: K) returns (i: nat)
    requires k in MapOf(pairs)
    ensures i < |pairs| && pairs[i] == (k, MapOf(pairs)[k]) && forall j | i < j < |pairs| :: pairs[j].0 != k
    decreases |pairs|
  {
    var last := |pairs| - 1;
    if pairs[last].0 == k {
      i := last;
    } else {
      i := KeyHasEntry(pairs[..last], k);
    }
  }

  function SetOf<T(==)>(items: seq<T>): set<T> {
    set x | x in items
  }

  function ReadTextAddress(s: Octets, o: nat): Parsed<(Text, Address)> { ReadPair(ReadText, ReadU64, s, o) }
  function ReadAddressText(s: Octets, o: nat): Parsed<(Address, Text)> { ReadPair(ReadU64, ReadText, s, o) }
  function ReadAddressPair(s: Octets, o: nat): Parsed<(Address, Address)> { ReadPair(ReadU64, ReadU64, s, o) }

  function ReadFrame(s: Octets, o: nat): Parsed<Frame> {
    var (fileName, o) :- ReadText(s, o);
    var (lineNumber, o) :- ReadU32(s, o);
    var (functionName, o) :- ReadText(s, o);
    var (locals, o) :- Counted(ReadTextAddress, s, o);
    Ok(Frame(fileName, lineNumber, functionName, MapOf(locals)), o)
  }

  function ReadThread(s: Octets, o: nat): Parsed<Thread> {
    var (name, o) :- ReadText(s, o);
    var (isAlive, o) :- ReadBool(s, o);
    var (isDaemon, o) :- ReadBool(s, o);
    var (frames, o) :- Counted(ReadFrame, s, o);
    Ok(Thread(name, isAlive, isDaemon, frames), o)
  }

  /** A name in full, or its index in the table of frequent names, counted down from -1. */
  function ReadAttributeName(frequent: seq<Text>, s: Octets, o: nat): Parsed<Text> {
    var (lengthOrIndex, o) :- ReadI16(s, o);
    if lengthOrIndex >= 0 then Take(lengthOrIndex, s, o)
    else
      var index := -(lengthOrIndex + 1);
      if index < |frequent| then Ok(frequent[index], o) else Failed(Malformed)
  }

  function Attribute(frequent: seq<Text>): Parser<(Text, Address)> {
    (s: Octets, o: nat) =>
      var (name, o) :- ReadAttributeName(frequent, s, o);
      var (value, o) :- ReadU64(s, o);
      Ok((name, value), o)
  }

  function CommonType(frequent: seq<Text>): Parser<Address> {
    (s: Octets, o: nat) =>
      var (address, o) :- ReadU64(s, o);
      var (_, o) :- Counted(Attribute(frequent), s, o);
      Ok(address, o)
  }

  predicate HasContainers(known: map<Text, Address>) {
    DICT in known && LIST in known && SET in known && TUPLE in known
  }

  /** The content of a container, and the addresses in it; other objects have none. */
  function ReadContent(typeAddress: Address, known: map<Text, Address>, s: Octets, o: nat)
    : Parsed<(Content, set<Address>)>
    requires HasContainers(known)
  {
    if typeAddress == known[DICT] then
      var (entries, o) :- Counted(ReadAddressPair, s, o);
      Ok((DictContent(MapOf(entries)), EntryAddresses(entries)), o)
    else if typeAddress in {known[LIST], known[TUPLE], known[SET]} then
      var (values, o) :- Counted(ReadU64, s, o);
      var content :=
        if typeAddress == known[TUPLE] then TupleContent(values)
        else if typeAddress == known[SET] then SetContent(SetOf(values))
        else ListContent(values);
      Ok((content, SetOf(values)), o)
    else Ok((NoContent, {}), o)
  }

  function EntryAddresses(entries: seq<(Address, Address)>): set<Address> {
    (set e | e in entries :: e.0) + (set e | e in entries :: e.1)
  }

  predicate IsContainer(typeAddress: Address, known: map<Text, Address>)
    requires HasContainers(known)
  {
    typeAddress in {known[DICT], known[LIST], known[SET], known[TUPLE]}
  }

  /** What the object section depends on. */
  datatype Context = Context(known: map<Text, Address>, withStrRepr: bool, frequent: seq<Text>, common: set<Address>) {
    predicate Valid() {
      HasContainers(known)
    }
  }

  function ReadAttributes(c: Context, typeAddress: Address, s: Octets, o: nat): Parsed<()> {
    if typeAddress in c.common then Ok((), o)
    else
      var (_, o) :- Counted(Attribute(c.frequent), s, o);
      Ok((), o)
  }

  /** A string representation is skipped; only where it starts is kept. */
  function ReadStringOffset(c: Context, typeAddress: Address, s: Octets, o: nat): Parsed<Option<nat>>
    requires c.Valid()
  {
    if c.withStrRepr && !IsContainer(typeAddress, c.known) then
      var (_, next) :- ReadText(s, o);
      Ok(Some(o), next)
    else Ok(None, o)
  }

  /** The end of an object: its further referents, its attributes and its string. */
  function ReadObjectTail(c: Context, typeAddress: Address, s: Octets, o: nat): Parsed<(seq<Address>, Option<nat>)>
    requires c.Valid()
  {
    var (referents, o) :- Counted(ReadU64, s, o);
    var (_, o) :- ReadAttributes(c, typeAddress, s, o);
    var (stringOffset, o) :- ReadStringOffset(c, typeAddress, s, o);
    Ok((referents, stringOffset), o)
  }

  function ReadObject(c: Context, s: Octets, o: nat): Parsed<HeapObject>
    requires c.Valid()
  {
    var (address, o) :- ReadU64(s, o);
    var (typeAddress, o) :- ReadU64(s, o);
    var (size, o) :- ReadU32(s, o);
    var (content, o) :- ReadContent(typeAddress, c.known, s, o);
    var (tail, o) :- ReadObjectTail(c, typeAddress, s, o);
    Ok(HeapObject(address, typeAddress, size, SetOf(tail.0) + content.1, content.0, tail.1), o)
  }

  /** Objects are entered under their addresses; a second object at an address is refused. */
  function ReadObjects(c: Context, n: nat, result: map<Address, HeapObject>, s: Octets, o: nat)
    : Parsed<map<Address, HeapObject>>
    requires c.Valid()
    decreases n
  {
    if n == 0 then Ok(result, o)
    else
      var (obj, o) :- ReadObject(c, s, o);
      if obj.address in result then Failed(Malformed)
      else ReadObjects(c, n - 1, result[obj.address := obj], s, o)
  }

  function ReadOpening(s: Octets, o: nat): Parsed<nat> {
    var (magic, o) :- ReadU64(s, o);
    if magic != MAGIC then Failed(Malformed)
    else
      var (version, o) :- ReadU32(s, o);
      if version != FORMAT_VERSION then Failed(Malformed) else Ok(version, o)
  }

  function ReadHeader(s: Octets, o: nat): Parsed<Header> {
    var (version, o) :- ReadOpening(s, o);
    var (createdAt, o) :- ReadText(s, o);
    var (flags, o) :- ReadU64(s, o);
    var (known, o) :- Counted(ReadTextAddress, s, o);
    Ok(Header(version, createdAt, flags % 2 == 1, MapOf(known)), o)
  }

  function ReadObjectSection(header: Header, s: Octets, o: nat): Parsed<map<Address, HeapObject>> {
    var (frequent, o) :- Counted(ReadText, s, o);
    var (common, o) :- Counted(CommonType(frequent), s, o);
    if !HasContainers(header.wellKnownTypes) then Failed(MissingKey)
    else
      var (n, o) :- ReadU32(s, o);
      ReadObjects(Context(header.wellKnownTypes, header.withStrRepr, frequent, SetOf(common)), n, map[], s, o)
  }

  predicate TypesKnown(objects: map<Address, HeapObject>, types: map<Address, Text>) {
    forall a | a in objects :: objects[a].typeAddress in types
  }

  function ReadFooter(header: Header, threads: seq<Thread>, objects: map<Address, HeapObject>, s: Octets, o: nat)
    : Parsed<Heap>
  {
    var (types, o) :- Counted(ReadAddressText, s, o);
    if !TypesKnown(objects, MapOf(types)) then Failed(Malformed)
    else
      var (magic, o) :- ReadU64(s, o);
      if magic != MAGIC then Failed(Malformed)
      else Ok(Heap(header, threads, objects, MapOf(types)), o)
  }

  /** Everything from the opening to the closing magic value. */
  function ReadBody(s: Octets, o: nat): Parsed<Heap> {
    var (header, o) :- ReadHeader(s, o);
    var (threads, o) :- Counted(ReadThread, s, o);
    var (objects, o) :- ReadObjectSection(header, s, o);
    ReadFooter(header, threads, objects, s, o)
  }

  /** A whole artifact: the body, and not a byte more. */
  function ReadArtifact(s: Octets): Parsed<Heap> {
    var (heap, o) :- ReadBody(s, 0);
    if o != |s| then Failed(Malformed) else Ok(heap, o)
  }

  /** The lazily read representation of an object: a 16-bit length at the kept offset, and that many bytes. */
  function StringRepresentation(s: Octets, obj: HeapObject): Text
    requires obj.stringOffset.Some? ==> ReadText(s, obj.stringOffset.value).Ok?
  {
    if obj.stringOffset.None? then [] else ReadText(s, obj.stringOffset.value).value
  }
}
