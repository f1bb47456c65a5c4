/** The reader is local, so no accepted artifact is a proper prefix of another, and every cut is noticed as one. */
module ArtifactLocality {
  import opened GraphTheory
  import opened HeapModel
  import opened Bytes
  import opened Parsing
  import opened Artifact

  lemma PairsLocal()
    ensures Local(ReadTextAddress) && Local(ReadAddressText) && Local(ReadAddressPair)
  {
    IntegersLocal();
    ReadTextLocal();
    forall s, t, o: nat | t <= s && o <= |t|
      ensures LocalAt(ReadTextAddress, s, t, o) && LocalAt(ReadAddressText, s, t, o)
      ensures LocalAt(ReadAddressPair, s, t, o)
    {
      ReadPairLocal(ReadText, ReadU64, s, t, o);
      ReadPairLocal(ReadU64, ReadText, s, t, o);
      ReadPairLocal(ReadU64, ReadU64, s, t, o);
    }
  }

  /** One step of a local reading: afterwards it goes on in the prefix, or the prefix has ended. */
  lemma Step<T(!new)>(p: Parser<T>, s: Octets, t: Octets, o: nat) returns (next: nat, w: Octets)
    requires Local(p) && t <= s && o <= |t|
    ensures p(s, o).Ok? ==> next == p(s, o).next && o <= next <= |s| && w == Within(s, t, next)
    ensures p(s, o).Ok? && next <= |t| ==> p(t, o) == p(s, o)
    ensures p(s, o).Ok? && next > |t| ==> p(t, o) == Failed(Truncated)
    ensures p(t, o).Ok? ==> p(s, o) == p(t, o)
  {
    assert LocalAt(p, s, t, o);
    if p(s, o).Ok? {
      next := p(s, o).next;
      w := Within(s, t, next);
    } else {
      next, w := o, t;
    }
  }

  lemma CountedStep<T(!new)>(p: Parser<T>, s: Octets, t: Octets, o: nat) returns (next: nat, w: Octets)
    requires Local(p) && t <= s && o <= |t|
    ensures Counted(p, s, o).Ok? ==> next == Counted(p, s, o).next && o <= next <= |s| && w == Within(s, t, next)
    ensures Counted(p, s, o).Ok? && next <= |t| ==> Counted(p, t, o) == Counted(p, s, o)
    ensures Counted(p, s, o).Ok? && next > |t| ==> Counted(p, t, o) == Failed(Truncated)
    ensures Counted(p, t, o).Ok? ==> Counted(p, s, o) == Counted(p, t, o)
  {
    CountedLocal(p, s, t, o);
    if Counted(p, s, o).Ok? {
      next := Counted(p, s, o).next;
      w := Within(s, t, next);
    } else {
      next, w := o, t;
    }
  }

  lemma FrameLocal()
    ensures Local(ReadFrame)
  {
    hide ReadText, ReadU32, Counted, ReadTextAddress, MapOf;
    IntegersLocal();
    ReadTextLocal();
    PairsLocal();
    forall s, t, o: nat | t <= s && o <= |t| ensures LocalAt(ReadFrame, s, t, o) {
      var o1, t1 := Step(ReadText, s, t, o);
      if ReadText(s, o).Ok? {
        var o2, t2 := Step(ReadU32, s, t1, o1);
        if ReadU32(s, o1).Ok? {
          var o3, t3 := Step(ReadText, s, t2, o2);
          if ReadText(s, o2).Ok? {
            var _, _ := CountedStep(ReadTextAddress, s, t3, o3);
          }
        }
      }
    }
  }

  lemma ThreadLocal()
    ensures Local(ReadThread)
  {
    hide ReadText, ReadBool, Counted, ReadFrame;
    IntegersLocal();
    ReadTextLocal();
    FrameLocal();
    forall s, t, o: nat | t <= s && o <= |t| ensures LocalAt(ReadThread, s, t, o) {
      var o1, t1 := Step(ReadText, s, t, o);
      if ReadText(s, o).Ok? {
        var o2, t2 := Step(ReadBool, s, t1, o1);
        if ReadBool(s, o1).Ok? {
          var o3, t3 := Step(ReadBool, s, t2, o2);
          if ReadBool(s, o2).Ok? {
            var _, _ := CountedStep(ReadFrame, s, t3, o3);
          }
        }
      }
    }
  }

  lemma AttributeNameLocal(frequent: seq<Text>, s: Octets, t: Octets, o: nat)
    requires t <= s && o <= |t|
    ensures LocalAt((s, o) => ReadAttributeName(frequent, s, o), s, t, o)
  {
    hide ReadI16, Take;
    IntegersLocal();
    var o1, t1 := Step(ReadI16, s, t, o);
    if ReadI16(s, o).Ok? && ReadI16(s, o).value >= 0 {
      TakeLocal(ReadI16(s, o).value, s, t1, o1);
    }
  }

  lemma AttributeLocal(frequent: seq<Text>)
    ensures Local(Attribute(frequent))
  {
    hide ReadAttributeName, ReadU64;
    IntegersLocal();
    forall s, t, o: nat | t <= s && o <= |t| ensures LocalAt(Attribute(frequent), s, t, o) {
      AttributeNameLocal(frequent, s, t, o);
      if ReadAttributeName(frequent, s, o).Ok? {
        var o1 := ReadAttributeName(frequent, s, o).next;
        var _, _ := Step(ReadU64, s, Within(s, t, o1), o1);
      }
    }
  }

  lemma CommonTypeLocal(frequent: seq<Text>)
    ensures Local(CommonType(frequent))
  {
    hide Attribute, ReadU64, Counted;
    IntegersLocal();
    AttributeLocal(frequent);
    forall s, t, o: nat | t <= s && o <= |t| ensures LocalAt(CommonType(frequent), s, t, o) {
      var o1, t1 := Step(ReadU64, s, t, o);
      if ReadU64(s, o).Ok? {
        var _, _ := CountedStep(Attribute(frequent), s, t1, o1);
      }
    }
  }

  lemma ContentLocal(typeAddress: Address, known: map<Text, Address>, s: Octets, t: Octets, o: nat)
    requires t <= s && o <= |t| && HasContainers(known)
    ensures LocalAt((s, o) => ReadContent(typeAddress, known, s, o), s, t, o)
  {
    hide ReadU64, Counted, ReadAddressPair, MapOf, EntryAddresses;
    IntegersLocal();
    PairsLocal();
    var _, _ := CountedStep(ReadAddressPair, s, t, o);
    var _, _ := CountedStep(ReadU64, s, t, o);
  }

  lemma AttributesLocal(c: Context, typeAddress: Address, s: Octets, t: Octets, o: nat)
    requires t <= s && o <= |t|
    ensures LocalAt((s, o) => ReadAttributes(c, typeAddress, s, o), s, t, o)
  {
    hide Counted, Attribute;
    AttributeLocal(c.frequent);
    var _, _ := CountedStep(Attribute(c.frequent), s, t, o);
  }

  lemma StringOffsetLocal(c: Context, typeAddress: Address, s: Octets, t: Octets, o: nat)
    requires t <= s && o <= |t| && c.Valid()
    ensures LocalAt((s, o) => ReadStringOffset(c, typeAddress, s, o), s, t, o)
  {
    hide ReadText;
    ReadTextLocal();
    var _, _ := Step(ReadText, s, t, o);
  }

  lemma ObjectLocal(c: Context, s: Octets, t: Octets, o: nat)
    requires t <= s && o <= |t| && c.Valid()
    ensures LocalAt((s, o) => ReadObject(c, s, o), s, t, o)
  {
    hide ReadU64, ReadU32, ReadContent, ReadObjectTail;
    IntegersLocal();
    var o1, t1 := Step(ReadU64, s, t, o);
    if ReadU64(s, o).Ok? {
      var o2, t2 := Step(ReadU64, s, t1, o1);
      if ReadU64(s, o1).Ok? {
        var typeAddress := ReadU64(s, o1).value;
        var o3, t3 := Step(ReadU32, s, t2, o2);
        if ReadU32(s, o2).Ok? {
          ContentLocal(typeAddress, c.known, s, t3, o3);
          if ReadContent(typeAddress, c.known, s, o3).Ok? {
            var o4 := ReadContent(typeAddress, c.known, s, o3).next;
            ObjectTailLocal(c, typeAddress, s, Within(s, t3, o4), o4);
          }
        }
      }
    }
  }

  lemma ObjectTailLocal(c: Context, typeAddress: Address, s: Octets, t: Octets, o: nat)
    requires t <= s && o <= |t| && c.Valid()
    ensures LocalAt((s, o) => ReadObjectTail(c, typeAddress, s, o), s, t, o)
  {
    hide ReadU64, Counted, ReadAttributes, ReadStringOffset;
    IntegersLocal();
    var o1, t1 := CountedStep(ReadU64, s, t, o);
    if Counted(ReadU64, s, o).Ok? {
      AttributesLocal(c, typeAddress, s, t1, o1);
      if ReadAttributes(c, typeAddress, s, o1).Ok? {
        var o2 := ReadAttributes(c, typeAddress, s, o1).next;
        StringOffsetLocal(c, typeAddress, s, Within(s, t1, o2), o2);
      }
    }
  }

  lemma {:induction false} ObjectsLocal(c: Context, n: nat, result: map<Address, HeapObject>,
                                        s: Octets, t: Octets, o: nat)
    requires t <= s && o <= |t| && c.Valid()
    ensures LocalAt((s, o) => ReadObjects(c, n, result, s, o), s, t, o)
    decreases n
  {
    hide ReadObject;
    if n > 0 {
      ObjectLocal(c, s, t, o);
      var first := ReadObject(c, s, o);
      if first.Ok? && first.value.address !in result {
        ObjectsLocal(c, n - 1, result[first.value.address := first.value], s, Within(s, t, first.next), first.next);
      }
    }
  }

  lemma OpeningLocal()
    ensures Local(ReadOpening)
  {
    hide ReadU64, ReadU32;
    IntegersLocal();
    forall s, t, o: nat | t <= s && o <= |t| ensures LocalAt(ReadOpening, s, t, o) {
      var o1, t1 := Step(ReadU64, s, t, o);
      if ReadU64(s, o).Ok? {
        var _, _ := Step(ReadU32, s, t1, o1);
      }
    }
  }

  lemma HeaderLocal()
    ensures Local(ReadHeader)
  {
    hide ReadOpening, ReadU64, ReadText, Counted, ReadTextAddress, MapOf;
    IntegersLocal();
    ReadTextLocal();
    PairsLocal();
    OpeningLocal();
    forall s, t, o: nat | t <= s && o <= |t| ensures LocalAt(ReadHeader, s, t, o) {
      var o1, t1 := Step(ReadOpening, s, t, o);
      if ReadOpening(s, o).Ok? {
        var o2, t2 := Step(ReadText, s, t1, o1);
        if ReadText(s, o1).Ok? {
          var o3, t3 := Step(ReadU64, s, t2, o2);
          if ReadU64(s, o2).Ok? {
            var _, _ := CountedStep(ReadTextAddress, s, t3, o3);
          }
        }
      }
    }
  }

  lemma ObjectSectionLocal(header: Header, s: Octets, t: Octets, o: nat)
    requires t <= s && o <= |t|
    ensures LocalAt((s, o) => ReadObjectSection(header, s, o), s, t, o)
  {
    hide ReadU32, ReadText, Counted, CommonType, ReadObjects;
    IntegersLocal();
    ReadTextLocal();
    var o1, t1 := CountedStep(ReadText, s, t, o);
    if Counted(ReadText, s, o).Ok? {
      var frequent := Counted(ReadText, s, o).value;
      CommonTypeLocal(frequent);
      var o2, t2 := CountedStep(CommonType(frequent), s, t1, o1);
      if Counted(CommonType(frequent), s, o1).Ok? && HasContainers(header.wellKnownTypes) {
        var common := SetOf(Counted(CommonType(frequent), s, o1).value);
        var o3, t3 := Step(ReadU32, s, t2, o2);
        if ReadU32(s, o2).Ok? {
          ObjectsLocal(Context(header.wellKnownTypes, header.withStrRepr, frequent, common), ReadU32(s, o2).value, map[],
                       s, t3, o3);
        }
      }
    }
  }

  lemma FooterLocal(header: Header, threads: seq<Thread>, objects: map<Address, HeapObject>,
                    s: Octets, t: Octets, o: nat)
    requires t <= s && o <= |t|
    ensures LocalAt((s, o) => ReadFooter(header, threads, objects, s, o), s, t, o)
  {
    hide ReadU64, Counted, ReadAddressText, MapOf, TypesKnown;
    IntegersLocal();
    PairsLocal();
    var o1, t1 := CountedStep(ReadAddressText, s, t, o);
    if Counted(ReadAddressText, s, o).Ok? {
      var _, _ := Step(ReadU64, s, t1, o1);
    }
  }

  lemma BodyLocal()
    ensures Local(ReadBody)
  {
    hide ReadHeader, Counted, ReadThread, ReadObjectSection, ReadFooter;
    HeaderLocal();
    ThreadLocal();
    forall s, t, o: nat | t <= s && o <= |t| ensures LocalAt(ReadBody, s, t, o) {
      var o1, t1 := Step(ReadHeader, s, t, o);
      if ReadHeader(s, o).Ok? {
        var header := ReadHeader(s, o).value;
        var o2, t2 := CountedStep(ReadThread, s, t1, o1);
        if Counted(ReadThread, s, o1).Ok? {
          var threads := Counted(ReadThread, s, o1).value;
          ObjectSectionLocal(header, s, t2, o2);
          if ReadObjectSection(header, s, o2).Ok? {
            var o3 := ReadObjectSection(header, s, o2).next;
            FooterLocal(header, threads, ReadObjectSection(header, s, o2).value, s, Within(s, t2, o3), o3);
          }
        }
      }
    }
  }

  /** Whatever is cut off the end of an accepted artifact, the rest is refused as truncated. */
  lemma EveryCutIsTruncated(s: Octets, n: nat)
    requires ReadArtifact(s).Ok? && n < |s|
    ensures ReadArtifact(s[..n]) == Failed(Truncated)
  {
    hide ReadBody;
    BodyLocal();
    assert LocalAt(ReadBody, s, s[..n], 0);
  }

  /** Whatever is appended to an accepted artifact, the whole is refused. */
  lemma EveryExtensionIsMalformed(s: Octets, more: Octets)
    requires ReadArtifact(s).Ok? && more != []
    ensures ReadArtifact(s + more) == Failed(Malformed)
  {
    hide ReadBody;
    BodyLocal();
    assert LocalAt(ReadBody, s + more, s, 0);
  }
}
