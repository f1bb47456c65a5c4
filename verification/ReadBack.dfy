/** What a capture and the heap read from it have to do with each other, value by value. */
module ReadBack {
  import opened GraphTheory
  import opened HeapModel
  import opened CaptureModel

  /** `r` is `t`, or its first `n` bytes if it is longer. */
  ghost predicate CutTo(t: Text, n: nat, r: Text) {
    r <= t && |r| == if |t| <= n then |t| else n
  }

  /** Every local is there under its name cut to 65535 bytes; of names that become equal, the last one counts. */
  ghost predicate FrameAsWritten(w: CapturedFrame, r: Frame) {
    && CutTo(w.fileName, 65535, r.fileName) && r.lineNumber == w.lineNumber
    && CutTo(w.function_, 65535, r.functionName)
    && (forall n | n in r.locals :: exists k :: 0 <= k < |w.locals| && CutTo(w.locals[k].0, 65535, n))
    && (forall k, n | 0 <= k < |w.locals| && CutTo(w.locals[k].0, 65535, n) ::
          n in r.locals && ((forall j | k < j < |w.locals| :: !CutTo(w.locals[j].0, 65535, n)) ==>
                              r.locals[n] == w.locals[k].1))
  }

  ghost predicate ThreadAsWritten(w: CapturedThread, r: Thread) {
    && CutTo(w.name, 65535, r.name) && r.isAlive == w.isAlive && r.isDaemon == w.isDaemon
    && |r.stackTrace| == |w.frames|
    && forall i | 0 <= i < |w.frames| :: FrameAsWritten(w.frames[i], r.stackTrace[i])
  }

  /** The size as it is, or the nearest number that 32 bits hold. */
  ghost predicate SizeAsWritten(size: int, r: nat) {
    && (0 <= size <= 0xFFFF_FFFF ==> r == size)
    && (size < 0 ==> r == 0)
    && (size > 0xFFFF_FFFF ==> r == 0xFFFF_FFFF)
  }

  /** The content names this address. */
  ghost predicate Mentions(kind: ContentKind, sequence: seq<Address>, entries: seq<(Address, Address)>, a: Address) {
    match kind
    case NONE => false
    case DICT => exists i :: 0 <= i < |entries| && (entries[i].0 == a || entries[i].1 == a)
    case _ => a in sequence
  }

  /** A dict has all the keys of its entries, each with its last value. */
  ghost predicate EntriesAsWritten(entries: seq<(Address, Address)>, r: map<Address, Address>) {
    && (forall k | k in r :: exists i :: 0 <= i < |entries| && entries[i].0 == k)
    && forall i | 0 <= i < |entries| ::
         entries[i].0 in r && ((forall j | i < j < |entries| :: entries[j].0 != entries[i].0) ==>
                                 r[entries[i].0] == entries[i].1)
  }

  ghost predicate ContentAsWritten(kind: ContentKind, sequence: seq<Address>, entries: seq<(Address, Address)>,
                                   r: Content) {
    match kind
    case NONE => r == NoContent
    case LIST => r == ListContent(sequence)
    case TUPLE => r == TupleContent(sequence)
    case SET => r.SetContent? && forall a :: a in r.members <==> a in sequence
    case DICT => r.DictContent? && EntriesAsWritten(entries, r.entries)
  }

  /** Address, type, size and content are as they were; the referents are those and what the content names. */
  ghost predicate ObjectAsWritten(w: CapturedObject, r: HeapObject) {
    && r.address == w.address && r.typeAddress == w.typeAddress && SizeAsWritten(w.shallowSize, r.size)
    && ContentAsWritten(w.contentKind, w.sequenceContent, w.dictContent, r.content)
    && forall a :: a in r.referents <==> a in w.referents || Mentions(w.contentKind, w.sequenceContent, w.dictContent, a)
  }
}
