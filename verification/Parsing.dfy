/**
 * Parsers over a byte string and an offset. A parser is local when it looks at nothing beyond what it
 * consumes: cutting the input short inside that part is noticed as truncation, and bytes after it change nothing.
 */
module Parsing {
  import opened HeapModel
  import opened Bytes

  datatype Failure = Truncated | Malformed | MissingKey

  datatype Parsed<+T> = Ok(value: T, next: nat) | Failed(error: Failure) {
    predicate IsFailure() {
      Failed?
    }

    function PropagateFailure<U>(): Parsed<U>
      requires Failed?
    {
      Failed(error)
    }

    function Extract(): (T, nat)
      requires Ok?
    {
      (value, next)
    }
  }

  type Parser<!T> = (Octets, nat) -> Parsed<T>

  /** What `p` does at offset `o` of `s` and of its prefix `t`. */
  ghost predicate LocalAt<T(!new)>(p: Parser<T>, s: Octets, t: Octets, o: nat)
    requires t <= s && o <= |t|
  {
    && (p(s, o).Ok? ==> o <= p(s, o).next <= |s|)
    && (p(s, o).Ok? && p(s, o).next <= |t| ==> p(t, o) == p(s, o))
    && (p(s, o).Ok? && |t| < p(s, o).next ==> p(t, o) == Failed(Truncated))
    && (p(t, o).Ok? ==> p(s, o) == p(t, o))
  }

  ghost predicate Local<T(!new)>(p: Parser<T>) {
    forall s, t, o: nat {:trigger p(s, o), p(t, o)} | t <= s && o <= |t| :: LocalAt(p, s, t, o)
  }

  function ReadBe(k: nat, s: Octets, o: nat): Parsed<nat> {
    if o + k > |s| then Failed(Truncated) else Ok(FromBe(s[o..o + k]), o + k)
  }

  function ReadU16(s: Octets, o: nat): Parsed<nat> { ReadBe(2, s, o) }
  function ReadU32(s: Octets, o: nat): Parsed<nat> { ReadBe(4, s, o) }
  function ReadU64(s: Octets, o: nat): Parsed<nat> { ReadBe(8, s, o) }

  function ReadBool(s: Octets, o: nat): Parsed<bool> {
    var (b, o) :- ReadBe(1, s, o);
    Ok(b != 0, o)
  }

  /** A two's-complement 16-bit integer. */
  function ReadI16(s: Octets, o: nat): Parsed<int> {
    var (n, o) :- ReadU16(s, o);
    Ok(if n < 0x8000 then n else n - 0x1_0000, o)
  }

  function Take(n: nat, s: Octets, o: nat): Parsed<Text> {
    if o + n > |s| then Failed(Truncated) else Ok(s[o..o + n], o + n)
  }

  function ReadText(s: Octets, o: nat): Parsed<Text> {
    var (n, o) :- ReadU16(s, o);
    Take(n, s, o)
  }

  function Many<T>(p: Parser<T>, n: nat, s: Octets, o: nat): Parsed<seq<T>> {
    if n == 0 then Ok([], o)
    else
      var (x, o) :- p(s, o);
      var (rest, o) :- Many(p, n - 1, s, o);
      Ok([x] + rest, o)
  }

  /** A 32-bit count, and that many items. */
  function Counted<T>(p: Parser<T>, s: Octets, o: nat): Parsed<seq<T>> {
    var (n, o) :- ReadU32(s, o);
    Many(p, n, s, o)
  }

  function ReadPair<A, B>(a: Parser<A>, b: Parser<B>, s: Octets, o: nat): Parsed<(A, B)> {
    var (x, o) :- a(s, o);
    var (y, o) :- b(s, o);
    Ok((x, y), o)
  }

  /** The prefix `t` where the offset lies inside it, else all of `s`. */
  ghost function Within(s: Octets, t: Octets, o: nat): (w: Octets)
    requires t <= s && o <= |s|
    ensures w <= s && o <= |w|
  {
    if o <= |t| then t else s
  }

  lemma ReadBeLocal(k: nat, s: Octets, t: Octets, o: nat)
    requires t <= s && o <= |t|
    ensures LocalAt((s, o) => ReadBe(k, s, o), s, t, o)
  {
    if o + k <= |t| {
      assert s[o..o + k] == t[o..o + k];
    }
  }

  lemma IntegersLocal()
    ensures Local(ReadU16) && Local(ReadU32) && Local(ReadU64) && Local(ReadI16) && Local(ReadBool)
  {
    forall s, t, o: nat | t <= s && o <= |t|
      ensures LocalAt(ReadU16, s, t, o) && LocalAt(ReadU32, s, t, o) && LocalAt(ReadU64, s, t, o)
      ensures LocalAt(ReadI16, s, t, o) && LocalAt(ReadBool, s, t, o)
    {
      ReadBeLocal(1, s, t, o);
      ReadBeLocal(2, s, t, o);
      ReadBeLocal(4, s, t, o);
      ReadBeLocal(8, s, t, o);
    }
  }

  lemma TakeLocal(n: nat, s: Octets, t: Octets, o: nat)
    requires t <= s && o <= |t|
    ensures LocalAt((s, o) => Take(n, s, o), s, t, o)
  {
    if o + n <= |t| {
      assert s[o..o + n] == t[o..o + n];
    }
  }

  lemma ReadTextLocal()
    ensures Local(ReadText)
  {
    forall s, t, o: nat | t <= s && o <= |t| ensures LocalAt(ReadText, s, t, o) {
      ReadBeLocal(2, s, t, o);
      hide FromBe;
      if ReadU16(s, o).Ok? && o + 2 <= |t| {
        TakeLocal(ReadU16(s, o).value, s, t, o + 2);
      }
    }
  }

  lemma {:induction false} ManyLocal<T(!new)>(p: Parser<T>, n: nat, s: Octets, t: Octets, o: nat)
    requires Local(p) && t <= s && o <= |t|
    ensures LocalAt((s, o) => Many(p, n, s, o), s, t, o)
  {
    if n > 0 {
      assert LocalAt(p, s, t, o);
      if p(s, o).Ok? {
        ManyLocal(p, n - 1, s, Within(s, t, p(s, o).next), p(s, o).next);
      }
    }
  }

  lemma CountedLocal<T(!new)>(p: Parser<T>, s: Octets, t: Octets, o: nat)
    requires Local(p) && t <= s && o <= |t|
    ensures LocalAt((s, o) => Counted(p, s, o), s, t, o)
  {
    IntegersLocal();
    assert LocalAt(ReadU32, s, t, o);
    if ReadU32(s, o).Ok? {
      ManyLocal(p, ReadU32(s, o).value, s, Within(s, t, o + 4), o + 4);
    }
  }

  lemma ReadPairLocal<A(!new), B(!new)>(a: Parser<A>, b: Parser<B>, s: Octets, t: Octets, o: nat)
    requires Local(a) && Local(b) && t <= s && o <= |t|
    ensures LocalAt((s, o) => ReadPair(a, b, s, o), s, t, o)
  {
    assert LocalAt(a, s, t, o);
    if a(s, o).Ok? {
      assert LocalAt(b, s, Within(s, t, a(s, o).next), a(s, o).next);
    }
  }

  // ---------------------------------------------------------------- writing what is read

  lemma ReadBeAt(k: nat, n: nat, s: Octets, o: nat)
    requires n < Pow256(k) && At(s, o, Be(n, k))
    ensures ReadBe(k, s, o) == Ok(n, o + k)
  {
    FromBeBe(n, k);
  }

  const MAX_TEXT := 0xFFFF

  function Cut(t: Text, n: nat): Text {
    if |t| > n then t[..n] else t
  }

  /** A 16-bit length and at most that many bytes. */
  function TextBytes(t: Text): Octets {
    Be(|Cut(t, MAX_TEXT)|, 2) + Cut(t, MAX_TEXT)
  }

  lemma ReadTextAt(t: Text, s: Octets, o: nat)
    requires At(s, o, TextBytes(t))
    ensures ReadText(s, o) == Ok(Cut(t, MAX_TEXT), o + |TextBytes(t)|)
  {
    AtSplit(s, o, Be(|Cut(t, MAX_TEXT)|, 2), Cut(t, MAX_TEXT));
    Powers();
    ReadBeAt(2, |Cut(t, MAX_TEXT)|, s, o);
  }

  function Concat(parts: seq<Octets>): Octets
    decreases |parts|
  {
    if |parts| == 0 then [] else parts[0] + Concat(parts[1..])
  }

  /** `p` reads `values[i]` from wherever `parts[i]` stands. */
  ghost predicate ReadsEach<T(!new)>(p: Parser<T>, s: Octets, parts: seq<Octets>, values: seq<T>) {
    && |parts| == |values|
    && forall i, o: nat {:trigger At(s, o, parts[i])} | 0 <= i < |parts| && At(s, o, parts[i]) ::
         p(s, o) == Ok(values[i], o + |parts[i]|)
  }

  lemma {:induction false} ManyAt<T(!new)>(p: Parser<T>, s: Octets, o: nat, parts: seq<Octets>, values: seq<T>)
    requires ReadsEach(p, s, parts, values) && At(s, o, Concat(parts))
    ensures Many(p, |parts|, s, o) == Ok(values, o + |Concat(parts)|)
    decreases |parts|
  {
    if parts != [] {
      AtSplit(s, o, parts[0], Concat(parts[1..]));
      assert ReadsEach(p, s, parts[1..], values[1..]) by {
        forall i, o': nat | 0 <= i < |parts[1..]| && At(s, o', parts[1..][i])
          ensures p(s, o') == Ok(values[1..][i], o' + |parts[1..][i]|)
        {
          assert parts[1..][i] == parts[i + 1];
        }
      }
      ManyAt(p, s, o + |parts[0]|, parts[1..], values[1..]);
      assert values == [values[0]] + values[1..];
    }
  }

  function CountedBytes(parts: seq<Octets>): Octets {
    Be(|parts|, 4) + Concat(parts)
  }

  lemma CountedAt<T(!new)>(p: Parser<T>, s: Octets, o: nat, parts: seq<Octets>, values: seq<T>)
    requires ReadsEach(p, s, parts, values) && |parts| < 0x1_0000_0000 && At(s, o, CountedBytes(parts))
    ensures Counted(p, s, o) == Ok(values, o + |CountedBytes(parts)|)
  {
    AtSplit(s, o, Be(|parts|, 4), Concat(parts));
    Powers();
    ReadBeAt(4, |parts|, s, o);
    ManyAt(p, s, o + 4, parts, values);
  }
}
