/** Session nonces as 32 lower-case hexadecimal digits. */
module NonceHex {
  import opened HeapModel
  import opened Bytes
  import opened Handshake

  type Nibble = n: int | 0 <= n < 16

  function Digit(n: Nibble): Byte {
    if n < 10 then 48 + n else 87 + n
  }

  /** Upper-case digits are not accepted. */
  function DigitValue(c: Byte): Option<Nibble> {
    if 48 <= c <= 57 then Some(c - 48) else if 97 <= c <= 102 then Some(c - 87) else None
  }

  lemma DigitInverse(c: Byte, n: Nibble)
    ensures DigitValue(c) == Some(n) <==> c == Digit(n)
  {
  }

  function HexOf(nonce: Octets): (hex: Text)
    ensures |hex| == 2 * |nonce|
  {
    if nonce == [] then []
    else HexOf(nonce[..|nonce| - 1]) + [Digit(nonce[|nonce| - 1] / 16), Digit(nonce[|nonce| - 1] % 16)]
  }

  /** The nonce that a text of digits stands for. */
  ghost predicate Spells(hex: Text, nonce: Octets) {
    |nonce| == NONCE_SIZE && hex == HexOf(nonce)
  }

  lemma HexNext(nonce: Octets, b: Byte)
    ensures HexOf(nonce + [b]) == HexOf(nonce) + [Digit(b / 16), Digit(b % 16)]
  {
    assert (nonce + [b])[..|nonce|] == nonce;
  }

  lemma {:induction false} HexAt(nonce: Octets, i: nat)
    requires i < |nonce|
    ensures HexOf(nonce)[2 * i] == Digit(nonce[i] / 16) && HexOf(nonce)[2 * i + 1] == Digit(nonce[i] % 16)
    decreases |nonce|
  {
    if i < |nonce| - 1 {
      HexAt(nonce[..|nonce| - 1], i);
    }
  }

  function ByteOf(high: Nibble, low: Nibble): (b: Byte)
    ensures b / 16 == high && b % 16 == low
  {
    var h: int, l: int := high, low;
    h * 16 + l
  }

  lemma NotADigit(hex: Text, index: nat)
    requires index < NONCE_SIZE && |hex| == NONCE_SIZE * 2
    requires DigitValue(hex[index * 2]).None? || DigitValue(hex[index * 2 + 1]).None?
    ensures forall nonce :: !Spells(hex, nonce)
  {
    forall nonce: Octets ensures !Spells(hex, nonce) {
      if |nonce| == NONCE_SIZE {
        HexAt(nonce, index);
        DigitInverse(hex[index * 2], nonce[index] / 16);
        DigitInverse(hex[index * 2 + 1], nonce[index] % 16);
      }
    }
  }

  /** Reads 32 digits; anything else is refused. */
  method DecodeNonce(hex: Text) returns (r: Option<Octets>)
    ensures r.Some? ==> Spells(hex, r.value)
    ensures r.None? ==> forall nonce :: !Spells(hex, nonce)
  {
    if |hex| != NONCE_SIZE * 2 {
      return None;
    }
    hide HexOf, Digit, DigitValue;
    var nonce: Octets := [];
    assert HexOf([]) == [] by {
      assert |HexOf([])| == 0;
    }
    for index := 0 to NONCE_SIZE
      invariant |nonce| == index && HexOf(nonce) == hex[..2 * index]
    {
      var high, low := DigitValue(hex[index * 2]), DigitValue(hex[index * 2 + 1]);
      if high.None? || low.None? {
        NotADigit(hex, index);
        return None;
      }
      var b := ByteOf(high.value, low.value);
      DigitInverse(hex[index * 2], high.value);
      DigitInverse(hex[index * 2 + 1], low.value);
      HexNext(nonce, b);
      assert hex[..2 * index + 2] == hex[..2 * index] + [hex[2 * index], hex[2 * index + 1]];
      nonce := nonce + [b];
    }
    assert hex[..2 * NONCE_SIZE] == hex;
    return Some(nonce);
  }

  const HEX_DIGITS: Text := [48, 49, 50, 51, 52, 53, 54, 55, 56, 57, 97, 98, 99, 100, 101, 102]

  /** Writes the digits of a nonce; reading them back gives the nonce. */
  method EncodeNonce(nonce: Octets) returns (hex: Text)
    requires |nonce| == NONCE_SIZE
    ensures Spells(hex, nonce)
  {
    hide HexOf;
    hex := [];
    assert |HexOf(nonce[..0])| == 0;
    for index := 0 to NONCE_SIZE
      invariant hex == HexOf(nonce[..index])
    {
      HexNext(nonce[..index], nonce[index]);
      assert nonce[..index + 1] == nonce[..index] + [nonce[index]];
      hex := hex + [HEX_DIGITS[nonce[index] / 16], HEX_DIGITS[nonce[index] % 16]];
    }
    assert nonce[..NONCE_SIZE] == nonce;
  }

  /** A text spells at most one nonce. */
  lemma SpellsOnce(hex: Text, a: Octets, b: Octets)
    requires Spells(hex, a) && Spells(hex, b)
    ensures a == b
  {
    forall i | 0 <= i < NONCE_SIZE ensures a[i] == b[i] {
      HexAt(a, i);
      HexAt(b, i);
      DigitInverse(hex[2 * i], a[i] / 16);
      DigitInverse(hex[2 * i], b[i] / 16);
      DigitInverse(hex[2 * i + 1], a[i] % 16);
      DigitInverse(hex[2 * i + 1], b[i] % 16);
    }
  }

  /** What decoding gives. */
  ghost function NonceOf(hex: Text): (r: Option<Octets>)
    ensures r.Some? ==> Spells(hex, r.value)
  {
    if nonce: Octets :| Spells(hex, nonce) then Some(nonce) else None
  }

  /** Encoding and decoding are inverse to each other on 16-byte nonces. */
  lemma NonceInverse(hex: Text, nonce: Octets)
    ensures NonceOf(hex) == Some(nonce) <==> Spells(hex, nonce)
  {
    if Spells(hex, nonce) {
      SpellsOnce(hex, nonce, NonceOf(hex).value);
    }
  }
}
