/** The opening of a session: the Agent's HELLO and the Collector's options. */
module Handshake {
  import opened HeapModel
  import opened Bytes
  import opened Protocol

  const NONCE_SIZE := 16
  const HELLO_SIZE := 20
  const OPTIONS_SIZE := 5
  const MIN_OPTION := -0x8000_0000
  const MAX_OPTION := 0x7FFF_FFFF

  datatype Hello = Hello(pythonMajor: Byte, pythonMinor: Byte, pointerSize: Byte, littleEndian: bool, nonce: Octets)

  function EncodeHello(h: Hello): Result<Octets> {
    if |h.nonce| != NONCE_SIZE then Error(InvalidPayload)
    else Ok([h.pythonMajor, h.pythonMinor, h.pointerSize, if h.littleEndian then 1 else 0] + h.nonce)
  }

  function DecodeHello(payload: Octets): Result<Hello> {
    if |payload| != HELLO_SIZE then Error(InvalidPayload)
    else if payload[3] !in {0, 1} then Error(InvalidPayload)
    else Ok(Hello(payload[0], payload[1], payload[2], payload[3] == 1, payload[4..]))
  }

  lemma HelloInverse(h: Hello, payload: Octets)
    ensures DecodeHello(payload) == Ok(h) <==> EncodeHello(h) == Ok(payload)
  {
    if DecodeHello(payload) == Ok(h) {
      assert payload == [payload[0], payload[1], payload[2], payload[3]] + payload[4..];
    }
  }

  /** The Collector serves only its own session, and only 64-bit little-endian CPython from 3.10 on. */
  function AcceptHello(payload: Octets, nonce: Octets): Result<()> {
    var h :- DecodeHello(payload);
    if h.nonce != nonce then Error(InvalidPayload)
    else if h.pythonMajor != 3 || h.pythonMinor < 10 then Error(InvalidPayload)
    else if h.pointerSize != 8 then Error(InvalidPayload)
    else if !h.littleEndian then Error(InvalidPayload)
    else Ok(())
  }

  lemma HelloAccepted(payload: Octets, nonce: Octets)
    requires |nonce| == NONCE_SIZE
    ensures AcceptHello(payload, nonce).Ok? <==>
            exists minor: Byte :: minor >= 10 && EncodeHello(Hello(3, minor, 8, true, nonce)) == Ok(payload)
  {
    if AcceptHello(payload, nonce).Ok? {
      var h := DecodeHello(payload).value;
      HelloInverse(h, payload);
      assert h == Hello(3, h.pythonMinor, 8, true, nonce);
    }
    forall minor: Byte | minor >= 10 && EncodeHello(Hello(3, minor, 8, true, nonce)) == Ok(payload)
      ensures AcceptHello(payload, nonce).Ok?
    {
      HelloInverse(Hello(3, minor, 8, true, nonce), payload);
    }
  }

  predicate OptionFits(strReprLen: int) {
    MIN_OPTION <= strReprLen <= MAX_OPTION
  }

  function EncodeOptions(strReprLen: int, dumpAttributes: bool): Octets
    requires OptionFits(strReprLen)
  {
    Be(if strReprLen < 0 then strReprLen + 0x1_0000_0000 else strReprLen, 4) + [if dumpAttributes then 1 else 0]
  }

  function DecodeOptions(payload: Octets): Result<(int, bool)> {
    if |payload| != OPTIONS_SIZE then Error(InvalidPayload)
    else if payload[4] !in {0, 1} then Error(InvalidPayload)
    else
      var n := FromBe(payload[..4]);
      Ok((if n > MAX_OPTION then n - 0x1_0000_0000 else n, payload[4] == 1))
  }

  /** Options are a signed 32-bit length and a flag; five bytes are options exactly when the flag is 0 or 1. */
  lemma OptionsInverse(strReprLen: int, dumpAttributes: bool, payload: Octets)
    ensures DecodeOptions(payload) == Ok((strReprLen, dumpAttributes)) <==>
            OptionFits(strReprLen) && payload == EncodeOptions(strReprLen, dumpAttributes)
  {
    Powers();
    if OptionFits(strReprLen) && payload == EncodeOptions(strReprLen, dumpAttributes) {
      FromBeBe(if strReprLen < 0 then strReprLen + 0x1_0000_0000 else strReprLen, 4);
      assert payload[..4] == Be(if strReprLen < 0 then strReprLen + 0x1_0000_0000 else strReprLen, 4);
    }
    if DecodeOptions(payload) == Ok((strReprLen, dumpAttributes)) {
      BeFromBe(payload[..4]);
      assert payload == payload[..4] + [payload[4]];
    }
  }
}
