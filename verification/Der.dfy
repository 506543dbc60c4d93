/** DER wrapping of an RSA key: `derLength`, `der` and `pkcs1ToPkcs8` of lib/github-app.ts:35-50, read back by a
    strict decoder. Lengths are in the minimal definite form of section 10.1 of ITU-T X.690; the structure is
    PrivateKeyInfo, section 5 of RFC 5208. */
module Der {
  import opened Options

  type Byte = b: int | 0 <= b < 256
  const WORD := 0x1_0000_0000

  // ---- lengths ----

  /** The big-endian bytes the loop collects. `value >>>= 8` first takes value modulo 2^32. */
  function LoopBytes(value: nat): seq<Byte>
    decreases value
  {
    if value == 0 then [] else LoopBytes((value % WORD) / 256) + [value % 256]
  }

  function DerLength(length: nat): seq<Byte>
    requires |LoopBytes(length)| < 128
  {
    if length < 128 then [length] else [128 + |LoopBytes(length)|] + LoopBytes(length)
  }

  function BigEndian(bytes: seq<Byte>): nat {
    if bytes == [] then 0 else 256 * BigEndian(bytes[..|bytes| - 1]) + bytes[|bytes| - 1]
  }

  /** A length is at most 2^32 - 1 in effect: at most five bytes are ever collected. */
  lemma {:induction false} LoopIsShort(value: nat)
    ensures value < WORD ==> |LoopBytes(value)| <= 4
    ensures |LoopBytes(value)| <= 5
  {
    if value != 0 {
      var v1 := (value % WORD) / 256;
      var v2 := (v1 % WORD) / 256;
      var v3 := (v2 % WORD) / 256;
      var v4 := (v3 % WORD) / 256;
      assert v1 < 0x100_0000 && v2 < 0x1_0000 && v3 < 0x100 && v4 == 0;
      assert LoopBytes(v4) == [];
      assert |LoopBytes(v3)| <= 1;
      assert |LoopBytes(v2)| <= 2;
      assert |LoopBytes(v1)| <= 3;
    }
  }

  lemma BigEndianSnoc(bytes: seq<Byte>, b: Byte)
    ensures BigEndian(bytes + [b]) == 256 * BigEndian(bytes) + b
  {
    assert (bytes + [b])[..|bytes|] == bytes;
  }

  lemma {:induction false} LoopIsBigEndian(value: nat)
    requires value < WORD
    ensures BigEndian(LoopBytes(value)) == value
    ensures value > 0 ==> LoopBytes(value) != [] && LoopBytes(value)[0] != 0
  {
    if value != 0 {
      var shifted: nat := (value % WORD) / 256;
      assert shifted == value / 256;
      LoopIsBigEndian(shifted);
      BigEndianSnoc(LoopBytes(shifted), value % 256);
      assert value == 256 * shifted + value % 256;
    }
  }

  /** The loop of `derLength`. */
  method DerLengthOf(length: nat) returns (r: seq<Byte>)
    ensures |LoopBytes(length)| <= 5 && r == DerLength(length)
  {
    LoopIsShort(length);
    if length < 128 { return [length]; }
    var bytes: seq<Byte> := [];
    var value: nat := length;
    assert LoopBytes(value) + bytes == LoopBytes(value);
    while value > 0
      invariant LoopBytes(length) == LoopBytes(value) + bytes
      decreases value
    {
      assert LoopBytes(value) + bytes == LoopBytes((value % WORD) / 256) + ([value % 256] + bytes);
      bytes := [value % 256] + bytes;
      value := (value % WORD) / 256;
    }
    assert LoopBytes(0) + bytes == bytes;
    r := [128 + |bytes|] + bytes;
  }

  /** A strict reader: the value, and how many bytes it took. A long form that is longer than it need be, or
      indefinite, is refused. */
  function ReadLength(input: seq<Byte>): Option<(nat, nat)> {
    if input == [] then None
    else if input[0] < 128 then Some((input[0], 1))
    else
      var count := input[0] - 128;
      if count == 0 || |input| < 1 + count then None
      else
        var bytes := input[1..1 + count];
        if bytes[0] == 0 || BigEndian(bytes) < 128 then None else Some((BigEndian(bytes), 1 + count))
  }

  /** For every length below 2^32 the encoding is the minimal definite form and reads back to the length,
      whatever follows it. */
  lemma LengthRoundTrip(length: nat, rest: seq<Byte>)
    requires length < WORD
    ensures |LoopBytes(length)| <= 4
    ensures ReadLength(DerLength(length) + rest) == Some((length, |DerLength(length)|))
  {
    LoopIsShort(length);
    LoopIsBigEndian(length);
    if length >= 128 {
      var bytes := LoopBytes(length);
      assert (DerLength(length) + rest)[1..1 + |bytes|] == bytes;
    }
  }

  /** At and above 2^32 the shift loses the high bits, so below 2^32 is exactly where it works. */
  lemma LengthReadsBackIff(length: nat)
    ensures |LoopBytes(length)| <= 5
    ensures ReadLength(DerLength(length)) == Some((length, |DerLength(length)|)) <==> length < WORD
  {
    LoopIsShort(length);
    if length < WORD {
      LengthRoundTrip(length, []);
      assert DerLength(length) + [] == DerLength(length);
    } else {
      ReadsBackSmaller(length);
    }
  }

  lemma ReadsBackSmaller(length: nat)
    requires length >= WORD && |LoopBytes(length)| <= 5
    ensures ReadLength(DerLength(length)) != Some((length, |DerLength(length)|))
  {
    LoopLosesHighBits(length);
    var bytes, encoded := LoopBytes(length), DerLength(length);
    assert encoded[0] - 128 == |bytes| && encoded[1..1 + |bytes|] == bytes;
  }

  lemma LoopLosesHighBits(length: nat)
    requires length > 0
    ensures LoopBytes(length) != [] && BigEndian(LoopBytes(length)) < WORD
  {
    var shifted: nat := (length % WORD) / 256;
    LoopIsBigEndian(shifted);
    BigEndianSnoc(LoopBytes(shifted), length % 256);
    assert shifted < 0x100_0000;
  }

  // ---- values ----

  function Wrap(tag: Byte, content: seq<Byte>): seq<Byte>
    requires |content| < WORD
  {
    LoopIsShort(|content|);
    [tag] + DerLength(|content|) + content
  }

  /** A strict reader of one value of a given tag: its content and what follows. */
  function ReadValue(tag: Byte, input: seq<Byte>): Option<(seq<Byte>, seq<Byte>)> {
    if input == [] || input[0] != tag then None
    else
      match ReadLength(input[1..])
      case None => None
      case Some((length, used)) =>
        if |input| < 1 + used + length then None
        else Some((input[1 + used..1 + used + length], input[1 + used + length..]))
  }

  lemma ValueRoundTrip(tag: Byte, content: seq<Byte>, rest: seq<Byte>)
    requires |content| < WORD
    ensures ReadValue(tag, Wrap(tag, content) + rest) == Some((content, rest))
  {
    LengthRoundTrip(|content|, content + rest);
    var input := Wrap(tag, content) + rest;
    assert input[1..] == DerLength(|content|) + (content + rest);
    var start := 1 + |DerLength(|content|)|;
    assert input[start..start + |content|] == content;
    assert input[start + |content|..] == rest;
  }

  // ---- PrivateKeyInfo ----

  const RSA_ENCRYPTION: seq<Byte> := [0x2a, 0x86, 0x48, 0x86, 0xf7, 0x0d, 0x01, 0x01, 0x01]
  const ALGORITHM: seq<Byte> := [0x30, 0x0d, 0x06, 0x09] + RSA_ENCRYPTION + [0x05, 0x00]
  const VERSION: seq<Byte> := [0x02, 0x01, 0x00]

  function Pkcs1ToPkcs8(pkcs1: seq<Byte>): seq<Byte>
    requires |pkcs1| + 24 < WORD
  {
    LoopIsShort(|pkcs1|);
    Wrap(0x30, VERSION + ALGORITHM + Wrap(0x04, pkcs1))
  }

  datatype PrivateKeyInfo = PrivateKeyInfo(
    version: seq<Byte>, algorithm: seq<Byte>, parameters: seq<Byte>, key: seq<Byte>)

  /** Reads a PrivateKeyInfo and accepts no byte more or less. */
  function ReadPrivateKeyInfo(input: seq<Byte>): Option<PrivateKeyInfo> {
    match ReadValue(0x30, input)
    case None => None
    case Some((body, after)) =>
      if after != [] then None else
      match ReadValue(0x02, body)
      case None => None
      case Some((version, body1)) =>
        match ReadValue(0x30, body1)
        case None => None
        case Some((algorithm, body2)) =>
          match ReadValue(0x06, algorithm)
          case None => None
          case Some((identifier, tail)) =>
            match ReadValue(0x05, tail)
            case None => None
            case Some((parameters, nothing)) =>
              if nothing != [] then None else
              match ReadValue(0x04, body2)
              case None => None
              case Some((key, end)) =>
                if end != [] then None else Some(PrivateKeyInfo(version, identifier, parameters, key))
  }

  /** The algorithm block written out in the source is itself well-formed DER. */
  lemma AlgorithmIsDer()
    ensures ALGORITHM == Wrap(0x30, Wrap(0x06, RSA_ENCRYPTION) + Wrap(0x05, []))
    ensures VERSION == Wrap(0x02, [0])
  {}

  /** A strict reader of the wrapped key consumes every byte and finds version 0, the rsaEncryption identifier
      with NULL parameters, and exactly the key that was put in. */
  lemma Pkcs8RoundTrip(pkcs1: seq<Byte>)
    requires |pkcs1| + 24 < WORD
    ensures ReadPrivateKeyInfo(Pkcs1ToPkcs8(pkcs1)) == Some(PrivateKeyInfo([0], RSA_ENCRYPTION, [], pkcs1))
  {
    AlgorithmIsDer();
    LoopIsShort(|pkcs1|);
    var octets := Wrap(0x04, pkcs1);
    var body := VERSION + ALGORITHM + octets;
    assert Pkcs1ToPkcs8(pkcs1) + [] == Pkcs1ToPkcs8(pkcs1);
    ValueRoundTrip(0x30, body, []);
    assert body == VERSION + (ALGORITHM + octets);
    ValueRoundTrip(0x02, [0], ALGORITHM + octets);
    var algorithm := Wrap(0x06, RSA_ENCRYPTION) + Wrap(0x05, []);
    ValueRoundTrip(0x30, algorithm, octets);
    ValueRoundTrip(0x06, RSA_ENCRYPTION, Wrap(0x05, []));
    assert Wrap(0x05, []) + [] == Wrap(0x05, []);
    ValueRoundTrip(0x05, [], []);
    assert octets + [] == octets;
    ValueRoundTrip(0x04, pkcs1, []);
  }
}
