/** UTF-8 (RFC 3629) and the truncation of lib/artifact-search-tool.ts:13. */
module Utf8 {
  import opened Options
  import opened PrefixCode

  type Byte = b: int | 0 <= b < 256
  /** A Unicode scalar value: a code point that is not a surrogate. */
  type Scalar = c: int | 0 <= c < 0xD800 || 0xE000 <= c < 0x11_0000

  /** `(b & 0xc0) === 0x80`: the top two bits of a byte are its quotient by 64. */
  predicate Continuation(b: Byte) { b / 64 == 2 }

  /** One code point (section 3). */
  function Encode(c: Scalar): seq<Byte> {
    if c < 0x80 then [c]
    else if c < 0x800 then [0xC0 + c / 64, 0x80 + c % 64]
    else if c < 0x1_0000 then [0xE0 + c / 4096, 0x80 + c / 64 % 64, 0x80 + c % 64]
    else [0xF0 + c / 262144, 0x80 + c / 4096 % 64, 0x80 + c / 64 % 64, 0x80 + c % 64]
  }

  /** The payload of a byte above its marker bits. */
  function Payload(b: Byte, marker: int): int { b - marker }

  /** A strict reader of one code point: no overlong form, no surrogate, nothing above U+10FFFF. */
  function DecodeOne(b: seq<Byte>): Option<(Scalar, nat)> {
    if |b| >= 1 && b[0] < 0x80 then Some((b[0], 1))
    else if |b| >= 2 && 0xC0 <= b[0] < 0xE0 && Continuation(b[1]) then
      var c := Payload(b[0], 0xC0) * 64 + Payload(b[1], 0x80);
      if c < 0x80 then None else Some((c, 2))
    else if |b| >= 3 && 0xE0 <= b[0] < 0xF0 && Continuation(b[1]) && Continuation(b[2]) then
      var c := Payload(b[0], 0xE0) * 4096 + Payload(b[1], 0x80) * 64 + Payload(b[2], 0x80);
      if c < 0x800 || 0xD800 <= c < 0xE000 then None else Some((c, 3))
    else if |b| >= 4 && 0xF0 <= b[0] < 0xF8 && Continuation(b[1]) && Continuation(b[2]) && Continuation(b[3]) then
      var c := Payload(b[0], 0xF0) * 262144 + Payload(b[1], 0x80) * 4096 + Payload(b[2], 0x80) * 64 +
        Payload(b[3], 0x80);
      if c < 0x1_0000 || c >= 0x11_0000 then None else Some((c, 4))
    else None
  }

  lemma Digits(c: nat)
    ensures c == c / 64 * 64 + c % 64
    ensures c / 64 == c / 4096 * 64 + c / 64 % 64
    ensures c / 4096 == c / 262144 * 64 + c / 4096 % 64
  {}

  lemma DecodeTwo(c: Scalar, rest: seq<Byte>)
    requires 0x80 <= c < 0x800
    ensures DecodeOne(Encode(c) + rest) == Some((c, 2))
  {
    Digits(c);
  }

  lemma DecodeThree(c: Scalar, rest: seq<Byte>)
    requires 0x800 <= c < 0x1_0000
    ensures DecodeOne(Encode(c) + rest) == Some((c, 3))
  {
    Digits(c);
  }

  lemma DecodeFour(c: Scalar, rest: seq<Byte>)
    requires 0x1_0000 <= c
    ensures DecodeOne(Encode(c) + rest) == Some((c, 4))
  {
    Digits(c);
  }

  lemma DecodeOneEncode(c: Scalar, rest: seq<Byte>)
    ensures DecodeOne(Encode(c) + rest) == Some((c, |Encode(c)|))
  {
    if 0x80 <= c < 0x800 {
      DecodeTwo(c, rest);
    } else if 0x800 <= c < 0x1_0000 {
      DecodeThree(c, rest);
    } else if 0x1_0000 <= c {
      DecodeFour(c, rest);
    }
  }

  lemma EncodeTwo(x: int, y: int)
    requires 2 <= x < 32 && 0 <= y < 64
    ensures Encode(x * 64 + y) == [0xC0 + x, 0x80 + y]
  {
    assert (x * 64 + y) / 64 == x;
  }

  lemma EncodeThree(x: int, y: int, z: int)
    requires 0 <= x < 16 && 0 <= y < 64 && 0 <= z < 64
    requires var c := x * 4096 + y * 64 + z; 0x800 <= c && !(0xD800 <= c < 0xE000)
    ensures Encode(x * 4096 + y * 64 + z) == [0xE0 + x, 0x80 + y, 0x80 + z]
  {
    var c := x * 4096 + y * 64 + z;
    assert c / 64 == x * 64 + y;
    assert c / 4096 == x;
  }

  lemma EncodeFour(w: int, x: int, y: int, z: int)
    requires 0 <= w < 8 && 0 <= x < 64 && 0 <= y < 64 && 0 <= z < 64
    requires 0x1_0000 <= w * 262144 + x * 4096 + y * 64 + z < 0x11_0000
    ensures Encode(w * 262144 + x * 4096 + y * 64 + z) == [0xF0 + w, 0x80 + x, 0x80 + y, 0x80 + z]
  {
    var c := w * 262144 + x * 4096 + y * 64 + z;
    assert c / 64 == w * 4096 + x * 64 + y;
    assert c / 4096 == w * 64 + x;
    assert c / 262144 == w;
  }

  lemma EncodeDecodeOne(b: seq<Byte>)
    requires DecodeOne(b).Some?
    ensures DecodeOne(b).value.1 <= |b| && Encode(DecodeOne(b).value.0) == b[..DecodeOne(b).value.1]
  {
    var used := DecodeOne(b).value.1;
    if used == 2 {
      EncodeTwo(Payload(b[0], 0xC0), Payload(b[1], 0x80));
    } else if used == 3 {
      EncodeThree(Payload(b[0], 0xE0), Payload(b[1], 0x80), Payload(b[2], 0x80));
    } else if used == 4 {
      EncodeFour(Payload(b[0], 0xF0), Payload(b[1], 0x80), Payload(b[2], 0x80), Payload(b[3], 0x80));
    }
  }

  lemma DecodeOneShape(b: seq<Byte>, m: nat)
    requires DecodeOne(b).Some? && m <= |b|
    ensures 1 <= DecodeOne(b).value.1 <= 4
    ensures m < DecodeOne(b).value.1 <= |b| ==> (Continuation(b[m]) <==> m > 0)
    ensures 0 < m < DecodeOne(b).value.1 ==> DecodeOne(b[..m]).None?
    ensures DecodeOne(b).value.1 <= m ==> DecodeOne(b[..m]) == DecodeOne(b)
  {}

  /** UTF-8 is a code in the sense of the module PrefixCode, and continuation bytes are its marks. */
  lemma Utf8IsCodec()
    ensures Codec(Encode, DecodeOne) && Marked(DecodeOne, Continuation)
  {
    forall b: seq<Byte> | DecodeOne(b).Some?
      ensures 0 < DecodeOne(b).value.1 <= |b| && Encode(DecodeOne(b).value.0) == b[..DecodeOne(b).value.1]
    {
      EncodeDecodeOne(b);
      DecodeOneShape(b, 0);
    }
    forall c: Scalar, rest: seq<Byte> ensures DecodeOne(Encode(c) + rest) == Some((c, |Encode(c)|)) {
      DecodeOneEncode(c, rest);
    }
    forall b: seq<Byte>, m: nat | DecodeOne(b).Some? && m <= |b|
      ensures m < DecodeOne(b).value.1 <= |b| ==> (Continuation(b[m]) <==> m > 0)
      ensures 0 < m < DecodeOne(b).value.1 ==> DecodeOne(b[..m]).None?
      ensures DecodeOne(b).value.1 <= m ==> DecodeOne(b[..m]) == DecodeOne(b)
    {
      DecodeOneShape(b, m);
    }
  }

  /** A byte string is valid UTF-8 exactly when it encodes some sequence of code points. */
  lemma ValidIffEncoded(b: seq<Byte>)
    ensures Valid(DecodeOne, b) <==> exists cs: seq<Scalar> :: EncodeAll(Encode, cs) == b
  {
    Utf8IsCodec();
    if Valid(DecodeOne, b) { EncodeDecode(Encode, DecodeOne, b); }
    forall cs: seq<Scalar> | EncodeAll(Encode, cs) == b ensures Valid(DecodeOne, b) {
      DecodeEncode(Encode, DecodeOne, cs);
    }
  }

  /** `truncateUtf8` on the bytes of a string: where to cut, and whether anything is cut. The cut is the longest
      valid prefix that fits, at most three bytes short of the limit, and encodes a prefix of the code points
      that no further code point would fit into. */
  method TruncateUtf8(bytes: seq<Byte>, max: nat) returns (end: nat, truncated: bool)
    requires Valid(DecodeOne, bytes)
    ensures truncated <==> |bytes| > max
    ensures !truncated ==> end == |bytes|
    ensures end <= max && end <= |bytes| && Valid(DecodeOne, bytes[..end])
    ensures truncated ==> max - 3 <= end
    ensures forall m: nat :: end < m <= max && m <= |bytes| ==> !Valid(DecodeOne, bytes[..m])
    ensures truncated ==> KeepsSymbols(Encode, DecodeOne, bytes, max, end)
  {
    if |bytes| <= max {
      assert bytes[..|bytes|] == bytes;
      return |bytes|, false;
    }
    end := max;
    while end != 0 && Continuation(bytes[end])
      invariant end <= max
      invariant forall m: nat :: end < m <= max ==> Continuation(bytes[m])
    {
      end := end - 1;
    }
    truncated := true;
    CutIsValid(bytes, max, end);
    CutIsNear(bytes, max, end);
    CutInCodePoints(bytes, max, end);
  }

  lemma CutIsValid(bytes: seq<Byte>, max: nat, end: nat)
    requires Valid(DecodeOne, bytes) && IsLastBoundary(Continuation, bytes, max, end)
    ensures Valid(DecodeOne, bytes[..end])
    ensures forall m: nat :: end < m <= max ==> !Valid(DecodeOne, bytes[..m])
  {
    Utf8IsCodec();
    BoundaryCut(DecodeOne, Continuation, bytes, max, end);
  }

  lemma AtMostFourBytes()
    ensures forall t :: DecodeOne(t).Some? ==> DecodeOne(t).value.1 <= 4
  {
    forall t: seq<Byte> | DecodeOne(t).Some? ensures DecodeOne(t).value.1 <= 4 { DecodeOneShape(t, 0); }
  }

  lemma CutIsNear(bytes: seq<Byte>, max: nat, end: nat)
    requires Valid(DecodeOne, bytes) && IsLastBoundary(Continuation, bytes, max, end)
    ensures max - 3 <= end
  {
    Utf8IsCodec();
    AtMostFourBytes();
    BoundaryIsNear(DecodeOne, Continuation, bytes, max);
  }

  lemma CutInCodePoints(bytes: seq<Byte>, max: nat, end: nat)
    requires Valid(DecodeOne, bytes) && IsLastBoundary(Continuation, bytes, max, end)
    ensures KeepsSymbols(Encode, DecodeOne, bytes, max, end)
  {
    Utf8IsCodec();
    BoundaryKeepsSymbols(Encode, DecodeOne, Continuation, bytes, max, end);
  }
}
