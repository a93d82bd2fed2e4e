/** Base64 as section 4 of RFC 4648 defines it, and its inverse. */
module Base64 {
  import opened Wrappers

  type Byte = b: int | 0 <= b < 256

  type Bytes = seq<Byte>

  const PAD: Byte := 61

  type Sextet = v: int | 0 <= v < 64

  /** "A-Z", "a-z", "0-9", "+", "/". */
  function EncodeChar(v: Sextet): Byte {
    if v < 26 then 65 + v
    else if v < 52 then 97 + (v - 26)
    else if v < 62 then 48 + (v - 52)
    else if v == 62 then 43
    else 47
  }

  function DecodeChar(c: Byte): Option<Sextet> {
    if 65 <= c <= 90 then Some(c - 65)
    else if 97 <= c <= 122 then Some(c - 97 + 26)
    else if 48 <= c <= 57 then Some(c - 48 + 52)
    else if c == 43 then Some(62)
    else if c == 47 then Some(63)
    else None
  }

  function EncodeGroup(a: Byte, b: Byte, c: Byte): Bytes {
    [EncodeChar(a / 4), EncodeChar(a % 4 * 16 + b / 16), EncodeChar(b % 16 * 4 + c / 64), EncodeChar(c % 64)]
  }

  function Encode(data: Bytes): Bytes {
    if data == [] then []
    else if |data| == 1 then EncodeGroup(data[0], 0, 0)[..2] + [PAD, PAD]
    else if |data| == 2 then EncodeGroup(data[0], data[1], 0)[..3] + [PAD]
    else EncodeGroup(data[0], data[1], data[2]) + Encode(data[3..])
  }

  function ThreeBytes(p: Sextet, q: Sextet, r: Sextet, s: Sextet): Bytes {
    [p * 4 + q / 16, q % 16 * 16 + r / 4, r % 4 * 64 + s]
  }

  /** Four characters without padding. */
  function DecodeGroup(t: Bytes): Option<Bytes>
    requires |t| == 4
  {
    match (DecodeChar(t[0]), DecodeChar(t[1]), DecodeChar(t[2]), DecodeChar(t[3]))
    case (Some(p), Some(q), Some(r), Some(s)) => Some(ThreeBytes(p, q, r, s))
    case _ => None
  }

  /** The last four characters, which may end in padding: a missing character counts as
      zero bits and its byte is dropped. */
  function DecodeLast(t: Bytes): Option<Bytes>
    requires |t| == 4
  {
    if t[3] != PAD then DecodeGroup(t)
    else if t[2] != PAD then
      var g := DecodeGroup([t[0], t[1], t[2], EncodeChar(0)]);
      if g.Some? then Some(g.value[..2]) else None
    else
      var g := DecodeGroup([t[0], t[1], EncodeChar(0), EncodeChar(0)]);
      if g.Some? then Some(g.value[..1]) else None
  }

  function Decode(text: Bytes): Option<Bytes> {
    if text == [] then Some([])
    else if |text| < 4 then None
    else if |text| == 4 then DecodeLast(text)
    else
      var head, tail := DecodeGroup(text[..4]), Decode(text[4..]);
      if head.Some? && tail.Some? then Some(head.value + tail.value) else None
  }

  lemma CharRoundTrip(v: Sextet)
    ensures DecodeChar(EncodeChar(v)) == Some(v) && EncodeChar(v) != PAD
  {
  }

  lemma CharsRoundTrip(p: Sextet, q: Sextet, r: Sextet, s: Sextet)
    ensures DecodeGroup([EncodeChar(p), EncodeChar(q), EncodeChar(r), EncodeChar(s)]) == Some(ThreeBytes(p, q, r, s))
  {
    CharRoundTrip(p);
    CharRoundTrip(q);
    CharRoundTrip(r);
    CharRoundTrip(s);
  }

  /** Two fields packed into one number come apart again. */
  lemma Unpack(high: nat, low: nat, size: nat)
    requires (size == 4 || size == 16) && low < size
    ensures (high * size + low) / size == high && (high * size + low) % size == low
  {
  }

  lemma GroupRoundTrip(a: Byte, b: Byte, c: Byte)
    ensures DecodeGroup(EncodeGroup(a, b, c)) == Some([a, b, c])
    ensures EncodeGroup(a, b, c)[2] != PAD && EncodeGroup(a, b, c)[3] != PAD
  {
    var p, q, r, s := a / 4, a % 4 * 16 + b / 16, b % 16 * 4 + c / 64, c % 64;
    CharsRoundTrip(p, q, r, s);
    CharRoundTrip(r);
    CharRoundTrip(s);
    assert ThreeBytes(p, q, r, s) == [a, b, c] by {
      Unpack(a % 4, b / 16, 16);
      Unpack(b % 16, c / 64, 4);
    }
  }

  lemma {:induction false} RoundTrip(data: Bytes)
    ensures Decode(Encode(data)) == Some(data)
  {
    if |data| == 1 {
      GroupRoundTrip(data[0], 0, 0);
      var t := Encode(data);
      assert [t[0], t[1], EncodeChar(0), EncodeChar(0)] == EncodeGroup(data[0], 0, 0);
      assert data == [data[0], 0, 0][..1];
    } else if |data| == 2 {
      GroupRoundTrip(data[0], data[1], 0);
      var t := Encode(data);
      assert [t[0], t[1], t[2], EncodeChar(0)] == EncodeGroup(data[0], data[1], 0);
      assert data == [data[0], data[1], 0][..2];
    } else if |data| >= 3 {
      var group, tail := EncodeGroup(data[0], data[1], data[2]), data[3..];
      GroupRoundTrip(data[0], data[1], data[2]);
      assert data == [data[0], data[1], data[2]] + tail;
      if tail == [] {
        assert Encode(data) == group && data == [data[0], data[1], data[2]];
      } else {
        EncodedIsText(tail);
        RoundTrip(tail);
        assert Encode(data)[..4] == group && Encode(data)[4..] == Encode(tail);
      }
    }
  }

  /** Encoded text is printable ASCII, so a line holding it is too. */
  lemma {:induction false} EncodedIsText(data: Bytes)
    ensures forall c :: c in Encode(data) ==> 43 <= c <= 122
    ensures data != [] ==> Encode(data) != []
  {
    if |data| >= 3 {
      EncodedIsText(data[3..]);
    }
  }


  /** The bytes of plain text. */
  function Ascii(text: string): Bytes
    requires forall i :: 0 <= i < |text| ==> text[i] < '\U{0080}'
  {
    seq(|text|, i requires 0 <= i < |text| => text[i] as int)
  }

  /** The alphabet of Table 1: A to Z, a to z, 0 to 9, then "+" and "/". */
  lemma AlphabetIs(v: Sextet)
    ensures v <= 25 ==> EncodeChar(v) == 'A' as int + v
    ensures 26 <= v <= 51 ==> EncodeChar(v) == 'a' as int + (v - 26)
    ensures 52 <= v <= 61 ==> EncodeChar(v) == '0' as int + (v - 52)
    ensures EncodeChar(62) == '+' as int && EncodeChar(63) == '/' as int
  {
  }

  /** Three bytes and the four characters they become are one 24-bit number. */
  lemma GroupIsNumber(a: Byte, b: Byte, c: Byte) returns (p: Sextet, q: Sextet, r: Sextet, s: Sextet)
    ensures EncodeGroup(a, b, c) == [EncodeChar(p), EncodeChar(q), EncodeChar(r), EncodeChar(s)]
    ensures a * 65536 + b * 256 + c == p * 262144 + q * 4096 + r * 64 + s
  {
    p, q, r, s := a / 4, a % 4 * 16 + b / 16, b % 16 * 4 + c / 64, c % 64;
  }

  /** The "=" signs for n bytes. */
  function Pads(n: nat): Bytes {
    if n % 3 == 0 then [] else if n % 3 == 1 then Ascii("==") else Ascii("=")
  }

  /** Four characters for every three bytes begun. */
  lemma {:induction false} EncodedLength(data: Bytes)
    ensures |Encode(data)| == (|data| + 2) / 3 * 4
  {
    if |data| >= 3 {
      EncodedLength(data[3..]);
    }
  }

  /** The last ones are "=" where bytes are missing, and no others are. */
  lemma {:induction false} PaddedExactly(data: Bytes) returns (text: Bytes)
    ensures 61 !in text && Encode(data) == text + Pads(|data|)
  {
    if data == [] {
      text := [];
    } else if |data| == 1 {
      NotPad(data[0], 0, 0);
      text := EncodeGroup(data[0], 0, 0)[..2];
    } else if |data| == 2 {
      NotPad(data[0], data[1], 0);
      text := EncodeGroup(data[0], data[1], 0)[..3];
    } else {
      NotPad(data[0], data[1], data[2]);
      var more := PaddedExactly(data[3..]);
      assert |data| % 3 == |data[3..]| % 3;
      text := EncodeGroup(data[0], data[1], data[2]) + more;
    }
  }

  lemma NotPad(a: Byte, b: Byte, c: Byte)
    ensures 61 !in EncodeGroup(a, b, c)
  {
  }
}
