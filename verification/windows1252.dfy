/**
 * The windows-1252 single-byte encoding as the WHATWG Encoding Standard defines
 * it (index-windows-1252, section 9.1). The labels "windows-1252" and
 * "iso-8859-1" both name this encoding there, and its decoder maps every byte,
 * so a fatal `TextDecoder` for either label never fails.
 */
module Windows1252 {
  import opened Wrappers
  import opened JsValues

  /** The code point of a byte in 0x80..0x9F; the other bytes are their own code point. */
  function HighCodePoint(x: int): (v: int)
    requires 0x80 <= x <= 0x9F
    ensures 0x80 <= v < 0x2200
  {
    if x == 0x80 then 0x20AC else if x == 0x82 then 0x201A
    else if x == 0x83 then 0x0192 else if x == 0x84 then 0x201E
    else if x == 0x85 then 0x2026 else if x == 0x86 then 0x2020
    else if x == 0x87 then 0x2021 else if x == 0x88 then 0x02C6
    else if x == 0x89 then 0x2030 else if x == 0x8A then 0x0160
    else if x == 0x8B then 0x2039 else if x == 0x8C then 0x0152
    else if x == 0x8E then 0x017D else if x == 0x91 then 0x2018
    else if x == 0x92 then 0x2019 else if x == 0x93 then 0x201C
    else if x == 0x94 then 0x201D else if x == 0x95 then 0x2022
    else if x == 0x96 then 0x2013 else if x == 0x97 then 0x2014
    else if x == 0x98 then 0x02DC else if x == 0x99 then 0x2122
    else if x == 0x9A then 0x0161 else if x == 0x9B then 0x203A
    else if x == 0x9C then 0x0153 else if x == 0x9E then 0x017E
    else if x == 0x9F then 0x0178
    else x // 0x81, 0x8D, 0x8F, 0x90 and 0x9D
  }

  function DecodeByte(x: byte): char {
    if 0x80 <= x <= 0x9F then HighCodePoint(x) as char else x as char
  }

  /** `new TextDecoder('windows-1252', { fatal: true }).decode(b)`: one character per byte. */
  function Decode(b: seq<byte>): (r: string)
    ensures |r| == |b|
    ensures forall i :: 0 <= i < |b| ==> r[i] == DecodeByte(b[i])
  {
    if b == [] then "" else [DecodeByte(b[0])] + Decode(b[1..])
  }

  /** The windows-1252 encoder for one character: `None` for a character the index lacks. */
  function EncodeChar(c: char): Option<byte> {
    var v := c as int;
    if v < 0x80 || 0xA0 <= v <= 0xFF then Some(v)
    else if v == 0x81 || v == 0x8D || v == 0x8F || v == 0x90 || v == 0x9D then Some(v)
    else if v == 0x20AC then Some(0x80) else if v == 0x201A then Some(0x82)
    else if v == 0x0192 then Some(0x83) else if v == 0x201E then Some(0x84)
    else if v == 0x2026 then Some(0x85) else if v == 0x2020 then Some(0x86)
    else if v == 0x2021 then Some(0x87) else if v == 0x02C6 then Some(0x88)
    else if v == 0x2030 then Some(0x89) else if v == 0x0160 then Some(0x8A)
    else if v == 0x2039 then Some(0x8B) else if v == 0x0152 then Some(0x8C)
    else if v == 0x017D then Some(0x8E) else if v == 0x2018 then Some(0x91)
    else if v == 0x2019 then Some(0x92) else if v == 0x201C then Some(0x93)
    else if v == 0x201D then Some(0x94) else if v == 0x2022 then Some(0x95)
    else if v == 0x2013 then Some(0x96) else if v == 0x2014 then Some(0x97)
    else if v == 0x02DC then Some(0x98) else if v == 0x2122 then Some(0x99)
    else if v == 0x0161 then Some(0x9A) else if v == 0x203A then Some(0x9B)
    else if v == 0x0153 then Some(0x9C) else if v == 0x017E then Some(0x9E)
    else if v == 0x0178 then Some(0x9F)
    else None
  }

  /** The table is a bijection between the 256 bytes and the characters it lists. */
  lemma DecodeByteInverse(x: byte, c: char)
    ensures DecodeByte(x) == c <==> EncodeChar(c) == Some(x)
  {
    if 0x80 <= x <= 0x9F {
      assert HighCodePoint(x) < 0x80 || HighCodePoint(x) > 0xFF || HighCodePoint(x) == x;
    }
  }

  /** Distinct bytes decode to distinct characters, so decoding loses nothing. */
  lemma DecodeInjective(b1: seq<byte>, b2: seq<byte>)
    requires Decode(b1) == Decode(b2)
    ensures b1 == b2
  {
    assert |b1| == |b2|;
    forall i | 0 <= i < |b1|
      ensures b1[i] == b2[i]
    {
      DecodeByteInverse(b1[i], Decode(b1)[i]);
      DecodeByteInverse(b2[i], Decode(b2)[i]);
    }
  }

  /** A host whose windows-1252 decoder is the one the WHATWG Encoding Standard defines. */
  ghost predicate StandardDecoder(host: Host) {
    forall b: seq<byte> {:trigger host.decodeWindows1252(b)} :: host.decodeWindows1252(b) == Some(Decode(b))
  }
}
