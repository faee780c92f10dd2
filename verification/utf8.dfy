/**
 * UTF-8 as `TextDecoder('utf-8')` decodes it: the UTF-8 decoder of the WHATWG
 * Encoding Standard (section 8.1.1), whose well-formed inputs are exactly
 * those of RFC 3629, in its fatal form (any error fails) and its replacing
 * form (each error gives U+FFFD), plus the encoder that is its inverse.
 */
module Utf8 {
  import opened Wrappers
  import opened JsValues

  const Replacement: char := 0xFFFD as char
  const ByteOrderMark: char := 0xFEFF as char

  /** One step of the decoder: a scalar value, or an error, with the number of bytes consumed. */
  datatype Token = Scalar(c: char, size: nat) | Malformed(size: nat)

  predicate IsContinuation(x: int) {
    0x80 <= x <= 0xBF
  }

  /** The scalar value of a two-, three- or four-byte sequence. */
  function Value2(x: int, y: int): int {
    (x - 0xC0) * 64 + (y - 0x80)
  }

  function Value3(x: int, y: int, z: int): int {
    (x - 0xE0) * 4096 + (y - 0x80) * 64 + (z - 0x80)
  }

  function Value4(x: int, y: int, z: int, w: int): int {
    (x - 0xF0) * 262144 + (y - 0x80) * 4096 + (z - 0x80) * 64 + (w - 0x80)
  }

  /** The range the second byte must lie in after lead byte `x` (table 3-7 of the Unicode Standard). */
  function SecondLow(x: int): int {
    if x == 0xE0 then 0xA0 else if x == 0xF0 then 0x90 else 0x80
  }

  function SecondHigh(x: int): int {
    if x == 0xED then 0x9F else if x == 0xF4 then 0x8F else 0xBF
  }

  /**
   * The next token at the start of `b`. A bad continuation byte is not consumed
   * (the decoder puts it back), and input that ends inside a sequence is one error.
   */
  function NextToken(b: seq<byte>): (t: Token)
    requires |b| > 0
    ensures 1 <= t.size <= |b| && t.size <= 4
  {
    var x := b[0] as int;
    if x < 0x80 then Scalar(x as char, 1)
    else if 0xC2 <= x <= 0xDF then
      if |b| < 2 then Malformed(|b|)
      else if !IsContinuation(b[1]) then Malformed(1)
      else Scalar(Value2(x, b[1]) as char, 2)
    else if 0xE0 <= x <= 0xEF then
      if |b| < 2 then Malformed(|b|)
      else if !(SecondLow(x) <= b[1] <= SecondHigh(x)) then Malformed(1)
      else if |b| < 3 then Malformed(|b|)
      else if !IsContinuation(b[2]) then Malformed(2)
      else Scalar(Value3(x, b[1], b[2]) as char, 3)
    else if 0xF0 <= x <= 0xF4 then
      if |b| < 2 then Malformed(|b|)
      else if !(SecondLow(x) <= b[1] <= SecondHigh(x)) then Malformed(1)
      else if |b| < 3 then Malformed(|b|)
      else if !IsContinuation(b[2]) then Malformed(2)
      else if |b| < 4 then Malformed(|b|)
      else if !IsContinuation(b[3]) then Malformed(3)
      else Scalar(Value4(x, b[1], b[2], b[3]) as char, 4)
    else Malformed(1)
  }

  /** Fatal decoding: `None` as soon as the decoder meets an error. */
  function StrictDecode(b: seq<byte>): Option<string>
    decreases |b|
  {
    if b == [] then Some("")
    else match NextToken(b)
      case Malformed(_) => None
      case Scalar(c, n) =>
        match StrictDecode(b[n..])
        case None => None
        case Some(s) => Some([c] + s)
  }

  /** Replacing decoding: each error becomes U+FFFD. */
  function LossyDecode(b: seq<byte>): string
    decreases |b|
  {
    if b == [] then ""
    else match NextToken(b)
      case Malformed(n) => [Replacement] + LossyDecode(b[n..])
      case Scalar(c, n) => [c] + LossyDecode(b[n..])
  }

  /** A `TextDecoder` whose "ignore BOM" flag is unset drops one leading U+FEFF. */
  function StripBom(s: string): (r: string)
    ensures r == s || (s != [] && s[0] == ByteOrderMark && r == s[1..])
  {
    if |s| > 0 && s[0] == ByteOrderMark then s[1..] else s
  }

  /** `new TextDecoder('utf-8', { fatal: true }).decode(b)`; `None` is the `TypeError` it throws. */
  function TextDecodeFatal(b: seq<byte>): (r: Option<string>)
    ensures r.None? <==> StrictDecode(b).None?
    ensures r.Some? ==> Encode(r.value) == b || Encode([ByteOrderMark] + r.value) == b
  {
    assert StrictDecode(b).Some? ==> Encode(StrictDecode(b).value) == b by {
      if StrictDecode(b).Some? { EncodeDecode(b); }
    }
    match StrictDecode(b)
    case None => None
    case Some(s) => Some(StripBom(s))
  }

  /** `new TextDecoder('utf-8', { fatal: false }).decode(b)`, which never throws. */
  function TextDecodeReplacing(b: seq<byte>): (r: string)
    ensures StrictDecode(b).Some? ==> Some(r) == TextDecodeFatal(b)
  {
    assert StrictDecode(b).Some? ==> LossyDecode(b) == StrictDecode(b).value by {
      if StrictDecode(b).Some? { LossyAgreesWithStrict(b); }
    }
    StripBom(LossyDecode(b))
  }

  /** The UTF-8 encoding of one scalar value (RFC 3629 section 3). */
  function EncodeChar(c: char): (r: seq<byte>)
    ensures 1 <= |r| <= 4
  {
    var v := c as int;
    if v < 0x80 then [v]
    else if v < 0x800 then [0xC0 + v / 64, 0x80 + v % 64]
    else if v < 0x10000 then [0xE0 + v / 4096, 0x80 + (v / 64) % 64, 0x80 + v % 64]
    else [0xF0 + v / 262144, 0x80 + (v / 4096) % 64, 0x80 + (v / 64) % 64, 0x80 + v % 64]
  }

  /** `new TextEncoder().encode(s)`. */
  function Encode(s: string): seq<byte> {
    if s == [] then [] else EncodeChar(s[0]) + Encode(s[1..])
  }

  lemma DivMod64(n: int, q: int, r: int)
    requires n == q * 64 + r && 0 <= r < 64
    ensures n / 64 == q && n % 64 == r
  {
  }

  lemma DivMod4096(n: int, q: int, r: int)
    requires n == q * 4096 + r && 0 <= r < 4096
    ensures n / 4096 == q
  {
  }

  lemma DivMod262144(n: int, q: int, r: int)
    requires n == q * 262144 + r && 0 <= r < 262144
    ensures n / 262144 == q
  {
  }

  /** The digits of a code point in base 64, most significant first. */
  lemma Digits3(v: int)
    requires 0 <= v < 0x10000
    ensures v == (v / 4096) * 4096 + ((v / 64) % 64) * 64 + v % 64
    ensures 0 <= v / 4096 < 16 && 0 <= (v / 64) % 64 < 64
  {
    var a := v / 64;
    DivMod64(a, a / 64, a % 64);
    DivMod4096(v, a / 64, (a % 64) * 64 + v % 64);
  }

  lemma Digits4(v: int)
    requires 0x10000 <= v < 0x110000
    ensures v == (v / 262144) * 262144 + ((v / 4096) % 64) * 4096 + ((v / 64) % 64) * 64 + v % 64
    ensures 0 <= v / 262144 <= 4 && 0 <= (v / 4096) % 64 < 64 && 0 <= (v / 64) % 64 < 64
    ensures v / 262144 == 0 ==> (v / 4096) % 64 >= 0x10
    ensures v / 262144 == 4 ==> (v / 4096) % 64 < 0x10
  {
    var a := v / 64;
    var a2 := a / 64;
    DivMod64(a, a2, a % 64);
    DivMod64(a2, a2 / 64, a2 % 64);
    DivMod4096(v, a2, (a % 64) * 64 + v % 64);
    DivMod262144(v, a2 / 64, (a2 % 64) * 4096 + (a % 64) * 64 + v % 64);
  }

  lemma NextTokenOfEncoding2(c: char, rest: seq<byte>)
    requires 0x80 <= c as int < 0x800
    ensures NextToken(EncodeChar(c) + rest) == Scalar(c, 2)
  {
    var v := c as int;
    var b := EncodeChar(c) + rest;
    DivMod64(v, v / 64, v % 64);
    assert b[0] == 0xC0 + v / 64 && b[1] == 0x80 + v % 64;
    assert Value2(b[0], b[1]) == v;
  }

  lemma NextTokenOfEncoding3(c: char, rest: seq<byte>)
    requires 0x800 <= c as int < 0x10000
    ensures NextToken(EncodeChar(c) + rest) == Scalar(c, 3)
  {
    var v := c as int;
    var b := EncodeChar(c) + rest;
    Digits3(v);
    assert b[0] == 0xE0 + v / 4096 && b[1] == 0x80 + (v / 64) % 64 && b[2] == 0x80 + v % 64;
    assert Value3(b[0], b[1], b[2]) == v;
    assert SecondLow(b[0]) <= b[1] <= SecondHigh(b[0]);
  }

  lemma NextTokenOfEncoding4(c: char, rest: seq<byte>)
    requires 0x10000 <= c as int
    ensures NextToken(EncodeChar(c) + rest) == Scalar(c, 4)
  {
    var v := c as int;
    var b := EncodeChar(c) + rest;
    Digits4(v);
    assert b[0] == 0xF0 + v / 262144 && b[1] == 0x80 + (v / 4096) % 64;
    assert b[2] == 0x80 + (v / 64) % 64 && b[3] == 0x80 + v % 64;
    assert Value4(b[0], b[1], b[2], b[3]) == v;
    assert SecondLow(b[0]) <= b[1] <= SecondHigh(b[0]);
  }

  /** The decoder reads back the first character of any encoding. */
  lemma NextTokenOfEncoding(c: char, rest: seq<byte>)
    ensures NextToken(EncodeChar(c) + rest) == Scalar(c, |EncodeChar(c)|)
  {
    var v := c as int;
    if v < 0x80 {
    } else if v < 0x800 {
      NextTokenOfEncoding2(c, rest);
    } else if v < 0x10000 {
      NextTokenOfEncoding3(c, rest);
    } else {
      NextTokenOfEncoding4(c, rest);
    }
  }

  /** Decoding an encoding gives the text back. */
  lemma {:induction false} DecodeEncode(s: string)
    ensures StrictDecode(Encode(s)) == Some(s)
  {
    if s != [] {
      var e := EncodeChar(s[0]);
      var b := Encode(s);
      assert b == e + Encode(s[1..]);
      NextTokenOfEncoding(s[0], Encode(s[1..]));
      assert b[|e|..] == Encode(s[1..]);
      DecodeEncode(s[1..]);
      assert StrictDecode(b) == Some([s[0]] + s[1..]);
      assert [s[0]] + s[1..] == s;
    }
  }

  lemma EncodingOfValue2(x: int, y: int)
    requires 0xC2 <= x <= 0xDF && IsContinuation(y)
    ensures 0x80 <= Value2(x, y) < 0x800
    ensures EncodeChar(Value2(x, y) as char) == [x, y]
  {
    DivMod64(Value2(x, y), x - 0xC0, y - 0x80);
  }

  lemma EncodingOfValue3(x: int, y: int, z: int)
    requires 0xE0 <= x <= 0xEF && SecondLow(x) <= y <= SecondHigh(x) && IsContinuation(z)
    ensures 0x800 <= Value3(x, y, z) < 0x10000
    ensures EncodeChar(Value3(x, y, z) as char) == [x, y, z]
  {
    var v := Value3(x, y, z);
    DivMod4096(v, x - 0xE0, (y - 0x80) * 64 + (z - 0x80));
    DivMod64(v, (x - 0xE0) * 64 + (y - 0x80), z - 0x80);
    DivMod64(v / 64, x - 0xE0, y - 0x80);
  }

  lemma EncodingOfValue4(x: int, y: int, z: int, w: int)
    requires 0xF0 <= x <= 0xF4 && SecondLow(x) <= y <= SecondHigh(x)
    requires IsContinuation(z) && IsContinuation(w)
    ensures 0x10000 <= Value4(x, y, z, w) < 0x110000
    ensures EncodeChar(Value4(x, y, z, w) as char) == [x, y, z, w]
  {
    var v := Value4(x, y, z, w);
    var q, k, m, r := x - 0xF0, y - 0x80, z - 0x80, w - 0x80;
    DivMod262144(v, q, k * 4096 + m * 64 + r);
    DivMod4096(v, q * 64 + k, m * 64 + r);
    DivMod64(v / 4096, q, k);
    DivMod64(v, q * 4096 + k * 64 + m, r);
    DivMod64(v / 64, q * 64 + k, m);
  }

  /** Every scalar token is the encoding of its character. */
  lemma EncodingOfToken(b: seq<byte>)
    requires |b| > 0 && NextToken(b).Scalar?
    ensures EncodeChar(NextToken(b).c) == b[..NextToken(b).size]
  {
    var x := b[0] as int;
    if x < 0x80 {
    } else if x <= 0xDF {
      EncodingOfValue2(x, b[1]);
    } else if x <= 0xEF {
      EncodingOfValue3(x, b[1], b[2]);
    } else {
      EncodingOfValue4(x, b[1], b[2], b[3]);
    }
  }

  /** One step of a successful strict decoding. */
  lemma StrictDecodeStep(b: seq<byte>)
    requires b != [] && StrictDecode(b).Some?
    ensures NextToken(b).Scalar? && StrictDecode(b[NextToken(b).size..]).Some?
    ensures StrictDecode(b).value == [NextToken(b).c] + StrictDecode(b[NextToken(b).size..]).value
  {
  }

  /** An encoding split after its first character. */
  lemma EncodeCons(b: seq<byte>, n: nat, c: char, u: string)
    requires n <= |b| && EncodeChar(c) == b[..n] && Encode(u) == b[n..]
    ensures Encode([c] + u) == b
  {
    assert ([c] + u)[1..] == u;
    assert b == b[..n] + b[n..];
  }

  /** A successful strict decoding re-encodes to the very same bytes. */
  lemma {:induction false} EncodeDecode(b: seq<byte>)
    requires StrictDecode(b).Some?
    ensures Encode(StrictDecode(b).value) == b
    decreases |b|
  {
    if b != [] {
      StrictDecodeStep(b);
      var t := NextToken(b);
      EncodingOfToken(b);
      EncodeDecode(b[t.size..]);
      EncodeCons(b, t.size, t.c, StrictDecode(b[t.size..]).value);
    }
  }

  /** Strict decoding succeeds with `s` exactly when `b` is the encoding of `s`. */
  lemma StrictDecodeIffEncoding(b: seq<byte>, s: string)
    ensures StrictDecode(b) == Some(s) <==> Encode(s) == b
  {
    if StrictDecode(b) == Some(s) {
      EncodeDecode(b);
    }
    if Encode(s) == b {
      DecodeEncode(s);
    }
  }

  /** Where strict decoding succeeds, replacing decoding gives the same text. */
  lemma {:induction false} LossyAgreesWithStrict(b: seq<byte>)
    requires StrictDecode(b).Some?
    ensures LossyDecode(b) == StrictDecode(b).value
    decreases |b|
  {
    if b != [] {
      LossyAgreesWithStrict(b[NextToken(b).size..]);
    }
  }

  /** Bytes below 0x80 decode one character per byte. */
  lemma {:induction false} AsciiDecodes(b: seq<byte>)
    requires forall i :: 0 <= i < |b| ==> b[i] < 0x80
    ensures StrictDecode(b).Some? && |StrictDecode(b).value| == |b|
    ensures forall i :: 0 <= i < |b| ==> StrictDecode(b).value[i] as int == b[i]
    decreases |b|
  {
    if b != [] {
      AsciiDecodes(b[1..]);
    }
  }
}
