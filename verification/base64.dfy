/**
 * `atob` and `btoa`: the "forgiving-base64 decode" of the WHATWG Infra
 * Standard (section 4.7) over the standard alphabet of section 4 of RFC 4648,
 * and the padded encoder that is its inverse.
 */
module Base64 {
  import opened Wrappers
  import opened JsValues

  /** ASCII whitespace in the sense of the Infra Standard: TAB, LF, FF, CR, SPACE. */
  predicate IsAsciiWhitespace(c: char) {
    c == '\t' || c == '\n' || c as int == 0x0C || c == '\r' || c == ' '
  }

  /** A character of the standard Base64 alphabet (padding excluded). */
  predicate IsAlphabetChar(c: char) {
    ('A' <= c <= 'Z') || ('a' <= c <= 'z') || ('0' <= c <= '9') || c == '+' || c == '/'
  }

  predicate AllAlphabet(s: string) {
    forall i :: 0 <= i < |s| ==> IsAlphabetChar(s[i])
  }

  /** The six-bit value of an alphabet character. */
  function SextetOf(c: char): (v: int)
    requires IsAlphabetChar(c)
    ensures 0 <= v < 64
  {
    if 'A' <= c <= 'Z' then c as int - 'A' as int
    else if 'a' <= c <= 'z' then c as int - 'a' as int + 26
    else if '0' <= c <= '9' then c as int - '0' as int + 52
    else if c == '+' then 62
    else 63
  }

  /** The alphabet character of a six-bit value. */
  function CharOf(v: int): (c: char)
    requires 0 <= v < 64
    ensures IsAlphabetChar(c) && SextetOf(c) == v
  {
    if v < 26 then (v + 'A' as int) as char
    else if v < 52 then (v - 26 + 'a' as int) as char
    else if v < 62 then (v - 52 + '0' as int) as char
    else if v == 62 then '+'
    else '/'
  }

  /** Step 1: remove all ASCII whitespace. */
  function RemoveAsciiWhitespace(s: string): (r: string)
    ensures |r| <= |s|
    ensures forall c :: c in r <==> c in s && !IsAsciiWhitespace(c)
  {
    if s == [] then []
    else (if IsAsciiWhitespace(s[0]) then [] else [s[0]]) + RemoveAsciiWhitespace(s[1..])
  }

  /** Step 1 keeps the order of the kept characters: it distributes over concatenation. */
  lemma {:induction false} RemoveAsciiWhitespaceConcat(a: string, b: string)
    ensures RemoveAsciiWhitespace(a + b) == RemoveAsciiWhitespace(a) + RemoveAsciiWhitespace(b)
  {
    if a == [] {
      assert a + b == b;
    } else {
      assert (a + b)[0] == a[0] && (a + b)[1..] == a[1..] + b;
      RemoveAsciiWhitespaceConcat(a[1..], b);
    }
  }

  /** Step 2: when the length is a multiple of four, drop one or two trailing '='. */
  function StripPadding(s: string): (r: string)
    ensures |s| % 4 != 0 ==> r == s
    ensures r <= s && |s| - 2 <= |r|
  {
    if |s| % 4 != 0 then s
    else if |s| >= 2 && s[|s| - 2..] == "==" then s[..|s| - 2]
    else if |s| >= 1 && s[|s| - 1] == '=' then s[..|s| - 1]
    else s
  }

  /** The byte made of a group's first sextet and the high bits of its second. */
  function FirstOfGroup(a: int, b: int): byte
    requires 0 <= a < 64 && 0 <= b < 64
  {
    a * 4 + b / 16
  }

  /** The byte made of the low bits of the second sextet and the high bits of the third. */
  function SecondOfGroup(b: int, c: int): byte
    requires 0 <= b < 64 && 0 <= c < 64
  {
    (b % 16) * 16 + c / 4
  }

  /** The byte made of the low bits of the third sextet and the fourth. */
  function ThirdOfGroup(c: int, d: int): byte
    requires 0 <= c < 64 && 0 <= d < 64
  {
    (c % 4) * 64 + d
  }

  /** The bytes that the sextets of `s` carry, discarding the leftover bits of a final partial group. */
  function DecodeSextets(s: string): (r: seq<byte>)
    requires AllAlphabet(s) && |s| % 4 != 1
    ensures 4 * |r| <= 3 * |s| < 4 * |r| + 4
  {
    if |s| == 0 then []
    else if |s| == 2 then
      [FirstOfGroup(SextetOf(s[0]), SextetOf(s[1]))]
    else if |s| == 3 then
      [FirstOfGroup(SextetOf(s[0]), SextetOf(s[1])), SecondOfGroup(SextetOf(s[1]), SextetOf(s[2]))]
    else
      [FirstOfGroup(SextetOf(s[0]), SextetOf(s[1])),
       SecondOfGroup(SextetOf(s[1]), SextetOf(s[2])),
       ThirdOfGroup(SextetOf(s[2]), SextetOf(s[3]))]
      + DecodeSextets(s[4..])
  }

  /** The text that steps 1 and 2 leave for decoding. */
  function Prepared(data: string): string {
    StripPadding(RemoveAsciiWhitespace(data))
  }

  /**
   * Forgiving-base64 decode; `None` is failure, on which `atob` throws an
   * `InvalidCharacterError`. (`atob` returns one character per byte, which
   * `Uint8Array.from(bin, c => c.charCodeAt(0))` turns back into the same bytes.)
   */
  function ForgivingDecode(data: string): (r: Option<seq<byte>>)
    ensures r.None? <==> |Prepared(data)| % 4 == 1 || !AllAlphabet(Prepared(data))
    ensures r.Some? ==> 4 * |r.value| <= 3 * |Prepared(data)| < 4 * |r.value| + 4
  {
    var d := Prepared(data);
    if |d| % 4 == 1 then None
    else if !AllAlphabet(d) then None
    else Some(DecodeSextets(d))
  }

  /** The sextets of a group of three bytes, a zero byte standing in for a missing one. */
  function FirstSextet(x: byte): (v: int)
    ensures 0 <= v < 64
  {
    x / 4
  }

  function SecondSextet(x: byte, y: byte): (v: int)
    ensures 0 <= v < 64
  {
    (x % 4) * 16 + y / 16
  }

  function ThirdSextet(y: byte, z: byte): (v: int)
    ensures 0 <= v < 64
  {
    (y % 16) * 4 + z / 64
  }

  function FourthSextet(z: byte): (v: int)
    ensures 0 <= v < 64
  {
    z % 64
  }

  /** Base64 text of `b` without padding. */
  function EncodeUnpadded(b: seq<byte>): (r: string)
    ensures AllAlphabet(r)
    ensures |r| % 4 != 1
  {
    if |b| == 0 then ""
    else if |b| == 1 then
      [CharOf(FirstSextet(b[0])), CharOf(SecondSextet(b[0], 0))]
    else if |b| == 2 then
      [CharOf(FirstSextet(b[0])), CharOf(SecondSextet(b[0], b[1])), CharOf(ThirdSextet(b[1], 0))]
    else
      [CharOf(FirstSextet(b[0])), CharOf(SecondSextet(b[0], b[1])),
       CharOf(ThirdSextet(b[1], b[2])), CharOf(FourthSextet(b[2]))]
      + EncodeUnpadded(b[3..])
  }

  /** The unpadded text's length is a multiple of four plus two or three for a final one or two bytes. */
  lemma {:induction false} EncodeUnpaddedLength(b: seq<byte>)
    ensures |EncodeUnpadded(b)| % 4 == (if |b| % 3 == 0 then 0 else |b| % 3 + 1)
    decreases |b|
  {
    if |b| >= 3 {
      var m := |EncodeUnpadded(b[3..])|;
      assert |EncodeUnpadded(b)| == m + 4;
      EncodeUnpaddedLength(b[3..]);
      ShiftedRemainders(m, |b| - 3);
    }
  }

  lemma ShiftedRemainders(m: nat, n: nat)
    ensures (m + 4) % 4 == m % 4 && (n + 3) % 3 == n % 3
  {
  }

  /** The '=' characters that pad an encoding of `n` bytes to a multiple of four. */
  function PaddingFor(n: nat): string {
    if n % 3 == 1 then "==" else if n % 3 == 2 then "=" else ""
  }

  /** `btoa` over bytes: padded standard Base64. */
  function Encode(b: seq<byte>): (r: string)
    ensures |r| % 4 == 0
  {
    EncodeUnpaddedLength(b);
    PaddedLength(|EncodeUnpadded(b)|, |b|);
    EncodeUnpadded(b) + PaddingFor(|b|)
  }

  lemma PaddedLength(m: nat, n: nat)
    requires m % 4 == (if n % 3 == 0 then 0 else n % 3 + 1)
    ensures (m + |PaddingFor(n)|) % 4 == 0
  {
  }

  /** Splitting three bytes into four sextets and joining them again is the identity. */
  lemma GroupArithmetic(x: byte, y: byte, z: byte)
    ensures (x / 4) * 4 + ((x % 4) * 16 + y / 16) / 16 == x
    ensures (((x % 4) * 16 + y / 16) % 16) * 16 + ((y % 16) * 4 + z / 64) / 4 == y
    ensures (((y % 16) * 4 + z / 64) % 4) * 64 + z % 64 == z
    ensures ((x % 4) * 16) / 16 == x % 4
    ensures (((x % 4) * 16 + y / 16) % 16) * 16 + ((y % 16) * 4) / 4 == y
  {
    assert y / 16 < 16;
    assert ((x % 4) * 16 + y / 16) / 16 == x % 4;
    assert ((x % 4) * 16 + y / 16) % 16 == y / 16;
    assert z / 64 < 4;
    assert ((y % 16) * 4 + z / 64) / 4 == y % 16;
    assert ((y % 16) * 4 + z / 64) % 4 == z / 64;
    assert ((y % 16) * 4) / 4 == y % 16;
  }

  lemma DecodeEncodeOne(x: byte)
    ensures DecodeSextets(EncodeUnpadded([x])) == [x]
  {
    var e := EncodeUnpadded([x]);
    assert e == [CharOf(x / 4), CharOf((x % 4) * 16)];
    GroupArithmetic(x, 0, 0);
    assert DecodeSextets(e) == [FirstOfGroup(SextetOf(e[0]), SextetOf(e[1]))];
  }

  lemma DecodeEncodeTwo(x: byte, y: byte)
    ensures DecodeSextets(EncodeUnpadded([x, y])) == [x, y]
  {
    var e := EncodeUnpadded([x, y]);
    assert e == [CharOf(x / 4), CharOf((x % 4) * 16 + y / 16), CharOf((y % 16) * 4)];
    GroupArithmetic(x, y, 0);
    assert DecodeSextets(e) == [FirstOfGroup(SextetOf(e[0]), SextetOf(e[1])),
                                SecondOfGroup(SextetOf(e[1]), SextetOf(e[2]))];
  }

  lemma DecodeEncodeShort(b: seq<byte>)
    requires 1 <= |b| <= 2
    ensures DecodeSextets(EncodeUnpadded(b)) == b
  {
    if |b| == 1 {
      assert b == [b[0]];
      DecodeEncodeOne(b[0]);
    } else {
      assert b == [b[0], b[1]];
      DecodeEncodeTwo(b[0], b[1]);
    }
  }

  lemma DecodeGroup(e: string, x: byte, y: byte, z: byte)
    requires |e| >= 4 && AllAlphabet(e) && |e| % 4 != 1
    requires SextetOf(e[0]) == x / 4 && SextetOf(e[1]) == (x % 4) * 16 + y / 16
    requires SextetOf(e[2]) == (y % 16) * 4 + z / 64 && SextetOf(e[3]) == z % 64
    ensures DecodeSextets(e) == [x, y, z] + DecodeSextets(e[4..])
  {
    GroupArithmetic(x, y, z);
  }

  lemma {:induction false} DecodeEncodeUnpadded(b: seq<byte>)
    ensures DecodeSextets(EncodeUnpadded(b)) == b
    decreases |b|
  {
    if 1 <= |b| <= 2 {
      DecodeEncodeShort(b);
    } else if |b| >= 3 {
      EncodeGroup(b);
      DecodeEncodeUnpadded(b[3..]);
      SplitGroup(b);
    }
  }

  lemma SplitGroup(b: seq<byte>)
    requires |b| >= 3
    ensures b == [b[0], b[1], b[2]] + b[3..]
  {
  }

  /** A full group of three bytes decodes back, followed by the decoding of the rest. */
  lemma EncodeGroup(b: seq<byte>)
    requires |b| >= 3
    ensures DecodeSextets(EncodeUnpadded(b)) == [b[0], b[1], b[2]] + DecodeSextets(EncodeUnpadded(b[3..]))
  {
    var e := EncodeUnpadded(b);
    assert e[4..] == EncodeUnpadded(b[3..]);
    DecodeGroup(e, b[0], b[1], b[2]);
  }

  lemma RemoveAsciiWhitespaceNoop(s: string)
    requires AllAlphabet(s)
    ensures RemoveAsciiWhitespace(s) == s
  {
    WithoutAsciiWhitespace(s);
  }

  /** Text without ASCII whitespace passes step 1 unchanged. */
  lemma {:induction false} WithoutAsciiWhitespace(s: string)
    requires forall i :: 0 <= i < |s| ==> !IsAsciiWhitespace(s[i])
    ensures RemoveAsciiWhitespace(s) == s
  {
    if s != [] {
      assert forall i :: 0 <= i < |s[1..]| ==> s[1..][i] == s[i + 1];
      WithoutAsciiWhitespace(s[1..]);
      assert s == [s[0]] + s[1..];
    }
  }

  /** `atob(btoa(b))` gives back `b`. */
  lemma {:induction false} EncodeRoundTrip(b: seq<byte>)
    ensures ForgivingDecode(Encode(b)) == Some(b)
  {
    var u := EncodeUnpadded(b);
    var e := Encode(b);
    assert RemoveAsciiWhitespace(e) == e by {
      NoAsciiWhitespaceKept(e, u);
    }
    EncodeUnpaddedLength(b);
    PaddingStripped(u, |b|);
    assert Prepared(e) == u;
    DecodeEncodeUnpadded(b);
  }

  /** Stripping the padding of an encoding gives back its unpadded text. */
  lemma PaddingStripped(u: string, n: nat)
    requires AllAlphabet(u)
    requires |u| % 4 == (if n % 3 == 0 then 0 else n % 3 + 1)
    ensures StripPadding(u + PaddingFor(n)) == u
  {
    var e := u + PaddingFor(n);
    if n % 3 == 1 {
      assert |e| % 4 == 0 && e[|e| - 2..] == "==";
      assert e[..|e| - 2] == u;
    } else if n % 3 == 2 {
      assert |e| % 4 == 0 && e[|e| - 1] == '=';
      assert IsAlphabetChar(u[|u| - 1]) && e[|e| - 2] == u[|u| - 1];
      assert e[|e| - 2..] != "==";
      assert e[..|e| - 1] == u;
    } else {
      assert e == u;
      if |u| >= 2 {
        assert IsAlphabetChar(u[|u| - 1]);
        assert u[|u| - 2..] != "==";
      }
    }
  }

  lemma NoAsciiWhitespaceKept(e: string, u: string)
    requires AllAlphabet(u)
    requires exists p :: (p == "" || p == "=" || p == "==") && e == u + p
    ensures RemoveAsciiWhitespace(e) == e
    decreases |e|
  {
    if e != [] {
      assert !IsAsciiWhitespace(e[0]) by {
        if |u| > 0 { assert e[0] == u[0]; } else { assert e[0] == '='; }
      }
      var p :| (p == "" || p == "=" || p == "==") && e == u + p;
      if |u| > 0 {
        assert e[1..] == u[1..] + p;
        NoAsciiWhitespaceKept(e[1..], u[1..]);
      } else {
        assert e[1..] == "" + p[1..];
        NoAsciiWhitespaceKept(e[1..], "");
      }
    }
  }
}
