/**
 * The steps both live decoders share, written identically in src/content.ts
 * (b64Normalize, b64ToBytes, bytesToStringSmart) and in
 * src/strategies/decoding-strategies.ts (normalizeBase64, base64ToBytes,
 * bytesToString): URL-safe Base64 (RFC 4648 section 5) is turned into the
 * standard alphabet (section 4), padded and given to `atob`, and the bytes go
 * through a charset cascade.
 */
module PayloadText {
  import opened Wrappers
  import opened JsValues
  import Base64
  import Utf8
  import Windows1252

  /** `s.replace(/a/g, b)` for one-character `a` and `b`. */
  function ReplaceChar(s: string, a: char, b: char): (r: string)
    ensures |r| == |s|
    ensures forall i :: 0 <= i < |s| ==> r[i] == if s[i] == a then b else s[i]
  {
    if s == [] then "" else [if s[0] == a then b else s[0]] + ReplaceChar(s[1..], a, b)
  }

  /** `s.replace(/\s+/g, '')`. */
  function RemoveWhitespace(s: string): (r: string)
    ensures |r| <= |s|
    ensures forall c :: c in r <==> c in s && !IsJsWhitespace(c)
  {
    if s == [] then ""
    else (if IsJsWhitespace(s[0]) then "" else [s[0]]) + RemoveWhitespace(s[1..])
  }

  /** `b64Normalize(s)` / `normalizeBase64(s)` on a string argument. */
  function B64Normalize(s: string): (r: string)
    ensures IsNormal(r)
  {
    var u := ReplaceChar(ReplaceChar(s, '-', '+'), '_', '/');
    WithoutUrlSafeChars(s, u);
    RemoveWhitespace(u)
  }

  lemma WithoutUrlSafeChars(s: string, u: string)
    requires u == ReplaceChar(ReplaceChar(s, '-', '+'), '_', '/')
    ensures IsNormal(RemoveWhitespace(u))
  {
    var r := RemoveWhitespace(u);
    forall i | 0 <= i < |r|
      ensures !IsJsWhitespace(r[i]) && r[i] != '-' && r[i] != '_'
    {
      assert r[i] in r;
      var j :| 0 <= j < |u| && u[j] == r[i];
    }
  }

  /** Text with no whitespace and only standard-alphabet characters where the URL-safe ones differ. */
  predicate IsNormal(s: string) {
    forall i :: 0 <= i < |s| ==> !IsJsWhitespace(s[i]) && s[i] != '-' && s[i] != '_'
  }

  /** What normalisation does to one character: '-' and '_' are swapped for '+' and '/', whitespace is dropped. */
  function NormalizedChar(c: char): string {
    if IsJsWhitespace(c) then "" else if c == '-' then "+" else if c == '_' then "/" else [c]
  }

  lemma {:induction false} RemoveWhitespaceConcat(s: string, t: string)
    ensures RemoveWhitespace(s + t) == RemoveWhitespace(s) + RemoveWhitespace(t)
  {
    if s == [] {
      assert s + t == t;
    } else {
      assert (s + t)[1..] == s[1..] + t;
      RemoveWhitespaceConcat(s[1..], t);
    }
  }

  /**
   * Normalisation works character by character and keeps the order: the
   * normalisation of `c + s` is that of `c` followed by that of `s`.
   */
  lemma B64NormalizeCons(s: string)
    requires s != []
    ensures B64Normalize(s) == NormalizedChar(s[0]) + B64Normalize(s[1..])
  {
    var u := ReplaceChar(ReplaceChar(s, '-', '+'), '_', '/');
    assert u == [u[0]] + u[1..];
    assert u[1..] == ReplaceChar(ReplaceChar(s[1..], '-', '+'), '_', '/');
    RemoveWhitespaceConcat([u[0]], u[1..]);
  }

  /** Normalising twice is normalising once. */
  lemma {:induction false} B64NormalizeIdempotent(s: string)
    ensures B64Normalize(B64Normalize(s)) == B64Normalize(s)
  {
    B64NormalizeFixpoint(B64Normalize(s));
  }

  /** Text without '-', '_' and whitespace is already normal. */
  lemma {:induction false} B64NormalizeFixpoint(s: string)
    requires IsNormal(s)
    ensures B64Normalize(s) == s
  {
    if s != [] {
      B64NormalizeCons(s);
      B64NormalizeFixpoint(s[1..]);
      assert s == [s[0]] + s[1..];
    }
  }

  /** The URL-safe spelling of standard Base64 text (section 5 of RFC 4648). */
  function UrlSafe(s: string): (r: string)
    ensures |r| == |s|
    ensures forall i :: 0 <= i < |s| ==> r[i] == if s[i] == '+' then '-' else if s[i] == '/' then '_' else s[i]
  {
    if s == [] then "" else [if s[0] == '+' then '-' else if s[0] == '/' then '_' else s[0]] + UrlSafe(s[1..])
  }

  /** Normalisation turns the URL-safe spelling back into the standard one. */
  lemma {:induction false} B64NormalizeUrlSafe(s: string)
    requires Base64.AllAlphabet(s)
    ensures B64Normalize(UrlSafe(s)) == s
  {
    if s != [] {
      var u := UrlSafe(s);
      B64NormalizeCons(u);
      assert u[1..] == UrlSafe(s[1..]);
      B64NormalizeUrlSafe(s[1..]);
      assert s == [s[0]] + s[1..];
    }
  }

  /** `norm + '='.repeat(...)` of `b64ToBytes`: padding up to a multiple of four. */
  function PadBase64(norm: string): (r: string)
    ensures |r| % 4 == 0 && |norm| <= |r| < |norm| + 4
    ensures r[..|norm|] == norm
    ensures forall i :: |norm| <= i < |r| ==> r[i] == '='
  {
    if |norm| % 4 == 0 then norm
    else norm + seq(4 - |norm| % 4, _ => '=')
  }

  /**
   * `b64ToBytes(s)`; `None` is the `DOMException` `atob` throws. The padding
   * never changes what `atob` accepts of the normalised text.
   */
  function B64ToBytes(s: string): (r: Option<seq<byte>>)
    ensures Base64.ForgivingDecode(B64Normalize(s)).Some? ==> r == Base64.ForgivingDecode(B64Normalize(s))
  {
    PaddingRedundant(B64Normalize(s));
    Base64.ForgivingDecode(PadBase64(B64Normalize(s)))
  }

  /** Normalised text that `atob` accepts is prepared the same with or without the padding. */
  lemma PaddingRedundant(n: string)
    requires IsNormal(n)
    ensures Base64.ForgivingDecode(n).Some? ==> Base64.Prepared(PadBase64(n)) == Base64.Prepared(n)
  {
    if Base64.ForgivingDecode(n).Some? && |n| % 4 != 0 {
      NormalHasNoAsciiWhitespace(n);
      Base64.WithoutAsciiWhitespace(n);
      assert Base64.Prepared(n) == n;
      PaddedPrepared(n);
    }
  }

  lemma NormalHasNoAsciiWhitespace(n: string)
    requires IsNormal(n)
    ensures forall i :: 0 <= i < |n| ==> !Base64.IsAsciiWhitespace(n[i])
  {
    forall i | 0 <= i < |n|
      ensures !Base64.IsAsciiWhitespace(n[i])
    {
      assert !IsJsWhitespace(n[i]);
    }
  }

  /** Padding Base64 text of length 2 or 3 mod 4 adds what the preparation strips again. */
  lemma PaddedPrepared(n: string)
    requires Base64.AllAlphabet(n) && (|n| % 4 == 2 || |n| % 4 == 3)
    ensures Base64.Prepared(PadBase64(n)) == n
  {
    var k: nat := if |n| % 4 == 2 then 1 else 2;
    PadByLength(n);
    var p := PadBase64(n);
    assert p == n + Base64.PaddingFor(k);
    Base64.NoAsciiWhitespaceKept(p, n);
    Base64.PaddingStripped(n, k);
  }

  /** Padding unpadded Base64 text gives the padded text `btoa` produces. */
  lemma PadByLength(e: string)
    ensures |e| % 4 == 0 ==> PadBase64(e) == e
    ensures |e| % 4 == 2 ==> PadBase64(e) == e + "=="
    ensures |e| % 4 == 3 ==> PadBase64(e) == e + "="
  {
    if |e| % 4 == 2 {
      assert seq(2, _ => '=') == "==";
    } else if |e| % 4 == 3 {
      assert seq(1, _ => '=') == "=";
    }
  }

  lemma PadEncodeUnpadded(b: seq<byte>)
    ensures PadBase64(Base64.EncodeUnpadded(b)) == Base64.Encode(b)
  {
    var e := Base64.EncodeUnpadded(b);
    Base64.EncodeUnpaddedLength(b);
    PadByLength(e);
  }

  /** Both spellings of Base64, padded or not, decode to the bytes they encode. */
  lemma B64ToBytesRoundTrip(b: seq<byte>)
    ensures B64ToBytes(Base64.Encode(b)) == Some(b)
    ensures B64ToBytes(UrlSafe(Base64.EncodeUnpadded(b))) == Some(b)
  {
    var e := Base64.EncodeUnpadded(b);
    var full := Base64.Encode(b);
    assert IsNormal(full) by {
      forall i | 0 <= i < |full|
        ensures !IsJsWhitespace(full[i]) && full[i] != '-' && full[i] != '_'
      {
        if i >= |e| {
          assert full[i] == Base64.PaddingFor(|b|)[i - |e|];
        } else {
          assert full[i] == e[i];
        }
      }
    }
    B64NormalizeFixpoint(full);
    B64NormalizeUrlSafe(e);
    PadEncodeUnpadded(b);
    Base64.EncodeRoundTrip(b);
  }

  /** The fallback loop `for (...) s += String.fromCharCode(bytes[i] & 0xff)`. */
  method RawByteString(bytes: seq<byte>) returns (s: string)
    ensures s == ByteString(bytes)
  {
    s := "";
    var i := 0;
    while i < |bytes|
      invariant 0 <= i <= |bytes|
      invariant |s| == i
      invariant forall k :: 0 <= k < i ==> s[k] as int == bytes[k]
    {
      s := s + [(bytes[i] % 256) as char];
      i := i + 1;
    }
    ByteStringUnique(bytes, s);
  }

  /** A string with one character per byte, of that byte's code, is the byte string. */
  lemma ByteStringUnique(bytes: seq<byte>, s: string)
    requires |s| == |bytes| && forall k :: 0 <= k < |s| ==> s[k] as int == bytes[k]
    ensures s == ByteString(bytes)
  {
    var r := ByteString(bytes);
    assert forall k :: 0 <= k < |s| ==> s[k] == r[k] by {
      forall k | 0 <= k < |s|
        ensures s[k] == r[k]
      {
        assert s[k] as int == r[k] as int;
      }
    }
  }

  /**
   * `bytesToStringSmart(bytes)` / `bytesToString(bytes)`: strict UTF-8, then the
   * windows-1252 decoder, then the iso-8859-1 decoder, each consulted only when
   * all before it threw; last the byte string, percent-decoded through `escape`
   * when that does not throw. It never throws.
   */
  function BytesToStringSmart(host: Host, bytes: seq<byte>): (r: string)
    ensures Utf8.StrictDecode(bytes).Some? ==>
              Utf8.Encode(r) == bytes || Utf8.Encode([Utf8.ByteOrderMark] + r) == bytes
  {
    match Utf8.TextDecodeFatal(bytes)
    case Some(s) => s
    case None =>
      match host.decodeWindows1252(bytes)
      case Some(s) => s
      case None =>
        match host.decodeIso88591(bytes)
        case Some(s) => s
        case None =>
          var s := ByteString(bytes);
          host.decodeUriComponent(host.escape(s)).GetOr(s)
  }

  /** Bytes that are the UTF-8 encoding of a text come back as exactly that text. */
  lemma SmartDecodesUtf8(host: Host, t: string)
    requires t == [] || t[0] != Utf8.ByteOrderMark
    ensures BytesToStringSmart(host, Utf8.Encode(t)) == t
  {
    Utf8.DecodeEncode(t);
  }

  /**
   * With the standard windows-1252 decoder the cascade ends there: the result is
   * the UTF-8 decoding when the bytes are UTF-8 and their windows-1252 reading
   * otherwise, and the iso-8859-1 decoder and the byte loop are never reached.
   */
  lemma SmartStopsAtWindows1252(host: Host, bytes: seq<byte>)
    requires Windows1252.StandardDecoder(host)
    ensures Utf8.StrictDecode(bytes).Some? ==> BytesToStringSmart(host, bytes) == Utf8.StripBom(Utf8.StrictDecode(bytes).value)
    ensures Utf8.StrictDecode(bytes).None? ==> BytesToStringSmart(host, bytes) == Windows1252.Decode(bytes)
  {
    assert host.decodeWindows1252(bytes) == Some(Windows1252.Decode(bytes));
  }
}
