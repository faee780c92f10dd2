/**
 * `decodeTelekomAddition` of src/content.ts: percent-decode the payload (with
 * '+' read as a space), try it as Base64 of JSON text, then as JSON text, and
 * return the first value `JSON.parse` accepts, or `null`.
 */
module ContentDecoder {
  import opened Wrappers
  import opened JsValues
  import Base64
  import Utf8
  import Sanitizer
  import PayloadText

  /** `s.replace(/\+/g, '%20')`. */
  function PlusToPercent20(s: string): (r: string)
    ensures '+' !in r
    ensures '+' !in s ==> r == s
  {
    if s == [] then ""
    else (if s[0] == '+' then "%20" else [s[0]]) + PlusToPercent20(s[1..])
  }

  /** `urlDecoded`: the percent-decoding of the payload, or the payload itself when that throws. */
  function UrlDecoded(host: Host, encoded: string): (r: string)
    ensures host.decodeUriComponent(PlusToPercent20(encoded)).None? ==> r == encoded
    ensures PercentFreeIdentity(host) && '%' !in encoded && '+' !in encoded ==> r == encoded
  {
    host.decodeUriComponent(PlusToPercent20(encoded)).GetOr(encoded)
  }

  /** `jsonCandidate`: the Base64 reading of the text, `None` when `atob` throws. */
  function JsonCandidate(host: Host, urlDecoded: string): (r: Option<string>)
    ensures r.None? <==> PayloadText.B64ToBytes(urlDecoded).None?
    ensures r.Some? && Utf8.StrictDecode(PayloadText.B64ToBytes(urlDecoded).value).Some? ==>
              var bytes := PayloadText.B64ToBytes(urlDecoded).value;
              Utf8.Encode(r.value) == bytes || Utf8.Encode([Utf8.ByteOrderMark] + r.value) == bytes
  {
    match PayloadText.B64ToBytes(urlDecoded)
    case None => None
    case Some(bytes) => Some(PayloadText.BytesToStringSmart(host, bytes))
  }

  /**
   * The texts handed to `JSON.parse`, in the order the code tries them; `None`
   * stands for an attempt whose argument threw (a `decodeURIComponent` inside
   * the `try`), which the code skips like a failed parse.
   */
  function Attempts(host: Host, encoded: string): (r: seq<Option<string>>)
    ensures |r| == 2 || |r| == 4
    ensures r[|r| - 2] == Some(UrlDecoded(host, encoded))
    ensures r[|r| - 1] == host.decodeUriComponent(UrlDecoded(host, encoded))
    ensures var c := JsonCandidate(host, UrlDecoded(host, encoded));
            |r| == 4 <==> c.Some? && c.value != ""
    ensures |r| == 4 ==>
              r[0] == Some(Sanitizer.FixDoubleUtf8(JsonCandidate(host, UrlDecoded(host, encoded)).value, Sanitizer.TildeOrHook))
              && r[1] == host.decodeUriComponent(r[0].value)
  {
    var u := UrlDecoded(host, encoded);
    var direct := [Some(u), host.decodeUriComponent(u)];
    match JsonCandidate(host, u)
    case Some(c) =>
      if c == "" then direct
      else
        var fixed := Sanitizer.FixDoubleUtf8(c, Sanitizer.TildeOrHook);
        [Some(fixed), host.decodeUriComponent(fixed)] + direct
    case None => direct
  }

  predicate Parses(host: Host, a: Option<string>) {
    a.Some? && host.jsonParse(a.value).Some?
  }

  /** The value of the first attempt that parses; `None` when every one fails. */
  function FirstParse(host: Host, attempts: seq<Option<string>>): (r: Option<Json>)
    ensures r.None? <==> forall i :: 0 <= i < |attempts| ==> !Parses(host, attempts[i])
    ensures r.Some? ==>
      exists i :: (0 <= i < |attempts| && Parses(host, attempts[i])
                   && r == host.jsonParse(attempts[i].value)
                   && forall k :: 0 <= k < i ==> !Parses(host, attempts[k]))
  {
    if attempts == [] then None
    else if Parses(host, attempts[0]) then host.jsonParse(attempts[0].value)
    else
      var r := FirstParse(host, attempts[1..]);
      assert forall k :: 1 <= k < |attempts| ==> attempts[k] == attempts[1..][k - 1];
      r
  }

  /**
   * `decodeTelekomAddition(encoded)`: `null` for a missing or empty payload, else
   * the first successful parse, else `null`. Every failure is caught, so it
   * always returns a value; a parsed `null` literal is returned like any other.
   */
  function DecodeTelekomAddition(host: Host, encoded: Option<string>): (r: Json)
    ensures encoded.None? || encoded == Some("") ==> r == JNull
  {
    if encoded.None? || encoded.value == "" then JNull
    else FirstParse(host, Attempts(host, encoded.value)).GetOr(JNull)
  }

  /** When percent-decoding throws, the raw payload is what gets parsed directly. */
  lemma RawFallback(host: Host, encoded: string)
    requires host.decodeUriComponent(PlusToPercent20(encoded)).None?
    ensures Some(encoded) in Attempts(host, encoded)
  {
    var a := Attempts(host, encoded);
    assert a[|a| - 2] == Some(encoded);
  }

  /** URL-safe Base64 text holds neither '+' nor '%'. */
  lemma UrlSafeHasNoPlusOrPercent(s: string)
    requires Base64.AllAlphabet(s)
    ensures '+' !in PayloadText.UrlSafe(s) && '%' !in PayloadText.UrlSafe(s)
  {
    var u := PayloadText.UrlSafe(s);
    forall i | 0 <= i < |u|
      ensures u[i] != '+' && u[i] != '%'
    {
      assert Base64.IsAlphabetChar(s[i]);
    }
  }

  lemma EncodeNonEmpty(t: string)
    requires t != []
    ensures Utf8.Encode(t) != []
  {
    assert Utf8.Encode(t) == Utf8.EncodeChar(t[0]) + Utf8.Encode(t[1..]);
  }

  /**
   * A payload free of '+' and '%' whose Base64 reading is UTF-8 JSON text decodes
   * to that text's value, when the text needs no repair and does not start
   * with a byte order mark.
   */
  lemma DecodesBase64Text(host: Host, p: string, text: string, v: Json)
    requires PercentFreeIdentity(host)
    requires p != "" && '+' !in p && '%' !in p
    requires PayloadText.B64ToBytes(p) == Some(Utf8.Encode(text))
    requires text != [] && text[0] != Utf8.ByteOrderMark
    requires !Sanitizer.HasSignature(text, Sanitizer.TildeOrHook)
    requires host.jsonParse(text) == Some(v)
    ensures DecodeTelekomAddition(host, Some(p)) == v
  {
    assert host.decodeUriComponent(p) == Some(p);
    assert UrlDecoded(host, p) == p;
    PayloadText.SmartDecodesUtf8(host, text);
    assert JsonCandidate(host, p) == Some(text);
    assert Attempts(host, p)[0] == Some(text);
  }

  /** The payload format the page uses, URL-safe unpadded Base64 of UTF-8 JSON text, round-trips. */
  lemma DecodesUrlSafePayload(host: Host, text: string, v: Json)
    requires PercentFreeIdentity(host)
    requires text != [] && text[0] != Utf8.ByteOrderMark
    requires !Sanitizer.HasSignature(text, Sanitizer.TildeOrHook)
    requires host.jsonParse(text) == Some(v)
    ensures DecodeTelekomAddition(host, Some(PayloadText.UrlSafe(Base64.EncodeUnpadded(Utf8.Encode(text))))) == v
  {
    var bytes := Utf8.Encode(text);
    EncodeNonEmpty(text);
    var p := PayloadText.UrlSafe(Base64.EncodeUnpadded(bytes));
    UrlSafeHasNoPlusOrPercent(Base64.EncodeUnpadded(bytes));
    PayloadText.B64ToBytesRoundTrip(bytes);
    DecodesBase64Text(host, p, text, v);
  }

  /** Padded standard Base64 round-trips as well, as long as it holds no '+'. */
  lemma DecodesStandardPayload(host: Host, text: string, v: Json)
    requires PercentFreeIdentity(host)
    requires text != [] && text[0] != Utf8.ByteOrderMark
    requires !Sanitizer.HasSignature(text, Sanitizer.TildeOrHook)
    requires host.jsonParse(text) == Some(v)
    requires '+' !in Base64.Encode(Utf8.Encode(text))
    ensures DecodeTelekomAddition(host, Some(Base64.Encode(Utf8.Encode(text)))) == v
  {
    var bytes := Utf8.Encode(text);
    EncodeNonEmpty(text);
    var p := Base64.Encode(bytes);
    assert '%' !in p by {
      forall i | 0 <= i < |p|
        ensures p[i] != '%'
      {
        var e := Base64.EncodeUnpadded(bytes);
        if i < |e| {
          assert p[i] == e[i] && Base64.IsAlphabetChar(e[i]);
        } else {
          assert p[i] == Base64.PaddingFor(|bytes|)[i - |e|];
        }
      }
    }
    PayloadText.B64ToBytesRoundTrip(bytes);
    DecodesBase64Text(host, p, text, v);
  }

  /**
   * A '+' of standard Base64 does not survive: "+w==" is the Base64 of the byte
   * 0xFB, but reading '+' as "%20" turns it into " w==", whose space the
   * normaliser drops, and "w===" is not Base64, so no Base64 candidate exists.
   */
  lemma PlusIsLost(host: Host, p: string)
    requires p == "+w=="
    requires host.decodeUriComponent("%20w==") == Some(" w==")
    ensures PayloadText.B64ToBytes(p) == Some([0xFB])
    ensures JsonCandidate(host, UrlDecoded(host, p)) == None
  {
    PlusEncodesFB(p);
    assert PlusToPercent20(p) == "%20w==";
    SpacedIsNotBase64(UrlDecoded(host, p));
  }

  lemma PlusEncodesFB(p: string)
    requires p == "+w=="
    ensures PayloadText.B64ToBytes(p) == Some([0xFB])
  {
    assert Base64.EncodeUnpadded([0xFB]) == "+w";
    assert Base64.Encode([0xFB]) == p;
    PayloadText.B64ToBytesRoundTrip([0xFB]);
  }

  lemma NormalizeSpaced(n: string)
    requires n == " w=="
    ensures PayloadText.B64Normalize(n) == "w=="
  {
    PayloadText.B64NormalizeCons(n);
    assert PayloadText.NormalizedChar(n[0]) == "";
    assert PayloadText.IsNormal(n[1..]);
    PayloadText.B64NormalizeFixpoint(n[1..]);
    assert n[1..] == "w==";
  }

  lemma PreparedPadded(s: string)
    requires s == "w==="
    ensures Base64.ForgivingDecode(s) == None
  {
    Base64.WithoutAsciiWhitespace(s);
    assert s[2..] == "==";
    var d := s[..2];
    assert Base64.StripPadding(s) == d;
    assert Base64.Prepared(s) == d && |d| == 2;
    assert !Base64.IsAlphabetChar(d[1]);
  }

  lemma SpacedIsNotBase64(n: string)
    requires n == " w=="
    ensures PayloadText.B64ToBytes(n) == None
  {
    NormalizeSpaced(n);
    var p := PayloadText.PadBase64(PayloadText.B64Normalize(n));
    assert p == "w===";
    PreparedPadded(p);
  }
}
