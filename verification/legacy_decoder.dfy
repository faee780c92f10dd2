/**
 * The older `decodeTelekomAddition` of content.js, with its helper `atobUtf8`:
 * no '+' handling, no URL-safe alphabet, no charset cascade and no repair.
 * It URL-decodes (and gives up when that throws), reads the result as Base64
 * of UTF-8 (replacing malformed sequences) when `atob` accepts it and as the
 * JSON text itself otherwise, and parses once.
 */
module LegacyDecoder {
  import opened Wrappers
  import opened JsValues
  import Base64
  import Utf8

  /**
   * `atobUtf8(b64)`; `None` is the exception `atob` throws. The decoder is not
   * fatal, so it never throws and the percent-decoding fallback after it is
   * never reached.
   */
  function AtobUtf8(b64: string): (r: Option<string>)
    ensures r.None? <==> Base64.ForgivingDecode(b64).None?
  {
    match Base64.ForgivingDecode(b64)
    case None => None
    case Some(bytes) => Some(Utf8.TextDecodeReplacing(bytes))
  }

  /** `decodeTelekomAddition(encoded)` of content.js. */
  function DecodeTelekomAddition(host: Host, encoded: Option<string>): (r: Json)
    ensures encoded.None? || encoded == Some("") ==> r == JNull
    ensures encoded.Some? && host.decodeUriComponent(encoded.value).None? ==> r == JNull
  {
    if encoded.None? || encoded.value == "" then JNull
    else match host.decodeUriComponent(encoded.value)
      case None => JNull
      case Some(urlDecoded) =>
        var jsonString := AtobUtf8(urlDecoded).GetOr(urlDecoded);
        host.jsonParse(jsonString).GetOr(JNull)
  }

  /** Padded standard Base64 holds no '%'. */
  lemma EncodingHasNoPercent(b: seq<byte>)
    ensures '%' !in Base64.Encode(b)
  {
    var p := Base64.Encode(b);
    var e := Base64.EncodeUnpadded(b);
    forall i | 0 <= i < |p|
      ensures p[i] != '%'
    {
      if i < |e| {
        assert p[i] == e[i] && Base64.IsAlphabetChar(e[i]);
      } else {
        assert p[i] == Base64.PaddingFor(|b|)[i - |e|];
      }
    }
  }

  /**
   * Padded standard Base64 of UTF-8 JSON text decodes to the text's value, '+'
   * or not, when the text does not start with a byte order mark.
   */
  lemma DecodesStandardPayload(host: Host, text: string, v: Json)
    requires PercentFreeIdentity(host)
    requires text != [] && text[0] != Utf8.ByteOrderMark
    requires host.jsonParse(text) == Some(v)
    ensures DecodeTelekomAddition(host, Some(Base64.Encode(Utf8.Encode(text)))) == v
  {
    var bytes := Utf8.Encode(text);
    var p := Base64.Encode(bytes);
    assert bytes == Utf8.EncodeChar(text[0]) + Utf8.Encode(text[1..]);
    EncodingHasNoPercent(bytes);
    assert host.decodeUriComponent(p) == Some(p);
    Base64.EncodeRoundTrip(bytes);
    Utf8.DecodeEncode(text);
    Utf8.LossyAgreesWithStrict(bytes);
    assert AtobUtf8(p) == Some(text);
  }

  /** Stripping the padding removes nothing but '='. */
  lemma StripPaddingKeeps(s: string, i: nat)
    requires i < |s| && s[i] != '='
    ensures s[i] in Base64.StripPadding(s)
  {
    var r := Base64.StripPadding(s);
    assert i < |r| && r[i] == s[i];
  }

  /** When `atob` rejects the URL-decoded text, that text itself is what gets parsed. */
  lemma AtobFailureParsesDirectly(host: Host, encoded: string, urlDecoded: string)
    requires encoded != "" && host.decodeUriComponent(encoded) == Some(urlDecoded)
    requires Base64.ForgivingDecode(urlDecoded).None?
    ensures DecodeTelekomAddition(host, Some(encoded)) == host.jsonParse(urlDecoded).GetOr(JNull)
  {
  }

  /**
   * When `atob` accepts it, only the UTF-8 reading of its bytes is parsed: a
   * failed parse gives `null`, and the URL-decoded text is never tried.
   */
  lemma AtobSuccessParsesOnlyDecoded(host: Host, encoded: string, urlDecoded: string)
    requires encoded != "" && host.decodeUriComponent(encoded) == Some(urlDecoded)
    requires Base64.ForgivingDecode(urlDecoded).Some?
    ensures DecodeTelekomAddition(host, Some(encoded))
            == host.jsonParse(Utf8.TextDecodeReplacing(Base64.ForgivingDecode(urlDecoded).value)).GetOr(JNull)
  {
  }

  /**
   * `atob` rejects a character that is neither in the alphabet, nor ASCII
   * whitespace, nor '=' (such as '{', '"', '-' or '_'), so text holding one is
   * parsed as the URL-decoded string itself.
   */
  lemma ForeignCharParsedDirectly(host: Host, encoded: string, urlDecoded: string, i: nat)
    requires encoded != "" && host.decodeUriComponent(encoded) == Some(urlDecoded)
    requires i < |urlDecoded|
    requires !Base64.IsAlphabetChar(urlDecoded[i]) && !Base64.IsAsciiWhitespace(urlDecoded[i]) && urlDecoded[i] != '='
    ensures DecodeTelekomAddition(host, Some(encoded)) == host.jsonParse(urlDecoded).GetOr(JNull)
  {
    var c := urlDecoded[i];
    var w := Base64.RemoveAsciiWhitespace(urlDecoded);
    assert c in w;
    var k :| 0 <= k < |w| && w[k] == c;
    StripPaddingKeeps(w, k);
    var d := Base64.Prepared(urlDecoded);
    assert c in d;
    assert !Base64.AllAlphabet(d) by {
      var j :| 0 <= j < |d| && d[j] == c;
      assert !Base64.IsAlphabetChar(d[j]);
    }
  }

  /** `atob` accepts no URL-safe character, so text holding '-' or '_' is parsed directly. */
  lemma UrlSafeIsParsedDirectly(host: Host, encoded: string, urlDecoded: string, i: nat)
    requires encoded != "" && host.decodeUriComponent(encoded) == Some(urlDecoded)
    requires i < |urlDecoded| && (urlDecoded[i] == '-' || urlDecoded[i] == '_')
    ensures DecodeTelekomAddition(host, Some(encoded)) == host.jsonParse(urlDecoded).GetOr(JNull)
  {
    ForeignCharParsedDirectly(host, encoded, urlDecoded, i);
  }

  lemma Prepared1234(s: string)
    requires s == "1234"
    ensures Base64.Prepared(s) == s && Base64.AllAlphabet(s)
  {
    Base64.WithoutAsciiWhitespace(s);
    assert Base64.RemoveAsciiWhitespace(s) == s;
    assert |s| % 4 == 0 && s[2..] != "==" && s[3] != '=';
    assert Base64.StripPadding(s) == s;
  }

  lemma Sextets1234(s: string)
    requires s == "1234"
    ensures Base64.AllAlphabet(s) && Base64.DecodeSextets(s) == [0xD7, 0x6D, 0xF8]
  {
    assert Base64.SextetOf(s[0]) == 53 && Base64.SextetOf(s[1]) == 54;
    assert Base64.SextetOf(s[2]) == 55 && Base64.SextetOf(s[3]) == 56;
    assert s[4..] == "";
    assert Base64.FirstOfGroup(53, 54) == 0xD7;
    assert Base64.SecondOfGroup(54, 55) == 0x6D;
    assert Base64.ThirdOfGroup(55, 56) == 0xF8;
  }

  /** `atob("1234")` gives the bytes D7 6D F8. */
  lemma AtobOf1234()
    ensures Base64.ForgivingDecode("1234") == Some([0xD7, 0x6D, 0xF8])
  {
    Prepared1234("1234");
    Sextets1234("1234");
  }

  /** Their replacing UTF-8 reading: D7 lacks its continuation byte and F8 is no lead byte. */
  lemma ReadingOfAtob1234()
    ensures Utf8.TextDecodeReplacing([0xD7, 0x6D, 0xF8]) == [Utf8.Replacement, 'm', Utf8.Replacement]
  {
    var b: seq<byte> := [0xD7, 0x6D, 0xF8];
    assert Utf8.NextToken(b) == Utf8.Malformed(1);
    assert b[1..] == [0x6D, 0xF8];
    assert b[1..][1..] == [0xF8];
    assert Utf8.NextToken([0xF8]) == Utf8.Malformed(1);
    assert Utf8.LossyDecode([0xF8]) == [Utf8.Replacement];
    assert Utf8.LossyDecode([0x6D, 0xF8]) == ['m', Utf8.Replacement];
  }

  /**
   * Base64 shadows JSON text: "1234" is valid JSON, but `atob` accepts it too,
   * its bytes do not read as JSON, and the result is `null`.
   */
  lemma AtobShadowsDirectJson(host: Host)
    requires host.decodeUriComponent("1234") == Some("1234")
    requires host.jsonParse("1234") == Some(JNumber("1234"))
    requires host.jsonParse([Utf8.Replacement, 'm', Utf8.Replacement]).None?
    ensures DecodeTelekomAddition(host, Some("1234")) == JNull
  {
    AtobOf1234();
    ReadingOfAtob1234();
    AtobSuccessParsesOnlyDecoded(host, "1234", "1234");
  }
}
