/**
 * src/strategies/decoding-strategies.ts: the two decoding strategies and the
 * chain that tries them in insertion order on the same URL-decoded text.
 */
module Strategies {
  import opened Wrappers
  import opened JsValues
  import Base64
  import Utf8
  import Sanitizer
  import PayloadText
  import ContentDecoder

  /** The two `DecodingStrategy` classes; neither has state. */
  datatype Strategy = Base64Json | DirectJson {
    /** `strategy.decode(encoded)`: its contract is that of `Base64JsonDecode` or `DirectJsonDecode`. */
    function Decode(host: Host, encoded: string): Json {
      match this
      case Base64Json => Base64JsonDecode(host, encoded)
      case DirectJson => DirectJsonDecode(host, encoded)
    }
  }

  /** `r` is what `JSON.parse` gives for `t`, or for `decodeURIComponent(t)`. */
  predicate ParsedFrom(host: Host, t: string, r: Json) {
    host.jsonParse(t) == Some(r)
    || (host.decodeUriComponent(t).Some? && host.jsonParse(host.decodeUriComponent(t).value) == Some(r))
  }

  /** The text `Base64JsonStrategy` parses: the decoded bytes as text, with the mojibake repaired. */
  function RepairedText(host: Host, bytes: seq<byte>): string {
    Sanitizer.FixDoubleUtf8(PayloadText.BytesToStringSmart(host, bytes), Sanitizer.TildeOnly)
  }

  /** `Base64JsonStrategy.decode(encoded)`: `null` (here `JNull`) when anything throws. */
  function Base64JsonDecode(host: Host, encoded: string): (r: Json)
    ensures PayloadText.B64ToBytes(encoded).None? ==> r == JNull
    ensures r != JNull ==>
              PayloadText.B64ToBytes(encoded).Some?
              && ParsedFrom(host, RepairedText(host, PayloadText.B64ToBytes(encoded).value), r)
    // `JSON.parse(fixed)` wins when it succeeds ...
    ensures PayloadText.B64ToBytes(encoded).Some? ==>
              var fixed := RepairedText(host, PayloadText.B64ToBytes(encoded).value);
              host.jsonParse(fixed).Some? ==> r == host.jsonParse(fixed).value
    // ... otherwise the parse of `decodeURIComponent(fixed)` is the result
    ensures PayloadText.B64ToBytes(encoded).Some? ==>
              var fixed := RepairedText(host, PayloadText.B64ToBytes(encoded).value);
              host.jsonParse(fixed).None? && host.decodeUriComponent(fixed).Some?
              && host.jsonParse(host.decodeUriComponent(fixed).value).Some?
              ==> r == host.jsonParse(host.decodeUriComponent(fixed).value).value
  {
    DoubleNormalization(encoded);
    match PayloadText.B64ToBytes(PayloadText.B64Normalize(encoded))
    case None => JNull
    case Some(bytes) =>
      var fixed := RepairedText(host, bytes);
      match host.jsonParse(fixed)
      case Some(v) => v
      case None =>
        match host.decodeUriComponent(fixed)
        case None => JNull
        case Some(d) => host.jsonParse(d).GetOr(JNull)
  }

  /** `DirectJsonStrategy.decode(encoded)`: a text that parses is never percent-decoded. */
  function DirectJsonDecode(host: Host, encoded: string): (r: Json)
    ensures host.jsonParse(encoded).Some? ==> r == host.jsonParse(encoded).value
    ensures r != JNull ==> ParsedFrom(host, encoded, r)
    ensures host.jsonParse(encoded).None? && host.decodeUriComponent(encoded).Some?
            && host.jsonParse(host.decodeUriComponent(encoded).value).Some?
            ==> r == host.jsonParse(host.decodeUriComponent(encoded).value).value
  {
    match host.jsonParse(encoded)
    case Some(v) => v
    case None =>
      match host.decodeUriComponent(encoded)
      case None => JNull
      case Some(d) => host.jsonParse(d).GetOr(JNull)
  }

  /** The double normalisation in `Base64JsonStrategy` is the same as a single one. */
  lemma DoubleNormalization(s: string)
    ensures PayloadText.B64ToBytes(PayloadText.B64Normalize(s)) == PayloadText.B64ToBytes(s)
  {
    PayloadText.B64NormalizeIdempotent(s);
  }

  /** The first result from `strategies[i..]` that is not `null`, or `null`. */
  function FirstNonNull(host: Host, strategies: seq<Strategy>, text: string, i: nat): (r: Json)
    requires i <= |strategies|
    decreases |strategies| - i
    ensures r == JNull <==> forall k :: i <= k < |strategies| ==> strategies[k].Decode(host, text) == JNull
    ensures r != JNull ==>
      exists k :: (i <= k < |strategies| && r == strategies[k].Decode(host, text)
                   && forall j :: i <= j < k ==> strategies[j].Decode(host, text) == JNull)
  {
    if i == |strategies| then JNull
    else
      var r := strategies[i].Decode(host, text);
      if r != JNull then r else FirstNonNull(host, strategies, text, i + 1)
  }

  /** What `DecodingStrategyChain.decode(encoded)` returns for the strategies in `strategies`. */
  function ChainResult(host: Host, strategies: seq<Strategy>, encoded: Option<string>): (r: Json)
    ensures encoded.None? || encoded == Some("") ==> r == JNull
  {
    if encoded.None? || encoded.value == "" then JNull
    else FirstNonNull(host, strategies, ContentDecoder.UrlDecoded(host, encoded.value), 0)
  }

  /** `DecodingStrategyChain`: an ordered list of strategies. */
  class DecodingStrategyChain {
    var strategies: seq<Strategy>

    constructor()
      ensures strategies == []
    {
      strategies := [];
    }

    /** `addStrategy(s)`: appends `s` and returns the chain itself. */
    method AddStrategy(s: Strategy) returns (self: DecodingStrategyChain)
      modifies this
      ensures strategies == old(strategies) + [s]
      ensures self == this
    {
      strategies := strategies + [s];
      self := this;
    }

    /**
     * `decode(encoded)`: every strategy gets the same URL-decoded text, and the
     * first result that is not `null` is returned.
     */
    method Decode(host: Host, encoded: Option<string>) returns (r: Json)
      ensures r == ChainResult(host, strategies, encoded)
    {
      if encoded.None? || encoded.value == "" {
        return JNull;
      }
      var urlDecoded := ContentDecoder.UrlDecoded(host, encoded.value);
      var i := 0;
      while i < |strategies|
        invariant 0 <= i <= |strategies|
        invariant FirstNonNull(host, strategies, urlDecoded, 0) == FirstNonNull(host, strategies, urlDecoded, i)
      {
        var result := strategies[i].Decode(host, urlDecoded);
        if result != JNull {
          return result;
        }
        i := i + 1;
      }
      return JNull;
    }
  }

  /** `createDefaultDecodingChain()`: exactly the Base64 strategy, then the direct one. */
  method CreateDefaultDecodingChain() returns (chain: DecodingStrategyChain)
    ensures fresh(chain)
    ensures chain.strategies == [Base64Json, DirectJson]
  {
    chain := new DecodingStrategyChain();
    chain := chain.AddStrategy(Base64Json);
    chain := chain.AddStrategy(DirectJson);
  }

  /**
   * Unlike src/content.ts, the chain passes over a parsed `null` literal: when
   * the Base64 reading parses to `null` and the text itself parses to `v`, the
   * content script answers `null` and the default chain answers `v`.
   */
  lemma ChainSkipsNullLiteral(host: Host, encoded: string, v: Json)
    requires encoded != ""
    requires ContentDecoder.JsonCandidate(host, ContentDecoder.UrlDecoded(host, encoded)).Some?
    requires ContentDecoder.JsonCandidate(host, ContentDecoder.UrlDecoded(host, encoded)).value != ""
    requires !Sanitizer.HasSignature(ContentDecoder.JsonCandidate(host, ContentDecoder.UrlDecoded(host, encoded)).value, Sanitizer.TildeOrHook)
    requires host.jsonParse(ContentDecoder.JsonCandidate(host, ContentDecoder.UrlDecoded(host, encoded)).value) == Some(JNull)
    requires host.jsonParse(ContentDecoder.UrlDecoded(host, encoded)) == Some(v) && v != JNull
    ensures ContentDecoder.DecodeTelekomAddition(host, Some(encoded)) == JNull
    ensures ChainResult(host, [Base64Json, DirectJson], Some(encoded)) == v
  {
    ContentAnswersNullLiteral(host, encoded);
    ChainPassesNullLiteral(host, encoded, v);
  }

  lemma ContentAnswersNullLiteral(host: Host, encoded: string)
    requires encoded != ""
    requires ContentDecoder.JsonCandidate(host, ContentDecoder.UrlDecoded(host, encoded)).Some?
    requires ContentDecoder.JsonCandidate(host, ContentDecoder.UrlDecoded(host, encoded)).value != ""
    requires !Sanitizer.HasSignature(ContentDecoder.JsonCandidate(host, ContentDecoder.UrlDecoded(host, encoded)).value, Sanitizer.TildeOrHook)
    requires host.jsonParse(ContentDecoder.JsonCandidate(host, ContentDecoder.UrlDecoded(host, encoded)).value) == Some(JNull)
    ensures ContentDecoder.DecodeTelekomAddition(host, Some(encoded)) == JNull
  {
    var c := ContentDecoder.JsonCandidate(host, ContentDecoder.UrlDecoded(host, encoded)).value;
    assert ContentDecoder.Attempts(host, encoded)[0] == Some(c);
  }

  lemma ChainPassesNullLiteral(host: Host, encoded: string, v: Json)
    requires encoded != ""
    requires ContentDecoder.JsonCandidate(host, ContentDecoder.UrlDecoded(host, encoded)).Some?
    requires ContentDecoder.JsonCandidate(host, ContentDecoder.UrlDecoded(host, encoded)).value != ""
    requires !Sanitizer.HasSignature(ContentDecoder.JsonCandidate(host, ContentDecoder.UrlDecoded(host, encoded)).value, Sanitizer.TildeOrHook)
    requires host.jsonParse(ContentDecoder.JsonCandidate(host, ContentDecoder.UrlDecoded(host, encoded)).value) == Some(JNull)
    requires host.jsonParse(ContentDecoder.UrlDecoded(host, encoded)) == Some(v) && v != JNull
    ensures ChainResult(host, [Base64Json, DirectJson], Some(encoded)) == v
  {
    var u := ContentDecoder.UrlDecoded(host, encoded);
    var c := ContentDecoder.JsonCandidate(host, u).value;
    var bytes := PayloadText.B64ToBytes(u).value;
    assert c == PayloadText.BytesToStringSmart(host, bytes);
    DoubleNormalization(u);
    assert !Sanitizer.HasSignature(c, Sanitizer.TildeOnly) by {
      if Sanitizer.HasSignature(c, Sanitizer.TildeOnly) {
        Sanitizer.SignatureNarrower(c);
      }
    }
    assert RepairedText(host, bytes) == c;
    assert Base64JsonDecode(host, u) == JNull;
    assert DirectJsonDecode(host, u) == v;
    var chain := [Base64Json, DirectJson];
    assert FirstNonNull(host, chain, u, 1) == v;
  }

  /** The default chain decodes the page's URL-safe payload format as the content script does. */
  lemma DefaultChainDecodesUrlSafePayload(host: Host, text: string, v: Json)
    requires PercentFreeIdentity(host)
    requires text != [] && text[0] != Utf8.ByteOrderMark
    requires !Sanitizer.HasSignature(text, Sanitizer.TildeOrHook)
    requires host.jsonParse(text) == Some(v) && v != JNull
    ensures ChainResult(host, [Base64Json, DirectJson], Some(PayloadText.UrlSafe(Base64.EncodeUnpadded(Utf8.Encode(text))))) == v
  {
    var bytes := Utf8.Encode(text);
    ContentDecoder.EncodeNonEmpty(text);
    var p := PayloadText.UrlSafe(Base64.EncodeUnpadded(bytes));
    ContentDecoder.UrlSafeHasNoPlusOrPercent(Base64.EncodeUnpadded(bytes));
    assert host.decodeUriComponent(p) == Some(p);
    assert ContentDecoder.UrlDecoded(host, p) == p;
    PayloadText.B64ToBytesRoundTrip(bytes);
    DoubleNormalization(p);
    PayloadText.SmartDecodesUtf8(host, text);
    assert !Sanitizer.HasSignature(text, Sanitizer.TildeOnly) by {
      if Sanitizer.HasSignature(text, Sanitizer.TildeOnly) {
        Sanitizer.SignatureNarrower(text);
      }
    }
    assert Base64JsonDecode(host, p) == v;
  }
}
