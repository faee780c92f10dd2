/**
 * JavaScript values as the extension sees them after `JSON.parse`, the
 * JavaScript notions the code relies on (truthiness, string conversion,
 * property lookup, `\s`, `filter(Boolean).join`), and the host functions the
 * code calls but whose internals are not part of this model.
 */
module JsValues {
  import opened Wrappers

  /** A byte of a `Uint8Array`. */
  type byte = x: int | 0 <= x < 256

  /**
   * A value produced by `JSON.parse`. A number is represented by the text that
   * JavaScript's number-to-string conversion gives for it (so `-0` and `0` are
   * both "0"), which is all the code ever observes of a number.
   */
  datatype Json =
    | JNull
    | JBool(b: bool)
    | JNumber(repr: string)
    | JString(s: string)
    | JArray(items: seq<Json>)
    | JObject(members: map<string, Json>)

  /** JavaScript truthiness (`!!v`). JSON cannot produce NaN, but it is falsy too. */
  predicate Truthy(v: Json) {
    match v
    case JNull => false
    case JBool(b) => b
    case JNumber(r) => r != "0" && r != "NaN"
    case JString(s) => s != ""
    case JArray(_) => true
    case JObject(_) => true
  }

  /** The falsy values JSON can produce: `null`, `false`, `0` and the empty string. */
  lemma FalsyValues(v: Json)
    ensures !Truthy(v) <==> v == JNull || v == JBool(false) || v == JNumber("0") || v == JNumber("NaN") || v == JString("")
  {
  }

  /** `a || b` on two JavaScript values. */
  function Or(a: Json, b: Json): (r: Json)
    ensures Truthy(a) ==> r == a
    ensures !Truthy(a) ==> r == b
  {
    if Truthy(a) then a else b
  }

  /**
   * `String(v)`. An array joins its elements with "," (null elements give
   * ""); every object gives "[object Object]".
   */
  function ToString(v: Json): string
    decreases v, 1, 0
  {
    match v
    case JNull => "null"
    case JBool(b) => if b then "true" else "false"
    case JNumber(r) => r
    case JString(s) => s
    case JArray(items) => ArrayText(v, 0)
    case JObject(_) => "[object Object]"
  }

  /** `Array.prototype.join(",")` over `v.items[i..]`, as used by `String(v)`. */
  function ArrayText(v: Json, i: nat): string
    requires v.JArray? && i <= |v.items|
    decreases v, 0, |v.items| - i
  {
    if i == |v.items| then ""
    else
      assert v.items[i] in v.items;
      var item := if v.items[i].JNull? then "" else ToString(v.items[i]);
      (if i == 0 then "" else ",") + item + ArrayText(v, i + 1)
  }

  /** `String(array)` of an array without `null` elements joins their `String(v)` with ",". */
  lemma ArrayToStringJoins(items: seq<Json>)
    requires forall k :: 0 <= k < |items| ==> !items[k].JNull?
    ensures ToString(JArray(items)) == Join(Texts(items), ",")
  {
    var v := JArray(items);
    assert ToString(v) == ArrayText(v, 0);
    if items != [] {
      ArrayTextJoins(v, 1);
      ArrayTextHead(v);
      JoinHeadTexts(items);
    }
  }

  lemma ArrayTextHead(v: Json)
    requires v.JArray? && v.items != [] && !v.items[0].JNull?
    ensures ArrayText(v, 0) == ToString(v.items[0]) + ArrayText(v, 1)
  {
  }

  lemma JoinHeadTexts(items: seq<Json>)
    requires items != []
    ensures Join(Texts(items), ",") == ToString(items[0]) + if |items| == 1 then "" else "," + Join(Texts(items[1..]), ",")
  {
    var t := Texts(items);
    if |items| > 1 {
      assert t[1..] == Texts(items[1..]);
    }
  }

  /** The tail of the array text from element `i` on is "," followed by the join of the rest. */
  lemma {:induction false} ArrayTextJoins(v: Json, i: nat)
    requires v.JArray? && 1 <= i <= |v.items|
    requires forall k :: 0 <= k < |v.items| ==> !v.items[k].JNull?
    ensures ArrayText(v, i) == if i == |v.items| then "" else "," + Join(Texts(v.items[i..]), ",")
    decreases |v.items| - i
  {
    if i < |v.items| {
      ArrayTextJoins(v, i + 1);
      var t := Texts(v.items[i..]);
      assert v.items[i..][1..] == v.items[i + 1..];
      assert t[0] == ToString(v.items[i]);
      if i + 1 < |v.items| {
        assert t[1..] == Texts(v.items[i + 1..]);
      }
    }
  }

  /** Property lookup `obj.key` for a key that no prototype defines; `None` is `undefined`. */
  function Get(obj: Json, key: string): (r: Option<Json>)
    ensures r.Some? <==> obj.JObject? && key in obj.members
    ensures r.Some? ==> r.value == obj.members[key]
  {
    match obj
    case JObject(m) => if key in m then Some(m[key]) else None
    case _ => None
  }

  /** Truthiness of a lookup result (`undefined` is falsy). */
  predicate TruthyOpt(v: Option<Json>) {
    v.Some? && Truthy(v.value)
  }

  /** The characters matched by the regular-expression class `\s`. */
  predicate IsJsWhitespace(c: char) {
    var n := c as int;
    n == 0x09 || n == 0x0A || n == 0x0B || n == 0x0C || n == 0x0D || n == 0x20
    || n == 0xA0 || n == 0x1680 || (0x2000 <= n <= 0x200A)
    || n == 0x2028 || n == 0x2029 || n == 0x202F || n == 0x205F
    || n == 0x3000 || n == 0xFEFF
  }

  /** `parts.filter(Boolean)` over strings: the non-empty ones, in order. */
  function NonEmpty(parts: seq<string>): (r: seq<string>)
    ensures |r| <= |parts|
    ensures forall i :: 0 <= i < |r| ==> r[i] != ""
    ensures forall p :: p in r <==> p in parts && p != ""
  {
    if parts == [] then []
    else (if parts[0] == "" then [] else [parts[0]]) + NonEmpty(parts[1..])
  }

  /** `filter(Boolean)` keeps order and multiplicity: it distributes over concatenation. */
  lemma {:induction false} NonEmptyConcat(a: seq<string>, b: seq<string>)
    ensures NonEmpty(a + b) == NonEmpty(a) + NonEmpty(b)
  {
    if a == [] {
      assert a + b == b;
    } else {
      assert (a + b)[0] == a[0] && (a + b)[1..] == a[1..] + b;
      NonEmptyConcat(a[1..], b);
    }
  }

  /** `parts.join(sep)`. */
  function Join(parts: seq<string>, sep: string): string {
    if parts == [] then ""
    else if |parts| == 1 then parts[0]
    else parts[0] + sep + Join(parts[1..], sep)
  }

  /** `values.filter(Boolean)`: the truthy values, in order. */
  function TruthyValues(values: seq<Json>): (r: seq<Json>)
    ensures |r| <= |values|
    ensures forall i :: 0 <= i < |r| ==> Truthy(r[i])
    ensures forall v :: v in r <==> v in values && Truthy(v)
  {
    if values == [] then []
    else (if Truthy(values[0]) then [values[0]] else []) + TruthyValues(values[1..])
  }

  /** `filter(Boolean)` keeps order and multiplicity: it distributes over concatenation. */
  lemma {:induction false} TruthyValuesConcat(a: seq<Json>, b: seq<Json>)
    ensures TruthyValues(a + b) == TruthyValues(a) + TruthyValues(b)
  {
    if a == [] {
      assert a + b == b;
    } else {
      assert (a + b)[0] == a[0] && (a + b)[1..] == a[1..] + b;
      TruthyValuesConcat(a[1..], b);
    }
  }

  /** `String(v)` of each value. */
  function Texts(values: seq<Json>): (r: seq<string>)
    ensures |r| == |values|
    ensures forall i :: 0 <= i < |r| ==> r[i] == ToString(values[i])
  {
    if values == [] then [] else [ToString(values[0])] + Texts(values[1..])
  }

  /** `values.filter(Boolean).join(sep)`, the idiom the extension uses to build address text. */
  function JoinTruthy(values: seq<Json>, sep: string): string {
    Join(Texts(TruthyValues(values)), sep)
  }

  /** Whether every value is a string. */
  predicate AllStrings(values: seq<Json>) {
    forall i :: 0 <= i < |values| ==> values[i].JString?
  }

  /** The string of one character per byte, each character's code being the byte (`String.fromCharCode`). */
  function ByteString(b: seq<byte>): (r: string)
    ensures |r| == |b|
    ensures forall i :: 0 <= i < |b| ==> r[i] as int == b[i]
  {
    if b == [] then "" else [b[0] as char] + ByteString(b[1..])
  }

  /**
   * The browser functions the code calls and this model does not define:
   * each is total or partial (`None` = the call throws) and otherwise unconstrained.
   */
  datatype Host = Host(
    jsonParse: string -> Option<Json>,              // JSON.parse
    decodeUriComponent: string -> Option<string>,   // decodeURIComponent
    escape: string -> string,                       // escape
    encodeUriComponent: string -> string,           // encodeURIComponent (no lone surrogates in Dafny strings)
    decodeWindows1252: seq<byte> -> Option<string>, // new TextDecoder('windows-1252', {fatal: true}).decode
    decodeIso88591: seq<byte> -> Option<string>,    // new TextDecoder('iso-8859-1', {fatal: true}).decode
    i18nMessage: string -> string                   // browser.i18n.getMessage
  )

  /** `decodeURIComponent` leaves text without '%' as it is, as ECMA-262 section 19.2.6.2 specifies. */
  ghost predicate PercentFreeIdentity(host: Host) {
    forall s: string {:trigger host.decodeUriComponent(s)} :: '%' !in s ==> host.decodeUriComponent(s) == Some(s)
  }
}
