/**
 * The address the overlay shows: the normaliser of `runDecoderOnce`
 * (src/content.ts, content.js), the address line of `createOverlay`, the
 * auto-copy text and `buildMapHref`. Fields are JavaScript values, not
 * strings: the normaliser does not coerce what `JSON.parse` produced.
 */
module AddressModel {
  import opened Wrappers
  import opened JsValues

  /** The five fields, German names as in src/types.ts. */
  datatype Address = Address(strasse: Json, hausnummer: Json, plz: Json, ort: Json, ortsteil: Json)

  const EmptyAddress := Address(JString(""), JString(""), JString(""), JString(""), JString(""))

  /** The alternate keys of each field, in the order the `||` chains try them. */
  const StreetKeys: seq<string> := ["strasse", "street"]
  const NumberKeys: seq<string> := ["hausnummer", "houseNumber", "housenumber"]
  const PostcodeKeys: seq<string> := ["plz", "zip", "postalCode"]
  const CityKeys: seq<string> := ["ort", "city"]
  const DistrictKeys: seq<string> := ["ortsteil", "district"]

  /** `obj[k0] || obj[k1] || … || ''`. */
  function FirstTruthy(obj: Json, keys: seq<string>): (r: Json)
    ensures Truthy(r) || r == JString("")
    ensures r == JString("") <==> forall i :: 0 <= i < |keys| ==> !TruthyOpt(Get(obj, keys[i]))
  {
    if keys == [] then JString("")
    else if TruthyOpt(Get(obj, keys[0])) then Get(obj, keys[0]).value
    else FirstTruthy(obj, keys[1..])
  }

  /** The field is the value under the first key, in listed order, whose value is truthy. */
  lemma {:induction false} FirstTruthyIsFirst(obj: Json, keys: seq<string>, i: nat)
    requires i < |keys| && TruthyOpt(Get(obj, keys[i]))
    requires forall j :: 0 <= j < i ==> !TruthyOpt(Get(obj, keys[j]))
    ensures FirstTruthy(obj, keys) == Get(obj, keys[i]).value
  {
    if i > 0 {
      assert !TruthyOpt(Get(obj, keys[0]));
      assert keys[1..][i - 1] == keys[i];
      forall j | 0 <= j < i - 1
        ensures !TruthyOpt(Get(obj, keys[1..][j]))
      {
        assert keys[1..][j] == keys[j + 1];
      }
      FirstTruthyIsFirst(obj, keys[1..], i - 1);
    }
  }

  /** The `address` record built in `runDecoderOnce`. */
  function Normalize(obj: Json): (r: Address)
    ensures !obj.JObject? ==> r == EmptyAddress
    ensures obj == JObject(map[]) ==> r == EmptyAddress
  {
    Address(FirstTruthy(obj, StreetKeys), FirstTruthy(obj, NumberKeys), FirstTruthy(obj, PostcodeKeys),
            FirstTruthy(obj, CityKeys), FirstTruthy(obj, DistrictKeys))
  }

  /** `[strasse, hausnummer, plz, ort].filter(Boolean).join(' ')`: the auto-copy text and the map query. */
  function SearchText(a: Address): string {
    JoinTruthy([a.strasse, a.hausnummer, a.plz, a.ort], " ")
  }

  /** `[strasse, hausnummer].filter(Boolean).join(' ')`. */
  function StreetLine(a: Address): string {
    JoinTruthy([a.strasse, a.hausnummer], " ")
  }

  /** `[plz, ort].filter(Boolean).join(' ')`. */
  function TownLine(a: Address): string {
    JoinTruthy([a.plz, a.ort], " ")
  }

  /** `(${ortsteil})`. */
  function DistrictLine(a: Address): string {
    "(" + ToString(a.ortsteil) + ")"
  }

  predicate HasStreet(a: Address) {
    Truthy(a.strasse) || Truthy(a.hausnummer)
  }

  predicate HasTown(a: Address) {
    Truthy(a.plz) || Truthy(a.ort)
  }

  /** `addrLine` of `createOverlay`. */
  function AddressLine(a: Address): string {
    StreetLine(a)
    + (if HasTown(a) then "\n" + TownLine(a) else "")
    + (if Truthy(a.ortsteil) then "\n" + DistrictLine(a) else "")
  }

  /** `addrLine || t('uiNoAddress')`: what the overlay's address element shows. */
  function DisplayedLine(a: Address, noAddress: string): string {
    if AddressLine(a) == "" then noAddress else AddressLine(a)
  }

  predicate AllFalsy(a: Address) {
    !Truthy(a.strasse) && !Truthy(a.hausnummer) && !Truthy(a.plz) && !Truthy(a.ort) && !Truthy(a.ortsteil)
  }

  /** A value whose text is non-empty whenever it is truthy (every string is; an empty array is not). */
  predicate Textual(v: Json) {
    Truthy(v) ==> ToString(v) != ""
  }

  predicate AllTextual(a: Address) {
    Textual(a.strasse) && Textual(a.hausnummer) && Textual(a.plz) && Textual(a.ort) && Textual(a.ortsteil)
  }

  lemma JoinHead(parts: seq<string>, sep: string)
    requires parts != [] && parts[0] != ""
    ensures Join(parts, sep) != ""
  {
    if |parts| > 1 {
      assert Join(parts, sep) == parts[0] + sep + Join(parts[1..], sep);
    }
  }

  /** `filter(Boolean).join(sep)` is empty exactly when no value is truthy, for values with text. */
  lemma JoinTruthyEmpty(values: seq<Json>, sep: string)
    requires forall i :: 0 <= i < |values| ==> Textual(values[i])
    ensures JoinTruthy(values, sep) == "" <==> forall i :: 0 <= i < |values| ==> !Truthy(values[i])
  {
    var tv := TruthyValues(values);
    if tv == [] {
      forall i | 0 <= i < |values|
        ensures !Truthy(values[i])
      {
        assert values[i] in values;
      }
    } else {
      assert tv[0] in values;
      var k :| 0 <= k < |values| && values[k] == tv[0];
      assert Textual(values[k]);
      JoinHead(Texts(tv), sep);
    }
  }

  /**
   * The address line is empty exactly when all five fields are falsy, for
   * fields with text (all strings, as after sanitising), and the element then
   * shows the "no address" message.
   */
  lemma AddressLineEmpty(a: Address, noAddress: string)
    requires AllTextual(a)
    ensures AddressLine(a) == "" <==> AllFalsy(a)
    ensures AllFalsy(a) ==> DisplayedLine(a, noAddress) == noAddress
    ensures !AllFalsy(a) ==> DisplayedLine(a, noAddress) == AddressLine(a) != ""
  {
    JoinTruthyEmpty([a.strasse, a.hausnummer], " ");
    JoinTruthyEmpty([a.plz, a.ort], " ");
  }

  /** Without sanitising (content.js), a truthy empty array as street leaves the line empty. */
  lemma EmptyArrayStreet(a: Address)
    requires a == EmptyAddress.(strasse := JArray([]))
    ensures Truthy(a.strasse) && AddressLine(a) == ""
  {
    assert TruthyValues([a.strasse, a.hausnummer]) == [JArray([])];
    assert Texts([JArray([])]) == [""];
  }

  /** A truthy district is the final line, in parentheses. */
  lemma DistrictLastLine(a: Address)
    requires Truthy(a.ortsteil)
    ensures exists before :: AddressLine(a) == before + "\n" + DistrictLine(a)
  {
    var before := StreetLine(a) + (if HasTown(a) then "\n" + TownLine(a) else "");
    assert AddressLine(a) == before + "\n" + DistrictLine(a);
  }

  /** Strings as JavaScript values. */
  function AsJson(parts: seq<string>): (r: seq<Json>)
    ensures |r| == |parts|
    ensures forall i :: 0 <= i < |parts| ==> r[i] == JString(parts[i])
  {
    if parts == [] then [] else [JString(parts[0])] + AsJson(parts[1..])
  }

  lemma {:induction false} TextsOfStrings(parts: seq<string>)
    ensures Texts(TruthyValues(AsJson(parts))) == NonEmpty(parts)
  {
    if parts != [] {
      var v := AsJson(parts);
      assert v[1..] == AsJson(parts[1..]);
      TextsOfStrings(parts[1..]);
      if parts[0] != "" {
        var rest := TruthyValues(v[1..]);
        assert TruthyValues(v) == [v[0]] + rest;
        assert ([v[0]] + rest)[1..] == rest;
      }
    }
  }

  /** On strings, `filter(Boolean).join(sep)` drops the empty parts and joins the rest with `sep`. */
  lemma JoinTruthyOfStrings(parts: seq<string>, sep: string)
    ensures JoinTruthy(AsJson(parts), sep) == Join(NonEmpty(parts), sep)
  {
    TextsOfStrings(parts);
  }

  const OsmSearch := "https://www.openstreetmap.org/search?query="
  const AppleSearch := "https://maps.apple.com/?q="
  const GoogleSearch := "https://www.google.com/maps/search/?api=1&query="

  /** `buildMapHref(provider, parts)`; the provider is whatever the settings hold. */
  function BuildMapHref(host: Host, provider: string, parts: seq<Json>): (r: string)
    ensures exists base :: base in {OsmSearch, AppleSearch, GoogleSearch}
                        && r == base + host.encodeUriComponent(JoinTruthy(parts, " "))
  {
    var q := host.encodeUriComponent(JoinTruthy(parts, " "));
    if provider == "osm" then OsmSearch + q
    else if provider == "apple" then AppleSearch + q
    else GoogleSearch + q
  }

  /** The link of the overlay's map button: the district is never part of the query. */
  function MapHref(host: Host, provider: string, a: Address): string {
    BuildMapHref(host, provider, [a.strasse, a.hausnummer, a.plz, a.ort])
  }

  /** A string that differs from `y` at a position of both is no prefix of any extension of `y`. */
  lemma NotPrefix(x: string, y: string, q: string, k: nat)
    requires k < |x| && k < |y| && x[k] != y[k]
    ensures !(x <= y + q)
  {
    assert (y + q)[k] == y[k];
  }

  /** Which site the link goes to is decided by the provider alone: OSM for "osm", Apple for "apple", Google otherwise. */
  lemma MapHrefSite(host: Host, provider: string, parts: seq<Json>)
    ensures OsmSearch <= BuildMapHref(host, provider, parts) <==> provider == "osm"
    ensures AppleSearch <= BuildMapHref(host, provider, parts) <==> provider == "apple"
    ensures GoogleSearch <= BuildMapHref(host, provider, parts) <==> provider != "osm" && provider != "apple"
  {
    var q := host.encodeUriComponent(JoinTruthy(parts, " "));
    NotPrefix(OsmSearch, AppleSearch, q, 8);
    NotPrefix(OsmSearch, GoogleSearch, q, 12);
    NotPrefix(AppleSearch, OsmSearch, q, 8);
    NotPrefix(AppleSearch, GoogleSearch, q, 8);
    NotPrefix(GoogleSearch, OsmSearch, q, 12);
    NotPrefix(GoogleSearch, AppleSearch, q, 8);
  }

  /** The map query of an address is the auto-copy text, URL-encoded. */
  lemma MapQueryIsSearchText(host: Host, provider: string, a: Address)
    ensures exists base :: MapHref(host, provider, a) == base + host.encodeUriComponent(SearchText(a))
  {
    var base := if provider == "osm" then OsmSearch else if provider == "apple" then AppleSearch else GoogleSearch;
    assert MapHref(host, provider, a) == base + host.encodeUriComponent(SearchText(a));
  }
}
