/**
 * The manifest rewrite of the build scripts scripts/build.ts and its older
 * copy scripts/build.mjs: `ensureFirefoxGecko`, `mv3toFirefoxMv2` and the
 * target branching of `patchManifestFor`. The parsed manifest is an object
 * whose properties the functions assign and delete in place; the keys the
 * rewrite touches are fields of the `Manifest` class.
 */
module ManifestBuild {
  import opened Wrappers
  import opened JsValues

  /** Which build script: scripts/build.ts or scripts/build.mjs. */
  datatype Flavour = BuildTs | BuildMjs

  const DefaultGeckoId := "is24-address-decoder@example.com"
  const DefaultMinVersion := "109.0"

  /** `{ scripts: ['bg.js'] }`. */
  const BackgroundScripts: Json := JObject(map["scripts" := JArray([JString("bg.js")])])

  /** `Array.from(new Set(s))` with `seen` already taken: the first occurrence of every element, in order. */
  function Dedup(s: seq<string>, seen: set<string>): (r: seq<string>)
    ensures forall x :: x in r <==> x in s && x !in seen
    ensures forall i, j :: 0 <= i < j < |r| ==> r[i] != r[j]
  {
    if s == [] then []
    else if s[0] in seen then Dedup(s[1..], seen)
    else [s[0]] + Dedup(s[1..], seen + {s[0]})
  }

  function Elements(s: seq<string>): set<string> {
    set x | x in s
  }

  /** Deduplicating a concatenation keeps the first part's survivors first, then what the second adds. */
  lemma {:induction false} DedupAppend(a: seq<string>, b: seq<string>, seen: set<string>)
    ensures Dedup(a + b, seen) == Dedup(a, seen) + Dedup(b, seen + Elements(a))
  {
    if a == [] {
      assert a + b == b;
      assert Elements(a) == {};
      assert seen + Elements(a) == seen;
    } else {
      assert (a + b)[0] == a[0];
      assert (a + b)[1..] == a[1..] + b;
      if a[0] in seen {
        DedupAppend(a[1..], b, seen);
        assert seen + Elements(a[1..]) == seen + Elements(a);
      } else {
        DedupAppend(a[1..], b, seen + {a[0]});
        assert seen + {a[0]} + Elements(a[1..]) == seen + Elements(a);
      }
    }
  }

  /** A list without repeats passes `new Set` unchanged. */
  lemma {:induction false} DedupDistinct(s: seq<string>, seen: set<string>)
    requires forall i, j :: 0 <= i < j < |s| ==> s[i] != s[j]
    requires forall x :: x in s ==> x !in seen
    ensures Dedup(s, seen) == s
  {
    if s != [] {
      forall x | x in s[1..]
        ensures x !in seen + {s[0]}
      {
        var k :| 0 <= k < |s[1..]| && s[1..][k] == x;
        assert s[k + 1] == x;
      }
      DedupDistinct(s[1..], seen + {s[0]});
    }
  }

  /**
   * The union `mv3toFirefoxMv2` writes: the existing permissions (deduplicated)
   * first, then each host permission not already present, every entry once.
   */
  lemma PermissionUnion(permissions: seq<string>, hosts: seq<string>)
    ensures var r := Dedup(permissions + hosts, {});
            (forall x :: x in r <==> x in permissions || x in hosts)
            && (forall i, j :: 0 <= i < j < |r| ==> r[i] != r[j])
            && r == Dedup(permissions, {}) + Dedup(hosts, Elements(permissions))
  {
    DedupAppend(permissions, hosts, {});
    assert {} + Elements(permissions) == Elements(permissions);
  }

  /** `data_collection_permissions` of the new gecko object. */
  function DataCollection(flavour: Flavour): (r: Json)
    ensures r.JObject? && "required" in r.members && r.members["required"] == JArray([JString("none")])
  {
    var required := map["required" := JArray([JString("none")])];
    match flavour
    case BuildTs => JObject(required)
    case BuildMjs => JObject(required["collects_browsing_data" := JBool(false)]
                                    ["collects_search_terms" := JBool(false)]
                                    ["collects_private_browsing_data" := JBool(false)])
  }

  /** `gecko.key || fallback`. */
  function OrDefault(gecko: Json, key: string, fallback: string): (r: Json)
    ensures TruthyOpt(Get(gecko, key)) ==> r == Get(gecko, key).value
    ensures !TruthyOpt(Get(gecko, key)) ==> r == JString(fallback)
  {
    if TruthyOpt(Get(gecko, key)) then Get(gecko, key).value else JString(fallback)
  }

  /** The object `ensureFirefoxGecko` stores as `gecko`, given the one it found (`{}` if none). */
  function NewGecko(flavour: Flavour, gecko: Json): (r: Json)
    ensures r.JObject? && r.members.Keys == {"id", "strict_min_version", "data_collection_permissions"}
    ensures r.members["id"] == OrDefault(gecko, "id", DefaultGeckoId)
    ensures r.members["strict_min_version"] == OrDefault(gecko, "strict_min_version", DefaultMinVersion)
    ensures r.members["data_collection_permissions"] == DataCollection(flavour)
  {
    JObject(map[
      "id" := OrDefault(gecko, "id", DefaultGeckoId),
      "strict_min_version" := OrDefault(gecko, "strict_min_version", DefaultMinVersion),
      "data_collection_permissions" := DataCollection(flavour)])
  }

  /** `browser_specific_settings.gecko || {}`. */
  function FoundGecko(specific: map<string, Json>): Json {
    if "gecko" in specific && Truthy(specific["gecko"]) then specific["gecko"] else JObject(map[])
  }

  /** The `browser_specific_settings` that `ensureFirefoxGecko` leaves: its other keys kept, `gecko` replaced. */
  function WithGecko(flavour: Flavour, specific: Option<map<string, Json>>): (r: map<string, Json>)
    ensures "gecko" in r
    ensures forall k :: k in r && k != "gecko" <==> specific.Some? && k in specific.value && k != "gecko"
    ensures forall k :: k in r && k != "gecko" ==> r[k] == specific.value[k]
  {
    var s := specific.GetOr(map[]);
    s["gecko" := NewGecko(flavour, FoundGecko(s))]
  }

  /**
   * Whether `patchManifestFor` fails on the default locale: `if (manifest.default_locale)`
   * is a truthiness test, so a missing or empty locale skips the check.
   */
  predicate LocaleMissing(defaultLocale: Option<string>, localeFound: bool) {
    defaultLocale.Some? && defaultLocale.value != "" && !localeFound
  }

  /** An empty `default_locale` is not checked, whether or not its messages exist. */
  lemma EmptyLocaleSkipsCheck(localeFound: bool)
    ensures !LocaleMissing(Some(""), localeFound) && !LocaleMissing(None, localeFound)
    ensures forall l :: l != "" ==> (LocaleMissing(Some(l), localeFound) <==> !localeFound)
  {
  }

  class Manifest {
    var manifestVersion: int
    var version: Option<Json>
    var defaultLocale: Option<string>
    var background: Option<Json>
    var permissions: Option<seq<string>>
    var hostPermissions: Option<seq<string>>
    var browserSpecific: Option<map<string, Json>>

    constructor(manifestVersion: int, version: Option<Json>, defaultLocale: Option<string>, background: Option<Json>,
                permissions: Option<seq<string>>, hostPermissions: Option<seq<string>>,
                browserSpecific: Option<map<string, Json>>)
      ensures this.manifestVersion == manifestVersion && this.version == version
      ensures this.defaultLocale == defaultLocale && this.background == background
      ensures this.permissions == permissions && this.hostPermissions == hostPermissions
      ensures this.browserSpecific == browserSpecific
    {
      this.manifestVersion := manifestVersion;
      this.version := version;
      this.defaultLocale := defaultLocale;
      this.background := background;
      this.permissions := permissions;
      this.hostPermissions := hostPermissions;
      this.browserSpecific := browserSpecific;
    }

    /** `ensureFirefoxGecko(manifest)`. */
    method EnsureFirefoxGecko(flavour: Flavour)
      modifies this
      ensures browserSpecific == Some(WithGecko(flavour, old(browserSpecific)))
      ensures manifestVersion == old(manifestVersion) && version == old(version)
      ensures defaultLocale == old(defaultLocale) && background == old(background)
      ensures permissions == old(permissions) && hostPermissions == old(hostPermissions)
    {
      var specific := if browserSpecific.Some? then browserSpecific.value else map[];
      browserSpecific := Some(specific);
      var gecko := if "gecko" in specific && Truthy(specific["gecko"]) then specific["gecko"] else JObject(map[]);
      var id := if TruthyOpt(Get(gecko, "id")) then Get(gecko, "id").value else JString(DefaultGeckoId);
      var minVersion := if TruthyOpt(Get(gecko, "strict_min_version")) then Get(gecko, "strict_min_version").value
                        else JString(DefaultMinVersion);
      browserSpecific := Some(specific["gecko" := JObject(map[
        "id" := id,
        "strict_min_version" := minVersion,
        "data_collection_permissions" := DataCollection(flavour)])]);
    }

    /** `mv3toFirefoxMv2(manifest)`. */
    method Mv3ToFirefoxMv2(flavour: Flavour)
      modifies this
      ensures manifestVersion == 2 && background == Some(BackgroundScripts)
      ensures old(hostPermissions).Some? && |old(hostPermissions).value| > 0 ==>
                permissions == Some(Dedup(old(permissions).GetOr([]) + old(hostPermissions).value, {}))
                && hostPermissions.None?
      ensures !(old(hostPermissions).Some? && |old(hostPermissions).value| > 0) ==>
                permissions == old(permissions) && hostPermissions == old(hostPermissions)
      ensures browserSpecific == Some(WithGecko(flavour, old(browserSpecific)))
      ensures version == old(version) && defaultLocale == old(defaultLocale)
    {
      manifestVersion := 2;
      background := None;
      background := Some(BackgroundScripts);
      if hostPermissions.Some? && |hostPermissions.value| > 0 {
        var existing := if permissions.Some? then permissions.value else [];
        permissions := Some(Dedup(existing + hostPermissions.value, {}));
        hostPermissions := None;
      }
      EnsureFirefoxGecko(flavour);
    }

    /**
     * The in-memory part of `patchManifestFor(target, dir)`: build.ts copies a
     * truthy package version, then both check the default locale's messages
     * (`localeFound`: present in the target or copied from the repository),
     * then only "firefox" is rewritten. A failure leaves the file unwritten.
     */
    method PatchManifestFor(flavour: Flavour, target: string, packageVersion: Json, localeFound: bool)
      returns (r: Result<(), string>)
      modifies this
      ensures LocaleMissing(defaultLocale, localeFound) ==>
                r == Failure("Missing localization: _locales/" + defaultLocale.value + "/messages.json")
      ensures !LocaleMissing(defaultLocale, localeFound) ==> r == Success(())
      ensures version == if flavour == BuildTs && Truthy(packageVersion) then Some(packageVersion) else old(version)
      ensures r.Success? && target != "firefox" ==>
                manifestVersion == old(manifestVersion) && background == old(background)
                && permissions == old(permissions) && hostPermissions == old(hostPermissions)
                && browserSpecific == old(browserSpecific)
      ensures r.Success? && target == "firefox" ==>
                manifestVersion == 2 && background == Some(BackgroundScripts)
                && browserSpecific == Some(WithGecko(flavour, old(browserSpecific)))
      ensures r.Success? && target == "firefox" && old(hostPermissions).Some? && |old(hostPermissions).value| > 0 ==>
                permissions == Some(Dedup(old(permissions).GetOr([]) + old(hostPermissions).value, {}))
                && hostPermissions.None?
      ensures r.Success? && target == "firefox" && !(old(hostPermissions).Some? && |old(hostPermissions).value| > 0) ==>
                permissions == old(permissions) && hostPermissions == old(hostPermissions)
      ensures r.Failure? ==>
                manifestVersion == old(manifestVersion) && background == old(background)
                && permissions == old(permissions) && hostPermissions == old(hostPermissions)
                && browserSpecific == old(browserSpecific)
      ensures defaultLocale == old(defaultLocale)
    {
      if flavour == BuildTs && Truthy(packageVersion) {
        version := Some(packageVersion);
      }
      if LocaleMissing(defaultLocale, localeFound) {
        return Failure("Missing localization: _locales/" + defaultLocale.value + "/messages.json");
      }
      if target == "firefox" {
        Mv3ToFirefoxMv2(flavour);
      }
      r := Success(());
    }
  }

  /** An existing truthy gecko id and minimum version are kept; missing ones get the defaults. */
  lemma GeckoDefaults(flavour: Flavour, specific: Option<map<string, Json>>)
    ensures var g := WithGecko(flavour, specific)["gecko"].members;
            var found := FoundGecko(specific.GetOr(map[]));
            (TruthyOpt(Get(found, "id")) ==> g["id"] == Get(found, "id").value)
            && (!TruthyOpt(Get(found, "id")) ==> g["id"] == JString(DefaultGeckoId))
            && (TruthyOpt(Get(found, "strict_min_version")) ==> g["strict_min_version"] == Get(found, "strict_min_version").value)
            && (!TruthyOpt(Get(found, "strict_min_version")) ==> g["strict_min_version"] == JString(DefaultMinVersion))
  {
  }

  /** The two scripts write the same gecko object except for the three extra flags of build.mjs. */
  lemma FlavoursDiffer(gecko: Json)
    ensures NewGecko(BuildTs, gecko).members["data_collection_permissions"].members.Keys == {"required"}
    ensures var d := NewGecko(BuildMjs, gecko).members["data_collection_permissions"].members;
            d.Keys == {"required", "collects_browsing_data", "collects_search_terms", "collects_private_browsing_data"}
            && d["collects_browsing_data"] == JBool(false) && d["collects_search_terms"] == JBool(false)
            && d["collects_private_browsing_data"] == JBool(false)
    ensures NewGecko(BuildTs, gecko).members["id"] == NewGecko(BuildMjs, gecko).members["id"]
  {
  }
}
