/**
 * The enumerations and records of src/types.ts, the settings defaults, and the
 * object spread `{ ...settings, ...patch }` by which settings are merged.
 */
module Types {
  import opened Wrappers

  datatype MapProvider = Google | Osm | Apple {
    function Name(): string {
      match this
      case Google => "google"
      case Osm => "osm"
      case Apple => "apple"
    }
  }

  datatype Position = BottomRight | BottomLeft | TopRight | TopLeft {
    function Name(): string {
      match this
      case BottomRight => "bottom-right"
      case BottomLeft => "bottom-left"
      case TopRight => "top-right"
      case TopLeft => "top-left"
    }
  }

  datatype Theme = Dark | Light {
    function Name(): string {
      match this
      case Dark => "dark"
      case Light => "light"
    }
  }

  datatype LocaleOverride = Auto | De | En | Es | It {
    function Name(): string {
      match this
      case Auto => "auto"
      case De => "de"
      case En => "en"
      case Es => "es"
      case It => "it"
    }
  }

  datatype Settings = Settings(
    mapProvider: MapProvider,
    autoCopy: bool,
    position: Position,
    theme: Theme,
    localeOverride: LocaleOverride)

  /** The defaults of settings-manager.ts, content.ts and content.js: google, no auto-copy, bottom-right, dark, auto. */
  const Defaults: Settings := Settings(Google, false, BottomRight, Dark, Auto)

  /** A `Partial<Settings>`: each key present or absent. */
  datatype SettingsPatch = SettingsPatch(
    mapProvider: Option<MapProvider>,
    autoCopy: Option<bool>,
    position: Option<Position>,
    theme: Option<Theme>,
    localeOverride: Option<LocaleOverride>)

  const EmptyPatch: SettingsPatch := SettingsPatch(None, None, None, None, None)

  /** The keys of `Settings` and the values they hold. */
  datatype Key = MapProviderKey | AutoCopyKey | PositionKey | ThemeKey | LocaleOverrideKey

  datatype Value =
    | ProviderValue(provider: MapProvider)
    | FlagValue(flag: bool)
    | PositionValue(position: Position)
    | ThemeValue(theme: Theme)
    | LocaleValue(locale: LocaleOverride)

  /** `settings[key]`. */
  function Lookup(s: Settings, k: Key): Value {
    match k
    case MapProviderKey => ProviderValue(s.mapProvider)
    case AutoCopyKey => FlagValue(s.autoCopy)
    case PositionKey => PositionValue(s.position)
    case ThemeKey => ThemeValue(s.theme)
    case LocaleOverrideKey => LocaleValue(s.localeOverride)
  }

  /** `patch[key]`, `None` when the key is absent. */
  function PatchLookup(p: SettingsPatch, k: Key): Option<Value> {
    match k
    case MapProviderKey => if p.mapProvider.Some? then Some(ProviderValue(p.mapProvider.value)) else None
    case AutoCopyKey => if p.autoCopy.Some? then Some(FlagValue(p.autoCopy.value)) else None
    case PositionKey => if p.position.Some? then Some(PositionValue(p.position.value)) else None
    case ThemeKey => if p.theme.Some? then Some(ThemeValue(p.theme.value)) else None
    case LocaleOverrideKey => if p.localeOverride.Some? then Some(LocaleValue(p.localeOverride.value)) else None
  }

  /** `{ ...s, ...p }`: every key present in `p` takes `p`'s value, every other key keeps `s`'s. */
  function Apply(s: Settings, p: SettingsPatch): (r: Settings)
    ensures forall k :: Lookup(r, k) == PatchLookup(p, k).GetOr(Lookup(s, k))
  {
    Settings(
      p.mapProvider.GetOr(s.mapProvider),
      p.autoCopy.GetOr(s.autoCopy),
      p.position.GetOr(s.position),
      p.theme.GetOr(s.theme),
      p.localeOverride.GetOr(s.localeOverride))
  }

  /** `{ ...p, ...q }` on two partial records. */
  function Merge(p: SettingsPatch, q: SettingsPatch): (r: SettingsPatch)
    ensures forall k :: PatchLookup(r, k) == if PatchLookup(q, k).Some? then PatchLookup(q, k) else PatchLookup(p, k)
  {
    SettingsPatch(
      if q.mapProvider.Some? then q.mapProvider else p.mapProvider,
      if q.autoCopy.Some? then q.autoCopy else p.autoCopy,
      if q.position.Some? then q.position else p.position,
      if q.theme.Some? then q.theme else p.theme,
      if q.localeOverride.Some? then q.localeOverride else p.localeOverride)
  }

  /** Spreading nothing changes nothing. */
  lemma ApplyEmpty(s: Settings)
    ensures Apply(s, EmptyPatch) == s
  {
  }

  /** Two updates in a row are one update with the merged patch. */
  lemma ApplyTwice(s: Settings, p: SettingsPatch, q: SettingsPatch)
    ensures Apply(Apply(s, p), q) == Apply(s, Merge(p, q))
  {
  }
}
