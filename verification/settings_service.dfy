/**
 * `SettingsManager` of src/services/settings-manager.ts: the settings record a
 * manager holds, the partial-record updates to it, and the single shared
 * instance that `create` makes once. The storage calls are parameters: what
 * `storage.sync.get` delivered (or that it threw), and whether `set` threw.
 */
module SettingsService {
  import opened Wrappers
  import opened Types

  /**
   * `loadSettings(api)`: the stored items spread over the defaults, or the
   * defaults when the storage call throws (`stored == None`).
   */
  function LoadSettings(stored: Option<SettingsPatch>): (r: Settings)
    ensures stored.None? ==> r == Defaults
    ensures stored.Some? ==> forall k :: Lookup(r, k) == PatchLookup(stored.value, k).GetOr(Lookup(Defaults, k))
  {
    match stored
    case None => Defaults
    case Some(items) => Apply(Defaults, items)
  }

  class SettingsManager {
    var settings: Settings

    /** `new SettingsManager(api, initialSettings)`: `initialSettings || defaults`. */
    constructor(initialSettings: Option<Settings>)
      ensures settings == initialSettings.GetOr(Defaults)
    {
      settings := initialSettings.GetOr(Defaults);
    }

    /** `current` / `getAll()`: a copy equal to the stored settings. */
    method GetAll() returns (r: Settings)
      ensures r == settings
    {
      r := settings;
    }

    /** `get(key)`. */
    method Get(k: Key) returns (v: Value)
      ensures v == Lookup(settings, k)
    {
      v := Lookup(settings, k);
    }

    /** `update(p)`: the keys present in `p` change to `p`'s values, all others stay. */
    method Update(p: SettingsPatch)
      modifies this
      ensures settings == Apply(old(settings), p)
      ensures forall k :: PatchLookup(p, k).None? ==> Lookup(settings, k) == Lookup(old(settings), k)
    {
      settings := Apply(settings, p);
    }

    /**
     * `save(p)`, once its promise has settled: the update happens inside the
     * storage `set` callback, so when `set` throws the promise rejects and the
     * settings are unchanged.
     */
    method Save(p: SettingsPatch, setThrows: bool) returns (rejected: bool)
      modifies this
      ensures rejected == setThrows
      ensures settings == if setThrows then old(settings) else Apply(old(settings), p)
    {
      if setThrows {
        return true;
      }
      Update(p);
      return false;
    }
  }

  /** The static `SettingsManager.instance`. */
  class SettingsRegistry {
    var instance: Option<SettingsManager>

    constructor()
      ensures instance.None?
    {
      instance := None;
    }

    /**
     * `SettingsManager.create(api)`: loads and constructs only when no instance
     * exists; otherwise returns the existing one without loading.
     */
    method Create(stored: Option<SettingsPatch>) returns (m: SettingsManager)
      modifies this
      ensures old(instance).Some? ==> m == old(instance).value && instance == old(instance) && unchanged(m)
      ensures old(instance).None? ==> fresh(m) && m.settings == LoadSettings(stored) && instance == Some(m)
    {
      if instance.Some? {
        return instance.value;
      }
      var settings := LoadSettings(stored);
      m := new SettingsManager(Some(settings));
      instance := Some(m);
    }

    /** `SettingsManager.getInstance()`: throws before `create` has run. */
    method GetInstance() returns (r: Result<SettingsManager, string>)
      ensures instance.None? ==> r == Failure("SettingsManager not initialized. Call create() first.")
      ensures instance.Some? ==> r == Success(instance.value)
    {
      if instance.None? {
        return Failure("SettingsManager not initialized. Call create() first.");
      }
      return Success(instance.value);
    }
  }

  /** `create` runs its loader once: a second call hands back the first instance with its first settings. */
  method CreateTwice(first: Option<SettingsPatch>, second: Option<SettingsPatch>)
    returns (a: SettingsManager, b: SettingsManager)
    ensures a == b && a.settings == LoadSettings(first)
  {
    var registry := new SettingsRegistry();
    a := registry.Create(first);
    b := registry.Create(second);
  }
}
