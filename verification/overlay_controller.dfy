/**
 * The content script's overlay lifecycle: the module variables `overlayEl`,
 * `overlayState`, `settings`, `t` and `lastUrl` of src/content.ts and of its
 * older copy content.js, and the events that change them (show, hide, toggle,
 * the close button, the URL poll, `runDecoderOnce`, the mutation observer,
 * the toggle message, storage changes and the locale bundle arriving).
 *
 * Each event is a pure step on a `Model` of that state, and the `Controller`
 * class holds the same state in fields, with one method per event proved to
 * perform that step. What the page and the browser deliver (the scripts and
 * HTML, the new URL, the message, the changed settings, the loaded bundle) is
 * a parameter; timers only decide when a method is called.
 */
module OverlayController {
  import opened Wrappers
  import opened JsValues
  import opened Types
  import SettingsService
  import opened AddressModel
  import opened OverlayFactory
  import Sanitizer
  import Locator
  import ContentDecoder
  import LegacyDecoder

  datatype OverlayState = Hidden | Visible | Dismissed

  /** Which copy of the content script: src/content.ts or content.js. */
  datatype Script = Current | Legacy

  /** The translation function `t`. */
  datatype Translator =
    | BrowserMessages                        // `API.i18n.getMessage(k)`
    | Bundle(messages: map<string, string>)  // `k in bundle ? bundle[k] : k`

  /** `t(k)`: a bundle answers its own entries and falls back to the key itself. */
  function Translate(host: Host, tr: Translator, key: string): (r: string)
    ensures tr.Bundle? && key in tr.messages ==> r == tr.messages[key]
    ensures tr.Bundle? && key !in tr.messages ==> r == key
    ensures tr == BrowserMessages ==> r == host.i18nMessage(key)
  {
    match tr
    case BrowserMessages => host.i18nMessage(key)
    case Bundle(m) => if key in m then m[key] else key
  }

  /** What the overlay element shows; `displayed` is `style.display == 'block'`. */
  datatype Panel = Panel(
    displayed: bool,
    style: seq<Declaration>,
    buttons: GhostColours,
    title: string,
    line: string,
    copyText: string,
    mapHref: string,
    copyLabel: string,
    mapLabel: string,
    closeLabel: string)

  /** The page as the script reads it. */
  datatype Page = Page(scripts: seq<string>, html: string)

  /** The script's module state; `overlay` is `overlayEl`, `None` when it is null. */
  datatype Model = Model(
    settings: Settings,
    translator: Translator,
    overlay: Option<Panel>,
    state: OverlayState,
    lastUrl: string)

  /** The invariant at every event boundary: an existing overlay is displayed exactly when the state is visible. */
  predicate Consistent(m: Model) {
    m.overlay.Some? ==> (m.overlay.value.displayed <==> m.state == Visible)
  }

  /** The initial translator: the bundle only when a non-auto locale is set and its bundle loaded. */
  function InitialTranslator(settings: Settings, bundle: Option<map<string, string>>): (r: Translator)
    ensures r != BrowserMessages ==> settings.localeOverride != Auto && bundle.Some?
    ensures settings.localeOverride != Auto && bundle.Some? ==> r == Bundle(bundle.value)
  {
    if settings.localeOverride != Auto && bundle.Some? then Bundle(bundle.value) else BrowserMessages
  }

  /** `showOverlay()`. */
  function ShowStep(m: Model): (r: Model)
    ensures m.overlay.None? ==> r == m
    ensures m.overlay.Some? ==> r.overlay.Some? && r.overlay.value.displayed && r.state == Visible
    ensures Consistent(m) ==> Consistent(r)
  {
    if m.overlay.None? then m
    else m.(overlay := Some(m.overlay.value.(displayed := true)), state := Visible)
  }

  /** `hideOverlay()`: a dismissal is kept, anything else becomes hidden. */
  function HideStep(m: Model): (r: Model)
    ensures m.overlay.None? ==> r == m
    ensures m.overlay.Some? ==> r.overlay.Some? && !r.overlay.value.displayed
    ensures m.overlay.Some? ==> r.state == if m.state == Dismissed then Dismissed else Hidden
    ensures Consistent(m) ==> Consistent(r)
  {
    if m.overlay.None? then m
    else m.(overlay := Some(m.overlay.value.(displayed := false)),
            state := if m.state == Dismissed then Dismissed else Hidden)
  }

  /** `toggleOverlay()`: visible becomes hidden; hidden and dismissed both become visible. */
  function ToggleStep(m: Model): (r: Model)
    ensures m.overlay.None? ==> r == m
    ensures m.overlay.Some? && m.state == Visible ==> r.state == Hidden && r.overlay.Some? && !r.overlay.value.displayed
    ensures m.overlay.Some? && m.state != Visible ==> r.state == Visible && r.overlay.Some? && r.overlay.value.displayed
    ensures Consistent(m) ==> Consistent(r)
  {
    if m.overlay.None? then m
    else if m.state == Visible then HideStep(m)
    else ShowStep(m.(state := Hidden))
  }

  /** The close button: dismissed for good, then hidden. */
  function CloseStep(m: Model): (r: Model)
    ensures r.state == Dismissed
    ensures r.overlay.Some? ==> !r.overlay.value.displayed
    ensures Consistent(r)
  {
    HideStep(m.(state := Dismissed))
  }

  /** The URL poll; `true` when a decoder run gets scheduled. */
  function UrlStep(m: Model, href: string): (r: (Model, bool))
    ensures href == m.lastUrl ==> r == (m, false)
    ensures href != m.lastUrl ==> r.1 && r.0 == m.(lastUrl := href, state := Hidden, overlay := None)
  {
    if href == m.lastUrl then (m, false)
    else (m.(lastUrl := href, state := Hidden, overlay := None), true)
  }

  /** The mutation observer schedules a decoder run exactly when not dismissed and no overlay exists. */
  function MutationSchedules(m: Model): (r: bool)
    ensures r <==> m.state != Dismissed && m.overlay.None?
  {
    !(m.state == Dismissed) && !m.overlay.Some?
  }

  /** `decodeTelekomAddition(enc)` of the script in question. */
  function Decoded(script: Script, host: Host, enc: string): Json {
    match script
    case Current => ContentDecoder.DecodeTelekomAddition(host, Some(enc))
    case Legacy => LegacyDecoder.DecodeTelekomAddition(host, Some(enc))
  }

  /** The `address` record; content.js returns early (`None`) on a falsy decode, src/content.ts falls back to `{}`. */
  function Prepared(script: Script, decoded: Json): (r: Option<Address>)
    ensures script == Current ==> r.Some?
    ensures script == Legacy ==> (r.Some? <==> Truthy(decoded))
    ensures script == Current && !Truthy(decoded) ==> r == Some(EmptyAddress)
  {
    match script
    case Current => Some(Normalize(Or(decoded, JObject(map[]))))
    case Legacy => if Truthy(decoded) then Some(Normalize(decoded)) else None
  }

  /** The five `sanitizeText` calls of src/content.ts's `createOverlay`; `None` when one of them throws. */
  function SanitizeAddress(a: Address): (r: Option<Address>)
    ensures ((a.strasse.JString? || !Truthy(a.strasse)) && (a.hausnummer.JString? || !Truthy(a.hausnummer))
             && (a.plz.JString? || !Truthy(a.plz)) && (a.ort.JString? || !Truthy(a.ort))
             && (a.ortsteil.JString? || !Truthy(a.ortsteil))) ==> r.Some?
    ensures r.Some? <==> Sanitizer.SanitizeField(a.strasse).Some? && Sanitizer.SanitizeField(a.hausnummer).Some?
                         && Sanitizer.SanitizeField(a.plz).Some? && Sanitizer.SanitizeField(a.ort).Some?
                         && Sanitizer.SanitizeField(a.ortsteil).Some?
    ensures r.Some? ==> r.value.strasse == Sanitizer.SanitizeField(a.strasse).value
                        && r.value.hausnummer == Sanitizer.SanitizeField(a.hausnummer).value
                        && r.value.plz == Sanitizer.SanitizeField(a.plz).value
                        && r.value.ort == Sanitizer.SanitizeField(a.ort).value
                        && r.value.ortsteil == Sanitizer.SanitizeField(a.ortsteil).value
  {
    var s := Sanitizer.SanitizeField(a.strasse);
    var h := Sanitizer.SanitizeField(a.hausnummer);
    var p := Sanitizer.SanitizeField(a.plz);
    var o := Sanitizer.SanitizeField(a.ort);
    var d := Sanitizer.SanitizeField(a.ortsteil);
    if s.Some? && h.Some? && p.Some? && o.Some? && d.Some? then
      Some(Address(s.value, h.value, p.value, o.value, d.value))
    else None
  }

  /** A sanitised field is a string or falsy, so it has text whenever it is truthy. */
  lemma SanitizedFieldTextual(v: Json)
    requires Sanitizer.SanitizeField(v).Some?
    ensures Textual(Sanitizer.SanitizeField(v).value)
  {
  }

  lemma SanitizedTextual(a: Address)
    requires SanitizeAddress(a).Some?
    ensures AllTextual(SanitizeAddress(a).value)
  {
    SanitizedFieldTextual(a.strasse);
    SanitizedFieldTextual(a.hausnummer);
    SanitizedFieldTextual(a.plz);
    SanitizedFieldTextual(a.ort);
    SanitizedFieldTextual(a.ortsteil);
  }

  /** The element `createOverlay(address)` builds, still hidden. */
  function MakePanel(host: Host, settings: Settings, tr: Translator, a: Address): (r: Panel)
    ensures !r.displayed
    ensures r.copyText == AddressLine(a)
    ensures r.line == DisplayedLine(a, Translate(host, tr, "uiNoAddress"))
  {
    Panel(
      false,
      BaseStyle(settings.theme.Name(), settings.position.Name()),
      Ghost(settings.theme.Name()),
      Translate(host, tr, "uiTitle"),
      DisplayedLine(a, Translate(host, tr, "uiNoAddress")),
      AddressLine(a),
      MapHref(host, settings.mapProvider.Name(), a),
      Translate(host, tr, "uiCopy"),
      Translate(host, tr, "uiOpenMap"),
      Translate(host, tr, "uiClose"))
  }

  /** What one decoding produces: the auto-copied text, if any, and the overlay, if one gets built. */
  datatype Built = Built(copied: Option<string>, panel: Option<Panel>)

  /** From the `address` record on: auto-copy, then `createOverlay`. */
  function BuildFrom(script: Script, host: Host, settings: Settings, tr: Translator, prepared: Option<Address>): (r: Built)
    ensures r.panel.Some? ==> !r.panel.value.displayed
    ensures prepared.None? ==> r == Built(None, None)
    ensures prepared.Some? ==> r.copied == if settings.autoCopy then Some(SearchText(prepared.value)) else None
    ensures prepared.Some? && script == Legacy ==> r.panel == Some(MakePanel(host, settings, tr, prepared.value))
    ensures prepared.Some? && script == Current ==>
              (r.panel.Some? <==> SanitizeAddress(prepared.value).Some?)
    // src/content.ts shows the sanitised address, never the decoded one
    ensures prepared.Some? && script == Current && SanitizeAddress(prepared.value).Some? ==>
              r.panel == Some(MakePanel(host, settings, tr, SanitizeAddress(prepared.value).value))
  {
    match prepared
    case None => Built(None, None)
    case Some(a) =>
      var copied := if settings.autoCopy then Some(SearchText(a)) else None;
      var shown := if script == Current then SanitizeAddress(a) else Some(a);
      Built(copied, if shown.None? then None else Some(MakePanel(host, settings, tr, shown.value)))
  }

  /** From the decoded value on: normalise, auto-copy, `createOverlay`. */
  function Build(script: Script, host: Host, settings: Settings, tr: Translator, decoded: Json): Built {
    BuildFrom(script, host, settings, tr, Prepared(script, decoded))
  }

  /** The state after an event, with the text handed to the clipboard, if any. */
  datatype Ran = Ran(model: Model, copied: Option<string>)

  /** `runDecoderOnce()`. */
  function RunStep(script: Script, host: Host, m: Model, page: Page): (r: Ran)
    ensures r.model.settings == m.settings && r.model.translator == m.translator && r.model.lastUrl == m.lastUrl
    ensures m.state == Dismissed || m.overlay.Some? ==> r == Ran(m, None)
    ensures Locator.Extracted(page.scripts, page.html).None? ==> r == Ran(m, None)
    ensures r.model.overlay != m.overlay ==> r.model.overlay.Some? && r.model.overlay.value.displayed && r.model.state == Visible
    ensures Consistent(m) ==> Consistent(r.model)
  {
    if m.state == Dismissed || m.overlay.Some? then Ran(m, None)
    else match Locator.Extracted(page.scripts, page.html)
      case None => Ran(m, None)
      case Some(enc) =>
        var b := Build(script, host, m.settings, m.translator, Decoded(script, host, enc));
        Ran(if b.panel.None? then m else ShowStep(m.(overlay := b.panel)), b.copied)
  }

  /** One run past the guards, with the payload found. */
  lemma RunFound(script: Script, host: Host, m: Model, page: Page, enc: string)
    requires m.state != Dismissed && m.overlay.None?
    requires Locator.Extracted(page.scripts, page.html) == Some(enc)
    ensures var b := Build(script, host, m.settings, m.translator, Decoded(script, host, enc));
            RunStep(script, host, m, page) == Ran(if b.panel.None? then m else ShowStep(m.(overlay := b.panel)), b.copied)
  {
  }

  /** When the decoding builds an overlay, the run ends with it present, displayed and visible. */
  lemma RunShows(script: Script, host: Host, m: Model, page: Page, enc: string)
    requires m.state != Dismissed && m.overlay.None?
    requires Locator.Extracted(page.scripts, page.html) == Some(enc)
    requires Build(script, host, m.settings, m.translator, Decoded(script, host, enc)).panel.Some?
    ensures var r := RunStep(script, host, m, page).model;
            r.overlay.Some? && r.overlay.value.displayed && r.state == Visible
  {
  }

  /** src/content.ts builds an overlay even when the decoding fails: an empty address, showing the "no address" text. */
  lemma CurrentBuildsOnFailedDecode(host: Host, settings: Settings, tr: Translator, decoded: Json)
    requires !Truthy(decoded)
    ensures var b := Build(Current, host, settings, tr, decoded);
            b.panel.Some? && b.panel.value.line == Translate(host, tr, "uiNoAddress") && b.panel.value.copyText == ""
  {
    assert Prepared(Current, decoded) == Some(EmptyAddress);
    assert SanitizeAddress(EmptyAddress) == Some(EmptyAddress);
    AddressLineEmpty(EmptyAddress, Translate(host, tr, "uiNoAddress"));
    assert BuildFrom(Current, host, settings, tr, Some(EmptyAddress)).panel
        == Some(MakePanel(host, settings, tr, EmptyAddress));
  }

  /** content.js builds nothing and copies nothing when the decoding is falsy. */
  lemma LegacyIgnoresFailedDecode(host: Host, settings: Settings, tr: Translator, decoded: Json)
    requires !Truthy(decoded)
    ensures Build(Legacy, host, settings, tr, decoded) == Built(None, None)
  {
  }

  /** A truthy value that is neither a string nor an array: `sanitizeText` throws on it. */
  predicate Unsanitisable(v: Json) {
    Truthy(v) && !v.JString? && !v.JArray?
  }

  /**
   * In src/content.ts a truthy field that is neither a string nor an array
   * (a number, `true`, an object) makes `sanitizeText` throw: no overlay
   * appears, though the auto-copy has already happened.
   */
  lemma UnsanitisableThrows(v: Json)
    requires Unsanitisable(v)
    ensures Sanitizer.SanitizeField(v).None?
  {
  }

  lemma UnsanitisableFieldBuildsNothing(host: Host, settings: Settings, tr: Translator, a: Address)
    requires Unsanitisable(a.strasse) || Unsanitisable(a.hausnummer) || Unsanitisable(a.plz)
             || Unsanitisable(a.ort) || Unsanitisable(a.ortsteil)
    ensures BuildFrom(Current, host, settings, tr, Some(a)).panel.None?
    ensures settings.autoCopy ==> BuildFrom(Current, host, settings, tr, Some(a)).copied == Some(SearchText(a))
  {
    if Unsanitisable(a.strasse) {
      UnsanitisableThrows(a.strasse);
    } else if Unsanitisable(a.hausnummer) {
      UnsanitisableThrows(a.hausnummer);
    } else if Unsanitisable(a.plz) {
      UnsanitisableThrows(a.plz);
    } else if Unsanitisable(a.ort) {
      UnsanitisableThrows(a.ort);
    } else {
      UnsanitisableThrows(a.ortsteil);
    }
    assert SanitizeAddress(a).None?;
  }

  /** For src/content.ts the overlay's line falls back to the "no address" text exactly when every sanitised field is falsy. */
  lemma CurrentNoAddress(host: Host, settings: Settings, tr: Translator, decoded: Json)
    requires Build(Current, host, settings, tr, decoded).panel.Some?
    ensures var a := SanitizeAddress(Prepared(Current, decoded).value).value;
            var p := Build(Current, host, settings, tr, decoded).panel.value;
            (p.copyText == "" <==> AllFalsy(a)) && (AllFalsy(a) ==> p.line == Translate(host, tr, "uiNoAddress"))
  {
    var a := SanitizeAddress(Prepared(Current, decoded).value).value;
    SanitizedTextual(Prepared(Current, decoded).value);
    AddressLineEmpty(a, Translate(host, tr, "uiNoAddress"));
  }

  /** The toggle message; `msgType` is `msg.type`, `None` when there is no message. */
  function MessageStep(script: Script, host: Host, m: Model, msgType: Option<string>, page: Page): (r: Ran)
    ensures msgType != Some("IS24_TOGGLE_OVERLAY") ==> r == Ran(m, None)
    ensures msgType == Some("IS24_TOGGLE_OVERLAY") && m.overlay.Some? ==> r == Ran(ToggleStep(m), None)
    ensures Consistent(m) ==> Consistent(r.model)
  {
    if msgType != Some("IS24_TOGGLE_OVERLAY") then Ran(m, None)
    else
      var ran := if m.overlay.None? then RunStep(script, host, m, page) else Ran(m, None);
      Ran(ToggleStep(ran.model), ran.copied)
  }

  /**
   * A toggle message arriving before any overlay exists builds and shows one,
   * and the toggle that follows at once hides it again.
   */
  lemma MessageBuildsThenHides(script: Script, host: Host, m: Model, page: Page, enc: string)
    requires m.state != Dismissed && m.overlay.None?
    requires Locator.Extracted(page.scripts, page.html) == Some(enc)
    requires Build(script, host, m.settings, m.translator, Decoded(script, host, enc)).panel.Some?
    ensures var r := MessageStep(script, host, m, Some("IS24_TOGGLE_OVERLAY"), page).model;
            r.overlay.Some? && !r.overlay.value.displayed && r.state == Hidden
  {
    RunShows(script, host, m, page, enc);
  }

  /** The toggle message overrides a dismissal. */
  lemma MessageOverridesDismissal(script: Script, host: Host, m: Model, page: Page)
    requires m.state == Dismissed && m.overlay.Some?
    ensures var r := MessageStep(script, host, m, Some("IS24_TOGGLE_OVERLAY"), page).model;
            r.state == Visible && r.overlay.value.displayed
  {
  }

  /** Remove the overlay, then `runDecoderOnce()` unless dismissed. */
  function Rebuild(script: Script, host: Host, m: Model, page: Page): (r: Ran)
    ensures m.state == Dismissed ==> r == Ran(m.(overlay := None), None)
    ensures m.state != Dismissed ==> r == RunStep(script, host, m.(overlay := None), page)
    ensures Consistent(r.model)
  {
    var removed := m.(overlay := None);
    if m.state != Dismissed then RunStep(script, host, removed, page) else Ran(removed, None)
  }

  /** What a storage change does: the new state, the locale whose bundle starts loading, and the auto-copied text. */
  datatype Changed = Changed(model: Model, request: Option<LocaleOverride>, copied: Option<string>)

  /** `storage.onChanged(changes, area)`. */
  function SettingsStep(script: Script, host: Host, m: Model, area: string, changes: SettingsPatch, page: Page): (r: Changed)
    ensures area != "sync" ==> r == Changed(m, None, None)
    ensures area == "sync" ==> r.model.settings == Apply(m.settings, changes)
    ensures r.request.Some? ==> area == "sync" && changes.localeOverride.Some? && r.request.value != Auto
    ensures r.request.Some? ==> r.model == m.(settings := Apply(m.settings, changes))
    // and a sync change to a locale other than "auto" always requests that locale's bundle
    ensures area == "sync" && changes.localeOverride.Some? && Apply(m.settings, changes).localeOverride != Auto ==>
              r.request == Some(Apply(m.settings, changes).localeOverride)
    ensures Consistent(m) ==> Consistent(r.model)
  {
    if area != "sync" then Changed(m, None, None)
    else
      var m1 := m.(settings := Apply(m.settings, changes));
      var locale := m1.settings.localeOverride;
      match script
      case Current =>
        if changes.localeOverride.Some? && locale != Auto then Changed(m1, Some(locale), None)
        else
          var ran := Rebuild(script, host, if changes.localeOverride.Some? then m1.(translator := BrowserMessages) else m1, page);
          Changed(ran.model, None, ran.copied)
      case Legacy =>
        if changes.localeOverride.Some? && locale != Auto then Changed(m1, Some(locale), None)
        else
          var ran := Rebuild(script, host, m1, page);
          Changed(ran.model, None, ran.copied)
  }

  /** A change that does not touch the locale removes the overlay and rebuilds it only when not dismissed. */
  lemma OtherChangeRebuilds(script: Script, host: Host, m: Model, changes: SettingsPatch, page: Page)
    requires changes.localeOverride.None?
    ensures var r := SettingsStep(script, host, m, "sync", changes, page);
            var m1 := m.(settings := Apply(m.settings, changes), overlay := None);
            r.request.None?
            && (m.state == Dismissed ==> r.model == m1 && r.copied.None?)
            && (m.state != Dismissed ==> Ran(r.model, r.copied) == RunStep(script, host, m1, page))
  {
  }

  /** Switching to "auto" resets `t` to the browser's messages in src/content.ts, but leaves it as it was in content.js. */
  lemma AutoLocaleTranslator(host: Host, m: Model, changes: SettingsPatch, page: Page)
    requires changes.localeOverride == Some(Auto)
    ensures SettingsStep(Current, host, m, "sync", changes, page).model.translator == BrowserMessages
    ensures SettingsStep(Legacy, host, m, "sync", changes, page).model.translator == m.translator
  {
  }

  /** A switch to "auto" requests no bundle: it takes the rebuild path, with the translator `AutoLocaleTranslator` gives. */
  lemma AutoLocaleRebuilds(script: Script, host: Host, m: Model, changes: SettingsPatch, page: Page)
    requires changes.localeOverride == Some(Auto)
    ensures var r := SettingsStep(script, host, m, "sync", changes, page);
            var t := if script == Current then BrowserMessages else m.translator;
            r.request.None?
            && Ran(r.model, r.copied) == Rebuild(script, host, m.(settings := Apply(m.settings, changes), translator := t), page)
  {
  }

  /** The locale bundle requested by a storage change has arrived (`None`: it loaded as null). */
  function BundleStep(script: Script, host: Host, m: Model, bundle: Option<map<string, string>>, page: Page): (r: Ran)
    ensures script == Legacy && bundle.None? ==> r == Ran(m, None)
    ensures script == Current && bundle.None? ==> r.model.translator == BrowserMessages
    ensures bundle.Some? ==> r.model.translator == Bundle(bundle.value)
    // a loaded bundle (and, in src/content.ts, a null one) removes the overlay and rebuilds it unless dismissed
    ensures script == Current || bundle.Some? ==>
              r == Rebuild(script, host, m.(translator := if bundle.None? then BrowserMessages else Bundle(bundle.value)), page)
    ensures Consistent(m) ==> Consistent(r.model)
  {
    match script
    case Current =>
      Rebuild(script, host, m.(translator := if bundle.None? then BrowserMessages else Bundle(bundle.value)), page)
    case Legacy =>
      if bundle.None? then Ran(m, None) else Rebuild(script, host, m.(translator := Bundle(bundle.value)), page)
  }

  /** The script's state as fields, one method per event. */
  class Controller {
    const script: Script
    const host: Host
    var settings: Settings
    var translator: Translator
    var overlay: Option<Panel>
    var state: OverlayState
    var lastUrl: string

    function Snapshot(): Model
      reads this
    {
      Model(settings, translator, overlay, state, lastUrl)
    }

    predicate Valid()
      reads this
    {
      Consistent(Snapshot())
    }

    /** Start-up: settings loaded (`None`: storage threw), the initial bundle, and the page's URL. */
    constructor(script: Script, host: Host, stored: Option<SettingsPatch>, bundle: Option<map<string, string>>, href: string)
      ensures this.script == script && this.host == host
      ensures Snapshot() == Model(SettingsService.LoadSettings(stored),
                                                 InitialTranslator(SettingsService.LoadSettings(stored), bundle),
                                                 None, Hidden, href)
      ensures Valid()
    {
      this.script := script;
      this.host := host;
      var loaded := SettingsService.LoadSettings(stored);
      settings := loaded;
      translator := if loaded.localeOverride != Auto && bundle.Some? then Bundle(bundle.value) else BrowserMessages;
      overlay := None;
      state := Hidden;
      lastUrl := href;
    }

    method Show()
      modifies this
      ensures Snapshot() == ShowStep(old(Snapshot()))
    {
      if overlay.None? {
        return;
      }
      overlay := Some(overlay.value.(displayed := true));
      state := Visible;
    }

    method Hide()
      modifies this
      ensures Snapshot() == HideStep(old(Snapshot()))
    {
      if overlay.None? {
        return;
      }
      overlay := Some(overlay.value.(displayed := false));
      state := if state == Dismissed then Dismissed else Hidden;
    }

    method Toggle()
      modifies this
      ensures Snapshot() == ToggleStep(old(Snapshot()))
    {
      if overlay.None? {
        return;
      }
      if state == Visible {
        Hide();
        return;
      }
      state := Hidden;
      Show();
    }

    /** The close button's click handler. */
    method CloseClicked()
      modifies this
      ensures Snapshot() == CloseStep(old(Snapshot()))
      ensures Valid()
    {
      state := Dismissed;
      Hide();
    }

    /** One tick of the URL poll at the current `href`; `scheduled` when a decoder run is queued. */
    method UrlTick(href: string) returns (scheduled: bool)
      modifies this
      ensures (Snapshot(), scheduled) == UrlStep(old(Snapshot()), href)
      ensures old(Valid()) ==> Valid()
    {
      if href == lastUrl {
        return false;
      }
      lastUrl := href;
      state := Hidden;
      if overlay.Some? {
        overlay := None;
      }
      scheduled := true;
    }

    /** The mutation observer's callback; `scheduled` when a decoder run is queued. */
    method Mutation() returns (scheduled: bool)
      ensures scheduled == MutationSchedules(Snapshot())
    {
      if state == Dismissed {
        return false;
      }
      if overlay.Some? {
        return false;
      }
      scheduled := true;
    }

    method RunDecoderOnce(page: Page) returns (copied: Option<string>)
      modifies this
      ensures Ran(Snapshot(), copied) == RunStep(script, host, old(Snapshot()), page)
      ensures old(Valid()) ==> Valid()
    {
      copied := None;
      if state == Dismissed {
        return;
      }
      if overlay.Some? {
        return;
      }
      var enc := Locator.ExtractEncodedFromScripts(page.scripts, page.html);
      if enc.None? {
        return;
      }
      RunFound(script, host, Snapshot(), page, enc.value);
      var b := Build(script, host, settings, translator, Decoded(script, host, enc.value));
      copied := b.copied;
      Present(b.panel);
    }

    /** The end of `runDecoderOnce`: `createOverlay` stores the element (unless it threw), then `showOverlay()`. */
    method Present(panel: Option<Panel>)
      modifies this
      ensures Snapshot() == if panel.None? then old(Snapshot()) else ShowStep(old(Snapshot()).(overlay := panel))
    {
      if panel.None? {
        return;
      }
      overlay := panel;
      Show();
    }

    /** The runtime message listener. */
    method Message(msgType: Option<string>, page: Page) returns (copied: Option<string>)
      modifies this
      ensures Ran(Snapshot(), copied) == MessageStep(script, host, old(Snapshot()), msgType, page)
      ensures old(Valid()) ==> Valid()
    {
      copied := None;
      if msgType != Some("IS24_TOGGLE_OVERLAY") {
        return;
      }
      if overlay.None? {
        copied := RunDecoderOnce(page);
      }
      Toggle();
    }

    /** Remove the overlay, then rebuild unless dismissed. */
    method RemoveAndRebuild(page: Page) returns (copied: Option<string>)
      modifies this
      ensures Ran(Snapshot(), copied) == Rebuild(script, host, old(Snapshot()), page)
    {
      copied := None;
      if overlay.Some? {
        overlay := None;
      }
      if state != Dismissed {
        copied := RunDecoderOnce(page);
      }
    }

    /** The storage listener; `request` is the locale whose bundle starts loading. */
    method StorageChanged(area: string, changes: SettingsPatch, page: Page) returns (request: Option<LocaleOverride>, copied: Option<string>)
      modifies this
      ensures Changed(Snapshot(), request, copied) == SettingsStep(script, host, old(Snapshot()), area, changes, page)
      ensures old(Valid()) ==> Valid()
    {
      request, copied := None, None;
      if area != "sync" {
        return;
      }
      settings := Apply(settings, changes);
      if changes.localeOverride.Some? && settings.localeOverride != Auto {
        request := Some(settings.localeOverride);
        return;
      }
      if script == Current && changes.localeOverride.Some? {
        translator := BrowserMessages;
      }
      copied := RemoveAndRebuild(page);
    }

    /** The continuation of a bundle load started by `StorageChanged`. */
    method LocaleBundleLoaded(bundle: Option<map<string, string>>, page: Page) returns (copied: Option<string>)
      modifies this
      ensures Ran(Snapshot(), copied) == BundleStep(script, host, old(Snapshot()), bundle, page)
      ensures old(Valid()) ==> Valid()
    {
      copied := None;
      if bundle.None? {
        if script == Legacy {
          return;
        }
        translator := BrowserMessages;
      } else {
        translator := Bundle(bundle.value);
      }
      copied := RemoveAndRebuild(page);
    }
  }
}
