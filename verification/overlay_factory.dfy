/**
 * The string-level rules of the overlay: the palette chosen by the theme, the
 * inset chosen by the position, the declarations of the base style
 * (`OverlayThemeFactory`, `OverlayStyleFactory` in
 * src/factories/overlay-factory.ts and `overlayBaseStyle`/`ghostStyle` in
 * src/content.ts), and `AddressFormatter.format`. Theme and position are taken
 * as the strings the stored settings hold.
 */
module OverlayFactory {
  import opened JsValues
  import opened AddressModel

  datatype Palette = Palette(bg: string, fg: string, border: string, shadow: string)

  const LightPalette := Palette("#ffffff", "#111827", "rgba(0,0,0,.1)", "rgba(0,0,0,.15)")
  const DarkPalette := Palette("#111827", "#ffffff", "rgba(255,255,255,.08)", "rgba(0,0,0,.25)")

  /** `OverlayThemeFactory.createTheme(theme)`: light only for "light". */
  function CreateTheme(theme: string): (r: Palette)
    ensures r == LightPalette <==> theme == "light"
    ensures r == DarkPalette <==> theme != "light"
  {
    if theme == "light" then LightPalette else DarkPalette
  }

  /** One `property: value;` of an inline style. */
  datatype Declaration = Declaration(property: string, value: string)

  /** `POSITION_MAP` / `insetMap`: the `inset` value of each corner. */
  const PositionMap: map<string, string> := map[
    "bottom-right" := "auto 16px 16px auto",
    "bottom-left" := "auto auto 16px 16px",
    "top-right" := "16px 16px auto auto",
    "top-left" := "16px auto auto 16px"
  ]

  /** `POSITION_MAP[position] || POSITION_MAP['bottom-right']`; every entry is non-empty, so only a missing key falls back. */
  function PositionInset(position: string): (r: string)
    ensures position in PositionMap ==> r == PositionMap[position]
    ensures position !in PositionMap ==> r == PositionMap["bottom-right"]
  {
    if position in PositionMap && PositionMap[position] != "" then PositionMap[position]
    else PositionMap["bottom-right"]
  }

  const FontStack := "13px/1.35 system-ui,-apple-system,Segoe UI,Roboto,Ubuntu,sans-serif"

  /** The declarations of `createBaseStyle(theme, position)` / `overlayBaseStyle`, in order. */
  function BaseStyle(theme: string, position: string): (r: seq<Declaration>)
    ensures |r| > 0 && r[|r| - 1] == Declaration("display", "none")
    ensures Declaration("inset", PositionInset(position)) in r
    ensures Declaration("background", CreateTheme(theme).bg) in r
    ensures Declaration("color", CreateTheme(theme).fg) in r
  {
    var palette := CreateTheme(theme);
    [ Declaration("position", "fixed"),
      Declaration("inset", PositionInset(position)),
      Declaration("z-index", "2147483647"),
      Declaration("background", palette.bg),
      Declaration("color", palette.fg),
      Declaration("font", FontStack),
      Declaration("border-radius", "12px"),
      Declaration("box-shadow", "0 8px 24px " + palette.shadow),
      Declaration("padding", "12px 14px"),
      Declaration("min-width", "280px"),
      Declaration("max-width", "360px"),
      Declaration("border", "1px solid " + palette.border),
      Declaration("display", "none") ]
  }

  /** The border and text colours of a ghost button. */
  datatype GhostColours = GhostColours(border: string, text: string)

  /** `createGhostButtonStyle(theme)` / `ghostStyle(theme)`: the light colours only for "light". */
  function Ghost(theme: string): (r: GhostColours)
    ensures r == GhostColours("rgba(17,24,39,.2)", "#111827") <==> theme == "light"
    ensures r == GhostColours("rgba(255,255,255,.2)", "#fff") <==> theme != "light"
  {
    GhostColours(if theme == "light" then "rgba(17,24,39,.2)" else "rgba(255,255,255,.2)",
                 if theme == "light" then "#111827" else "#fff")
  }

  /** Ghost buttons and the panel pick their variant by the same rule. */
  lemma GhostFollowsTheme(theme: string)
    ensures (CreateTheme(theme) == LightPalette) == (Ghost(theme).text == "#111827")
  {
  }

  /** Up to three lines, each present or not, in order. */
  function Layout(s: string, hasS: bool, p: string, hasP: bool, d: string, hasD: bool): seq<string> {
    (if hasS then [s] else []) + (if hasP then [p] else []) + (if hasD then [d] else [])
  }

  /** The lines `AddressFormatter.format` pushes, in order. */
  function Lines(a: Address): seq<string> {
    Layout(StreetLine(a), HasStreet(a), TownLine(a), HasTown(a), DistrictLine(a), Truthy(a.ortsteil))
  }

  /** `AddressFormatter.format(address)`: conditional pushes, then `parts.join('\n')`. */
  method Format(a: Address) returns (r: string)
    ensures r == Join(Lines(a), "\n")
  {
    var parts: seq<string> := [];
    if Truthy(a.strasse) || Truthy(a.hausnummer) {
      parts := parts + [JoinTruthy([a.strasse, a.hausnummer], " ")];
    }
    assert parts == if HasStreet(a) then [StreetLine(a)] else [];
    if Truthy(a.plz) || Truthy(a.ort) {
      parts := parts + [JoinTruthy([a.plz, a.ort], " ")];
    }
    assert parts == (if HasStreet(a) then [StreetLine(a)] else []) + (if HasTown(a) then [TownLine(a)] else []);
    if Truthy(a.ortsteil) {
      parts := parts + ["(" + ToString(a.ortsteil) + ")"];
    }
    assert parts == Lines(a);
    r := Join(parts, "\n");
  }

  lemma {:induction false} JoinAppend(parts: seq<string>, x: string, sep: string)
    ensures Join(parts + [x], sep) == if parts == [] then x else Join(parts, sep) + sep + x
  {
    if |parts| > 1 {
      assert (parts + [x])[1..] == parts[1..] + [x];
      JoinAppend(parts[1..], x, sep);
    } else if |parts| == 1 {
      assert (parts + [x])[1..] == [x];
    }
  }

  /** A joined text holds a character only if the separator or one of the parts does. */
  lemma {:induction false} JoinAvoids(parts: seq<string>, sep: string, c: char)
    requires c !in sep
    requires forall i :: 0 <= i < |parts| ==> c !in parts[i]
    ensures c !in Join(parts, sep)
  {
    if |parts| > 1 {
      JoinAvoids(parts[1..], sep, c);
    }
  }

  /** A joined list of non-empty parts begins with the first part's first character. */
  lemma JoinFirstChar(parts: seq<string>, sep: string)
    requires parts != [] && parts[0] != ""
    ensures Join(parts, sep) != "" && Join(parts, sep)[0] == parts[0][0]
  {
    if |parts| > 1 {
      assert Join(parts, sep) == parts[0] + (sep + Join(parts[1..], sep));
    }
  }

  /** The street and town lines are non-empty exactly when present, for text-bearing fields. */
  lemma PresentLines(a: Address)
    requires AllTextual(a)
    ensures StreetLine(a) != "" <==> HasStreet(a)
    ensures TownLine(a) != "" <==> HasTown(a)
  {
    JoinTruthyEmpty([a.strasse, a.hausnummer], " ");
    JoinTruthyEmpty([a.plz, a.ort], " ");
  }

  lemma LayoutLines(s: string, hasS: bool, p: string, hasP: bool, d: string, hasD: bool)
    requires (hasS ==> s != "") && (hasP ==> p != "") && (hasD ==> d != "")
    ensures |Layout(s, hasS, p, hasP, d, hasD)| <= 3
    ensures forall i :: 0 <= i < |Layout(s, hasS, p, hasP, d, hasD)| ==> Layout(s, hasS, p, hasP, d, hasD)[i] != ""
    ensures Join(Layout(s, hasS, p, hasP, d, hasD), "\n") == "" <==> !hasS && !hasP && !hasD
  {
    if hasS || hasP || hasD {
      JoinFirstChar(Layout(s, hasS, p, hasP, d, hasD), "\n");
    }
  }

  /** With text-bearing fields every line is non-empty, there are at most three, and the result is empty exactly when every field is falsy. */
  lemma FormatLines(a: Address)
    requires AllTextual(a)
    ensures |Lines(a)| <= 3
    ensures forall i :: 0 <= i < |Lines(a)| ==> Lines(a)[i] != ""
    ensures Join(Lines(a), "\n") == "" <==> AllFalsy(a)
  {
    PresentLines(a);
    LayoutLines(StreetLine(a), HasStreet(a), TownLine(a), HasTown(a), DistrictLine(a), Truthy(a.ortsteil));
  }

  predicate NoNewline(v: Json) {
    '\n' !in ToString(v)
  }

  /** `filter(Boolean).join(' ')` of values without a newline has none. */
  lemma JoinTruthyNoNewline(values: seq<Json>)
    requires forall i :: 0 <= i < |values| ==> NoNewline(values[i])
    ensures '\n' !in JoinTruthy(values, " ")
  {
    var tv := TruthyValues(values);
    forall i | 0 <= i < |tv|
      ensures '\n' !in Texts(tv)[i]
    {
      assert tv[i] in values;
      var k :| 0 <= k < |values| && values[k] == tv[i];
      assert NoNewline(values[k]);
    }
    JoinAvoids(Texts(tv), " ", '\n');
  }

  /** Lines that neither start nor end with a newline, joined by newlines, give a text that does not either. */
  lemma JoinOuterChars(lines: seq<string>)
    requires forall i :: 0 <= i < |lines| ==> lines[i] != "" && lines[i][0] != '\n' && lines[i][|lines[i]| - 1] != '\n'
    ensures var r := Join(lines, "\n"); r == "" || (r[0] != '\n' && r[|r| - 1] != '\n')
  {
    if lines != [] {
      JoinFirstChar(lines, "\n");
      var last := lines[|lines| - 1];
      assert lines == lines[..|lines| - 1] + [last];
      JoinAppend(lines[..|lines| - 1], last, "\n");
    }
  }

  /** A text without a newline, if non-empty, neither starts nor ends with one. */
  lemma NoNewlineEnds(s: string)
    requires '\n' !in s && s != ""
    ensures s[0] != '\n' && s[|s| - 1] != '\n'
  {
    assert s[0] in s && s[|s| - 1] in s;
  }

  lemma LayoutOuterChars(s: string, hasS: bool, p: string, hasP: bool, d: string, hasD: bool)
    requires hasS ==> s != "" && s[0] != '\n' && s[|s| - 1] != '\n'
    requires hasP ==> p != "" && p[0] != '\n' && p[|p| - 1] != '\n'
    requires hasD ==> d != "" && d[0] != '\n' && d[|d| - 1] != '\n'
    ensures var r := Join(Layout(s, hasS, p, hasP, d, hasD), "\n"); r == "" || (r[0] != '\n' && r[|r| - 1] != '\n')
  {
    JoinOuterChars(Layout(s, hasS, p, hasP, d, hasD));
  }

  /** When neither the street nor the town fields hold a newline, the formatted address neither starts nor ends with one. */
  lemma FormatNoOuterNewline(a: Address)
    requires AllTextual(a)
    requires NoNewline(a.strasse) && NoNewline(a.hausnummer) && NoNewline(a.plz) && NoNewline(a.ort)
    ensures var r := Join(Lines(a), "\n"); r == "" || (r[0] != '\n' && r[|r| - 1] != '\n')
  {
    var s := StreetLine(a);
    var p := TownLine(a);
    var d := DistrictLine(a);
    PresentLines(a);
    JoinTruthyNoNewline([a.strasse, a.hausnummer]);
    JoinTruthyNoNewline([a.plz, a.ort]);
    if s != "" { NoNewlineEnds(s); }
    if p != "" { NoNewlineEnds(p); }
    assert d[0] == '(' && d[|d| - 1] == ')';
    LayoutOuterChars(s, HasStreet(a), p, HasTown(a), d, Truthy(a.ortsteil));
  }

  /** The two line layouts, on plain strings: the optional first line `s`, then `p` and `d` when present. */
  lemma LayoutsAgree(s: string, p: string, hasP: bool, d: string, hasD: bool)
    requires hasP ==> p != ""
    requires hasD ==> d != ""
    ensures var f := Join(Layout(s, s != "", p, hasP, d, hasD), "\n");
            s + (if hasP then "\n" + p else "") + (if hasD then "\n" + d else "")
              == if s == "" && f != "" then "\n" + f else f
  {
    var first := if s != "" then [s] else [];
    var town := if hasP then [p] else [];
    if hasP {
      JoinAppend(first, p, "\n");
    }
    if hasD {
      JoinAppend(first + town, d, "\n");
      if first + town != [] {
        JoinFirstChar(first + town, "\n");
      }
    }
  }

  /**
   * The overlay's own address line (src/content.ts, content.js) and
   * `AddressFormatter.format` agree except that the former starts with a
   * newline when there is no street line but a later one.
   */
  lemma AddressLineVersusFormat(a: Address)
    requires AllTextual(a)
    ensures var f := Join(Lines(a), "\n");
            AddressLine(a) == if !HasStreet(a) && f != "" then "\n" + f else f
  {
    PresentLines(a);
    LayoutsAgree(StreetLine(a), TownLine(a), HasTown(a), DistrictLine(a), Truthy(a.ortsteil));
  }
}
