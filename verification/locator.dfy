/**
 * `extractEncodedFromScripts` (identical in src/content.ts and content.js): the
 * first match of `/"obj_telekomInternetUrlAddition"\s*:\s*"([^"]+)"/` in the
 * page's scripts, in document order, and only then in the document's HTML.
 */
module Locator {
  import opened Wrappers
  import opened JsValues

  const Marker: string := "\"obj_telekomInternetUrlAddition\""

  /** A match of the expression: the captured value and the index just past the closing quote. */
  datatype Match = Match(value: string, end: nat)

  /** The first index at or after `j` that does not hold whitespace (`\s*` is greedy and cannot give back). */
  function SkipSpace(t: string, j: nat): (r: nat)
    requires j <= |t|
    decreases |t| - j
    ensures j <= r <= |t|
    ensures r < |t| ==> !IsJsWhitespace(t[r])
    ensures forall k :: j <= k < r ==> IsJsWhitespace(t[k])
  {
    if j == |t| || !IsJsWhitespace(t[j]) then j else SkipSpace(t, j + 1)
  }

  /** The first index at or after `j` that holds '"', or the end of the text. */
  function QuoteEnd(t: string, j: nat): (r: nat)
    requires j <= |t|
    decreases |t| - j
    ensures j <= r <= |t|
    ensures r < |t| ==> t[r] == '"'
    ensures forall k :: j <= k < r ==> t[k] != '"'
  {
    if j == |t| || t[j] == '"' then j else QuoteEnd(t, j + 1)
  }

  /**
   * Whether the expression matches starting at index `i`, and the match. `[^"]+`
   * takes the whole run of non-quote characters and needs a quote after it;
   * a shorter run would be followed by a non-quote, so backtracking finds nothing else.
   */
  function MatchAt(t: string, i: nat): (r: Option<Match>)
    requires i <= |t|
    ensures r.Some? ==> r.value.value != "" && '"' !in r.value.value && i < r.value.end <= |t|
  {
    if i + |Marker| <= |t| && t[i..i + |Marker|] == Marker then
      var j := SkipSpace(t, i + |Marker|);
      if j < |t| && t[j] == ':' then
        var k := SkipSpace(t, j + 1);
        if k < |t| && t[k] == '"' then
          var e := QuoteEnd(t, k + 1);
          if k + 1 < e < |t| then Some(Match(t[k + 1..e], e + 1)) else None
        else None
      else None
    else None
  }

  /** The result of `MatchAt` at every index of `t`, the end included. */
  function Candidates(t: string): (ms: seq<Option<Match>>)
    ensures |ms| == |t| + 1
    ensures forall p :: 0 <= p <= |t| ==> ms[p] == MatchAt(t, p)
  {
    seq(|t| + 1, p requires 0 <= p <= |t| => MatchAt(t, p))
  }

  /** The first present entry of `ms` at or after `i`. */
  function FirstFound(ms: seq<Option<Match>>, i: nat): (r: Option<Match>)
    requires i <= |ms|
    decreases |ms| - i
    ensures r.None? <==> forall p :: i <= p < |ms| ==> ms[p].None?
    ensures r.Some? ==> exists p :: i <= p < |ms| && ms[p] == r && forall q :: i <= q < p ==> ms[q].None?
  {
    if i == |ms| then None
    else if ms[i].Some? then ms[i]
    else FirstFound(ms, i + 1)
  }

  /** The leftmost match starting at or after `i`: what `exec` finds with `lastIndex == i`. */
  function FirstMatchFrom(t: string, i: nat): (r: Option<Match>)
    requires i <= |t|
    ensures r.None? <==> forall p :: i <= p <= |t| ==> MatchAt(t, p).None?
    ensures r.Some? ==> exists p :: i <= p <= |t| && MatchAt(t, p) == r && forall q :: i <= q < p ==> MatchAt(t, q).None?
  {
    FirstFound(Candidates(t), i)
  }

  /** The captured value of the leftmost match in `t` (`t.match(re)?.[1]`). */
  function FirstMatch(t: string): (r: Option<string>)
    ensures r.None? <==> forall p :: 0 <= p <= |t| ==> MatchAt(t, p).None?
    ensures r.Some? ==> r.value != "" && '"' !in r.value
  {
    match FirstMatchFrom(t, 0)
    case None => None
    case Some(m) => Some(m.value)
  }

  /** The first present entry of `found`, or `fallback` when none is. */
  function FirstSome(found: seq<Option<string>>, fallback: Option<string>): (r: Option<string>)
    ensures r == fallback || r in found
    ensures (forall k :: 0 <= k < |found| ==> found[k].None?) ==> r == fallback
  {
    if found == [] then fallback
    else if found[0].Some? then found[0]
    else FirstSome(found[1..], fallback)
  }

  /** The leftmost match of each script. */
  function ScriptMatches(scripts: seq<string>): (r: seq<Option<string>>)
    ensures |r| == |scripts|
    ensures forall k :: 0 <= k < |scripts| ==> r[k] == FirstMatch(scripts[k])
  {
    if scripts == [] then [] else [FirstMatch(scripts[0])] + ScriptMatches(scripts[1..])
  }

  /** What the extraction returns: the first script with a match, else the HTML. */
  function Extracted(scripts: seq<string>, html: string): (r: Option<string>)
    ensures r.Some? ==> r.value != "" && '"' !in r.value
  {
    var r := FirstSome(ScriptMatches(scripts), FirstMatch(html));
    assert r.Some? && r != FirstMatch(html) ==> exists k :: 0 <= k < |scripts| && r == FirstMatch(scripts[k]);
    r
  }

  /**
   * `extractEncodedFromScripts()`, with `scripts` the `textContent` of the
   * page's scripts in document order and `html` the document's markup. The
   * expression object is global and shared across scripts, and `exec` resumes
   * at its `lastIndex`; but the `[^"]+` capture is never empty, so the first
   * match in a script returns, and a failed `exec` resets `lastIndex` to 0.
   * Every script is therefore searched from its start.
   */
  method ExtractEncodedFromScripts(scripts: seq<string>, html: string) returns (r: Option<string>)
    ensures r == Extracted(scripts, html)
  {
    ghost var found := ScriptMatches(scripts);
    for n := 0 to |scripts|
      invariant FirstSome(found, FirstMatch(html)) == FirstSome(found[n..], FirstMatch(html))
    {
      var t := scripts[n];
      assert found[n..][1..] == found[n + 1..];
      var m := FirstMatch(t);
      if m.Some? {
        return m;
      }
    }
    assert found[|scripts|..] == [];
    return FirstMatch(html);
  }

  lemma {:induction false} FirstSomeAt(found: seq<Option<string>>, fallback: Option<string>, n: nat)
    requires n < |found| && found[n].Some?
    requires forall k :: 0 <= k < n ==> found[k].None?
    ensures FirstSome(found, fallback) == found[n]
  {
    if n > 0 {
      FirstSomeAt(found[1..], fallback, n - 1);
    }
  }

  /** The result comes from the first script, in document order, that holds a match. */
  lemma FirstMatchingScript(scripts: seq<string>, html: string, n: nat)
    requires n < |scripts| && FirstMatch(scripts[n]).Some?
    requires forall k :: 0 <= k < n ==> FirstMatch(scripts[k]).None?
    ensures Extracted(scripts, html) == FirstMatch(scripts[n])
  {
    FirstSomeAt(ScriptMatches(scripts), FirstMatch(html), n);
  }

  lemma {:induction false} FirstSomeIgnoresFallback(found: seq<Option<string>>, a: Option<string>, b: Option<string>)
    requires exists k :: 0 <= k < |found| && found[k].Some?
    ensures FirstSome(found, a) == FirstSome(found, b)
  {
    if found[0].None? {
      var k :| 0 <= k < |found| && found[k].Some?;
      assert found[1..][k - 1] == found[k];
      FirstSomeIgnoresFallback(found[1..], a, b);
    }
  }

  /** The document's HTML is consulted only when no script holds a match. */
  lemma HtmlOnlyAsLastResort(scripts: seq<string>, html: string, other: string)
    ensures (forall k :: 0 <= k < |scripts| ==> FirstMatch(scripts[k]).None?) ==> Extracted(scripts, html) == FirstMatch(html)
    ensures (exists k :: 0 <= k < |scripts| && FirstMatch(scripts[k]).Some?) ==> Extracted(scripts, html) == Extracted(scripts, other)
  {
    var found := ScriptMatches(scripts);
    if exists k :: 0 <= k < |scripts| && FirstMatch(scripts[k]).Some? {
      var k :| 0 <= k < |scripts| && FirstMatch(scripts[k]).Some?;
      assert found[k].Some?;
      FirstSomeIgnoresFallback(found, FirstMatch(html), FirstMatch(other));
    }
  }

  /** A marker followed by a quoted value is found, with exactly that value. */
  lemma MatchesMarker(before: string, value: string, after: string)
    requires value != "" && '"' !in value
    ensures MatchAt(before + Marker + ":\"" + value + "\"" + after, |before|).Some?
    ensures MatchAt(before + Marker + ":\"" + value + "\"" + after, |before|).value.value == value
  {
    var t := before + Marker + ":\"" + value + "\"" + after;
    var i := |before|;
    var k := i + |Marker| + 1;
    assert t[i..i + |Marker|] == Marker;
    assert t[i + |Marker|] == ':';
    assert t[k] == '"';
    assert t[k + 1..k + 1 + |value|] == value;
    assert t[k + 1 + |value|] == '"';
    MatchesLaidOut(t, i, value);
  }

  /** The match at `i` when the marker, a colon, and a quoted value follow one another there directly. */
  lemma MatchesLaidOut(t: string, i: nat, value: string)
    requires value != "" && '"' !in value
    requires i + |Marker| + 2 + |value| < |t|
    requires t[i..i + |Marker|] == Marker && t[i + |Marker|] == ':' && t[i + |Marker| + 1] == '"'
    requires t[i + |Marker| + 2..i + |Marker| + 2 + |value|] == value && t[i + |Marker| + 2 + |value|] == '"'
    ensures MatchAt(t, i) == Some(Match(value, i + |Marker| + 3 + |value|))
  {
    var k := i + |Marker| + 1;
    assert SkipSpace(t, i + |Marker|) == i + |Marker|;
    assert SkipSpace(t, k) == k;
    forall q | k + 1 <= q < k + 1 + |value|
      ensures t[q] != '"'
    {
      assert t[q] == t[k + 1..k + 1 + |value|][q - k - 1];
      assert t[q] in value;
    }
    QuoteEndAt(t, k + 1, k + 1 + |value|);
  }

  lemma QuoteEndAt(t: string, j: nat, e: nat)
    requires j <= e < |t| && t[e] == '"'
    requires forall q :: j <= q < e ==> t[q] != '"'
    ensures QuoteEnd(t, j) == e
    decreases e - j
  {
    if j < e {
      QuoteEndAt(t, j + 1, e);
    }
  }
}
