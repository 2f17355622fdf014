/** What both path extractors share (indexers/movies.py:54-77,
    indexers/series.py:54-81): splitting the path after the category
    marker, the last 4-digit segment as the year, and the clean-up of the
    segment after it, in which dots become spaces, the release indicators
    are removed one after the other, then the year itself, with a `strip()`
    after each step. */
module Names {
  import opened Wrappers
  import opened PyStr

  /** The path parts after the first `marker`: `url.split(marker)[1].split('/')`,
      or `None` when `url` has no `marker`. */
  function PathParts(url: string, marker: string): Option<seq<string>>
    requires |marker| > 0
  {
    var parts := Split(url, marker);
    if |parts| < 2 then None else Some(Split(parts[1], "/"))
  }

  /** `part.isdigit() and len(part) == 4`: a path segment read as a year. */
  predicate IsYear(part: string) {
    |part| == 4 && IsDigits(part)
  }

  /** The position of the last year segment among the first `n` parts. */
  function LastYearBefore(parts: seq<string>, n: nat): (r: Option<nat>)
    requires n <= |parts|
    ensures r.Some? ==> r.value < n && IsYear(parts[r.value]) &&
                        forall j :: r.value < j < n ==> !IsYear(parts[j])
    ensures r.None? <==> forall j :: 0 <= j < n ==> !IsYear(parts[j])
  {
    if n == 0 then None
    else if IsYear(parts[n - 1]) then Some(n - 1)
    else LastYearBefore(parts, n - 1)
  }

  /** The year part at `r`, or "" when there is none. */
  function YearAt(parts: seq<string>, r: Option<nat>): string
    requires r.Some? ==> r.value < |parts|
  {
    match r
    case None => ""
    case Some(i) => parts[i]
  }

  /** The cleaned part after the year part at `r`, or "" when there is none. */
  function NameAfter(parts: seq<string>, r: Option<nat>): (name: string)
    requires r.Some? ==> r.value + 1 < |parts| && IsYear(parts[r.value])
    ensures '.' !in name && Stripped(name)
  {
    match r
    case None => ""
    case Some(i) => CleanName(parts[i + 1], parts[i])
  }

  /** How many of the first `n` parts have a successor part. */
  function Followed(parts: seq<string>, n: nat): (m: nat)
    requires n <= |parts|
    ensures m <= n && (m < |parts| || m == 0)
  {
    if n == |parts| && n > 0 then n - 1 else n
  }

  /** The year both path extractors find: the LAST 4-digit part, since their
      loops never break, or "" when there is none. */
  function PathYear(parts: seq<string>): string {
    YearAt(parts, LastYearBefore(parts, |parts|))
  }

  /** The name both path extractors find: the cleaned part after the last
      4-digit part that has a successor (a year in the final part changes the
      year but not the name), or "" when there is none. */
  function PathName(parts: seq<string>): (name: string)
    ensures '.' !in name && Stripped(name)
  {
    NameAfter(parts, LastYearBefore(parts, Followed(parts, |parts|)))
  }

  /** The year is "" exactly when no part is a year, and the name is then
      "" too; otherwise the year is a year part with no year part after it. */
  lemma PathYearSpec(parts: seq<string>)
    ensures PathYear(parts) == "" <==> forall j :: 0 <= j < |parts| ==> !IsYear(parts[j])
    ensures PathYear(parts) == "" ==> PathName(parts) == ""
    ensures PathYear(parts) != "" ==>
              exists i :: 0 <= i < |parts| && parts[i] == PathYear(parts) && IsYear(parts[i]) &&
                          forall j :: i < j < |parts| ==> !IsYear(parts[j])
  {
    var r := LastYearBefore(parts, |parts|);
    if r.Some? {
      assert parts[r.value] != "";
    }
  }

  /** The resolution tags among the release indicators. */
  const Resolutions: seq<string> := ["1080p", "720p", "2160p", "480p"]

  /** The source and codec tags among the release indicators. */
  const Sources: seq<string> := ["BluRay", "WEB-DL", "HEVC", "x264", "x265",
                                 "WEBRip", "BRRip", "HDTV", "DVDRip"]

  /** The release indicators, in the order they are removed. */
  const Indicators: seq<string> := Resolutions + Sources

  /** No indicator is empty, so each can be passed to `replace`. */
  lemma IndicatorsNonEmpty()
    ensures |Indicators| == 13
    ensures forall i :: 0 <= i < |Indicators| ==> |Indicators[i]| > 0
  {
  }

  /** `name` after `name = name.replace(t, '').strip()` for each `t` of
      `tokens` in turn. */
  function RemoveTokens(name: string, tokens: seq<string>): string
    requires forall i :: 0 <= i < |tokens| ==> |tokens[i]| > 0
  {
    if tokens == [] then name
    else Strip(Replace(RemoveTokens(name, tokens[..|tokens| - 1]), tokens[|tokens| - 1], ""))
  }

  /** Removing tokens from a stripped name without dots gives a stripped
      name without dots. */
  lemma {:induction false} RemoveTokensClean(name: string, tokens: seq<string>)
    requires forall i :: 0 <= i < |tokens| ==> |tokens[i]| > 0
    requires Stripped(name) && '.' !in name
    ensures Stripped(RemoveTokens(name, tokens)) && '.' !in RemoveTokens(name, tokens)
  {
    if tokens != [] {
      var prev := RemoveTokens(name, tokens[..|tokens| - 1]);
      RemoveTokensClean(name, tokens[..|tokens| - 1]);
      NoDotAfterRemoval(prev, tokens[|tokens| - 1]);
    }
  }

  /** `s.replace(t, '').strip()` has no dot when `s` has none. */
  lemma NoDotAfterRemoval(s: string, t: string)
    requires |t| > 0 && '.' !in s
    ensures '.' !in Strip(Replace(s, t, ""))
  {
    if '.' in Strip(Replace(s, t, "")) {
      StripChars(Replace(s, t, ""), '.');
      ReplaceChars(s, t, "", '.');
    }
  }

  /** The display name extracted from the raw segment `raw` that follows the
      year segment `year`. */
  function CleanName(raw: string, year: string): (name: string)
    requires |year| > 0
    ensures '.' !in name
    ensures Stripped(name)
  {
    var dotless := Strip(Replace(raw, ".", " "));
    assert '.' !in dotless by {
      ReplaceRemovesChar(raw, ".", " ");
      if '.' in dotless {
        StripChars(Replace(raw, ".", " "), '.');
      }
    }
    IndicatorsNonEmpty();
    RemoveTokensClean(dotless, Indicators);
    var n := RemoveTokens(dotless, Indicators);
    if Contains(n, year) then
      NoDotAfterRemoval(n, year);
      Strip(Replace(n, year, ""))
    else n
  }

  /** The indicator loop: `name = name.replace(t, '').strip()` for each
      token `t` in turn. */
  method RemoveEach(start: string, tokens: seq<string>) returns (name: string)
    requires forall i :: 0 <= i < |tokens| ==> |tokens[i]| > 0
    ensures name == RemoveTokens(start, tokens)
  {
    name := start;
    for k := 0 to |tokens|
      invariant name == RemoveTokens(start, tokens[..k])
    {
      assert tokens[..k + 1][..k] == tokens[..k];
      name := Strip(Replace(name, tokens[k], ""));
    }
    assert tokens[..|tokens|] == tokens;
  }

  /** The clean-up steps of the path extractors. */
  method NormalizeName(raw: string, year: string) returns (name: string)
    requires |year| > 0
    ensures name == CleanName(raw, year)
  {
    IndicatorsNonEmpty();
    name := Strip(Replace(raw, ".", " "));
    name := RemoveEach(name, Indicators);
    if Contains(name, year) {
      name := Strip(Replace(name, year, ""));
    }
  }

  /** The year branch of both extraction loops at `parts[i]`: a year
      segment becomes the year and, when a segment follows it, that
      segment's cleaned form becomes the name; so the loop keeps the year
      and the name of the parts seen so far. */
  method YearStep(parts: seq<string>, i: nat, year: string, name: string) returns (year': string, name': string)
    requires i < |parts|
    requires year == YearAt(parts, LastYearBefore(parts, i))
    requires name == NameAfter(parts, LastYearBefore(parts, Followed(parts, i)))
    ensures year' == YearAt(parts, LastYearBefore(parts, i + 1))
    ensures name' == NameAfter(parts, LastYearBefore(parts, Followed(parts, i + 1)))
  {
    year', name' := year, name;
    var part := parts[i];
    if IsDigits(part) && |part| == 4 {
      year' := part;
      if i + 1 < |parts| {
        name' := NormalizeName(parts[i + 1], year');
      }
    }
  }
}
