/** `_extract_quality`, the best-effort quality classifier. Its body is the
    same in indexers/movies.py and indexers/series.py, so both indexers use
    this one module. */
module Quality {
  import opened Wrappers
  import opened PyStr

  /** The `quality_info` dictionary. */
  datatype Quality = Quality(resolution: string, codec: string, source: string, bitDepth: string)

  const Unknown: string := "unknown"

  /** The four ordered token lists, first match wins in each. */
  const Resolutions: seq<string> := ["720p", "1080p", "2160p", "480p", "360p"]
  const Codecs: seq<string> := ["x264", "x265", "HEVC", "AVC", "H264", "H.264", "H265", "H.265"]
  const Sources: seq<string> := ["WEB-DL", "WEBRip", "BRRip", "BluRay", "HDTV", "DVDRip", "NF"]
  const BitDepths: seq<string> := ["8bit", "10bit", "10Bit", "8Bit"]

  /** `f"{url} {filename}".upper()` */
  function SearchText(url: string, filename: string): string {
    Upper(url + " " + filename)
  }

  /** `token.upper() in text` */
  predicate Mentions(text: string, token: string) {
    Contains(text, Upper(token))
  }

  /** The first token of `tokens` that `text` mentions, if any. */
  function FirstMatch(tokens: seq<string>, text: string): Option<string> {
    if tokens == [] then None
    else if Mentions(text, tokens[0]) then Some(tokens[0])
    else FirstMatch(tokens[1..], text)
  }

  /** `FirstMatch` picks a token of the list that the text mentions, and
      finds none exactly when the text mentions no token of the list. */
  lemma {:induction false} FirstMatchSpec(tokens: seq<string>, text: string)
    ensures var r := FirstMatch(tokens, text);
            && (r.Some? ==> r.value in tokens && Mentions(text, r.value))
            && (r.None? <==> forall i :: 0 <= i < |tokens| ==> !Mentions(text, tokens[i]))
  {
    if tokens != [] && !Mentions(text, tokens[0]) {
      FirstMatchSpec(tokens[1..], text);
      assert forall i :: 1 <= i < |tokens| ==> tokens[i] == tokens[1..][i - 1];
    }
  }

  /** The token `FirstMatch` picks is the mentioned token of least index:
      list order decides, not the position in the text. */
  lemma {:induction false} FirstMatchIsFirst(tokens: seq<string>, text: string, i: nat)
    requires i < |tokens| && Mentions(text, tokens[i])
    requires forall j :: 0 <= j < i ==> !Mentions(text, tokens[j])
    ensures FirstMatch(tokens, text) == Some(tokens[i])
  {
    if i > 0 {
      assert !Mentions(text, tokens[0]);
      FirstMatchIsFirst(tokens[1..], text, i - 1);
    }
  }

  /** The classification `_extract_quality(url, filename)` returns. */
  function Classify(url: string, filename: string): Quality {
    var text := SearchText(url, filename);
    var depth := FirstMatch(BitDepths, text);
    Quality(
      resolution := FirstMatch(Resolutions, text).GetOr(Unknown),
      codec := if Contains(text, "HEVC") then "HEVC" else FirstMatch(Codecs, text).GetOr(Unknown),
      source := if Contains(text, "NF.") || Contains(text, ".NF.") then "NF"
                else FirstMatch(Sources, text).GetOr(Unknown),
      bitDepth := if depth.Some? then Lower(depth.value) else Unknown)
  }

  /** Resolution, codec and source are each "unknown" or a token of their
      list. */
  lemma ClassifyRange(url: string, filename: string)
    ensures var q := Classify(url, filename);
            && (q.resolution == Unknown || q.resolution in Resolutions)
            && (q.codec == Unknown || q.codec in Codecs)
            && (q.source == Unknown || q.source in Sources)
  {
    var text := SearchText(url, filename);
    FirstMatchSpec(Resolutions, text);
    FirstMatchSpec(Codecs, text);
    FirstMatchSpec(Sources, text);
    assert "HEVC" in Codecs && "NF" in Sources;
  }

  /** The scan of one ordered list: the first token the text mentions. */
  method FirstMentioned(tokens: seq<string>, text: string) returns (found: Option<string>)
    ensures found == FirstMatch(tokens, text)
  {
    var i := 0;
    while i < |tokens|
      invariant 0 <= i <= |tokens|
      invariant FirstMatch(tokens, text) == FirstMatch(tokens[i..], text)
    {
      if Contains(text, Upper(tokens[i])) {
        return Some(tokens[i]);
      }
      assert tokens[i..][1..] == tokens[i + 1..];
      i := i + 1;
    }
    return None;
  }

  /** `_extract_quality`: the four ordered scans, then the `HEVC` codec and
      `NF.` source overrides. */
  method ExtractQuality(url: string, filename: string) returns (q: Quality)
    ensures q == Classify(url, filename)
  {
    q := Quality(Unknown, Unknown, Unknown, Unknown);
    var text := Upper(url + " " + filename);
    var res := FirstMentioned(Resolutions, text);
    if res.Some? {
      q := q.(resolution := res.value);
    }
    var codec := FirstMentioned(Codecs, text);
    if codec.Some? {
      q := q.(codec := codec.value);
    }
    var source := FirstMentioned(Sources, text);
    if source.Some? {
      q := q.(source := source.value);
    }
    var depth := FirstMentioned(BitDepths, text);
    if depth.Some? {
      q := q.(bitDepth := Lower(depth.value));
    }
    if Contains(text, "HEVC") {
      q := q.(codec := "HEVC");
    }
    if Contains(text, "NF.") || Contains(text, ".NF.") {
      q := q.(source := "NF");
    }
  }

  /** Resolution is "unknown" exactly when the text mentions no resolution.
      The `HEVC` and `NF.` overrides take precedence; without their tokens,
      codec and source are the first token of their list that the text
      mentions, or "unknown" when it mentions none. */
  lemma OrderedScanDecides(url: string, filename: string)
    ensures var text := SearchText(url, filename);
            var q := Classify(url, filename);
            && (q.resolution == Unknown <==> forall i :: 0 <= i < |Resolutions| ==> !Mentions(text, Resolutions[i]))
            && (Contains(text, "HEVC") ==> q.codec == "HEVC")
            && (!Contains(text, "HEVC") ==> q.codec == FirstMatch(Codecs, text).GetOr(Unknown))
            && (Contains(text, "NF.") ==> q.source == "NF")
            && (!Contains(text, "NF.") ==> q.source == FirstMatch(Sources, text).GetOr(Unknown))
  {
    var text := SearchText(url, filename);
    FirstMatchSpec(Resolutions, text);
    if Contains(text, ".NF.") {
      DotNfMentionsNf(text);
    }
    assert Unknown !in Resolutions;
  }

  /** A text that mentions "720P" gets resolution "720p", whatever other
      resolutions it mentions, because "720p" heads the list. */
  lemma FirstResolutionWins(url: string, filename: string)
    requires Contains(SearchText(url, filename), "720P")
    ensures Classify(url, filename).resolution == "720p"
  {
    assert Upper("720p") == "720P";
    FirstMatchIsFirst(Resolutions, SearchText(url, filename), 0);
  }

  /** The `".NF." in search_text` test adds nothing to `"NF." in search_text`. */
  lemma DotNfMentionsNf(text: string)
    requires Contains(text, ".NF.")
    ensures Contains(text, "NF.")
  {
    ContainsSpec(text, ".NF.");
    ContainsSpec(text, "NF.");
    var i :| OccursAt(text, ".NF.", i);
    assert text[i + 1..i + 4] == text[i..i + 4][1..];
    assert OccursAt(text, "NF.", i + 1);
  }

  /** The bit depth is lower-case: "8bit" or "10bit" when the text mentions
      "8BIT" or "10BIT", "8bit" taking precedence, otherwise "unknown". */
  lemma BitDepthNormalised(url: string, filename: string)
    ensures var text := SearchText(url, filename);
            var d := Classify(url, filename).bitDepth;
            && (Contains(text, "8BIT") ==> d == "8bit")
            && (!Contains(text, "8BIT") && Contains(text, "10BIT") ==> d == "10bit")
            && (!Contains(text, "8BIT") && !Contains(text, "10BIT") ==> d == Unknown)
  {
    var text := SearchText(url, filename);
    FirstMatchSpec(BitDepths, text);
    assert Upper("8bit") == "8BIT" && Upper("8Bit") == "8BIT";
    assert Upper("10bit") == "10BIT" && Upper("10Bit") == "10BIT";
    assert Lower("8bit") == "8bit" && Lower("10bit") == "10bit";
    if Contains(text, "8BIT") {
      FirstMatchIsFirst(BitDepths, text, 0);
    } else if Contains(text, "10BIT") {
      FirstMatchIsFirst(BitDepths, text, 1);
    }
  }
}
