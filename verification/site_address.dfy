/** Extraction of the site address from a page URL: the first path segment
    after `/sites/` or `/teams/`, as found by the regular expression
    `/\/(sites|teams)\/([^/?]+)/` and then trimmed. */
module SiteAddress {
  import opened Optional
  import opened JsText

  const SitesPrefix: string := "/sites/"
  const TeamsPrefix: string := "/teams/"

  /** Both alternatives of the group `(sites|teams)`, with their slashes,
      are this long. */
  const PrefixLength: nat := 7

  /** A character of the class `[^/?]`. */
  predicate IsSegmentChar(c: char) {
    c != '/' && c != '?'
  }

  /** The regular expression matches with its first character at `i`:
      `/sites/` or `/teams/` followed by at least one segment character. */
  ghost predicate MatchAt(s: string, i: int) {
    && 0 <= i && i + PrefixLength < |s|
    && (s[i..i + PrefixLength] == SitesPrefix || s[i..i + PrefixLength] == TeamsPrefix)
    && IsSegmentChar(s[i + PrefixLength])
  }

  /** `i` is where a JavaScript regular expression search reports its match:
      the smallest index at which the pattern matches. */
  ghost predicate IsLeftmostMatch(s: string, i: int) {
    MatchAt(s, i) && forall j :: 0 <= j < i ==> !MatchAt(s, j)
  }

  /** End of the greedy run `[^/?]+` that starts at `j`. */
  function SegmentEnd(s: string, j: nat): (e: nat)
    requires j <= |s|
    ensures j <= e <= |s|
    ensures forall k :: j <= k < e ==> IsSegmentChar(s[k])
    ensures e == |s| || !IsSegmentChar(s[e])
    decreases |s| - j
  {
    if j < |s| && IsSegmentChar(s[j]) then SegmentEnd(s, j + 1) else j
  }

  /** The scan for the leftmost index at or after `from` where the pattern
      matches. */
  function FindMatch(s: string, from: nat): (r: Option<nat>)
    ensures r.Some? ==> from <= r.value && MatchAt(s, r.value)
    ensures r.Some? ==> forall j :: from <= j < r.value ==> !MatchAt(s, j)
    ensures r.None? ==> forall j :: from <= j ==> !MatchAt(s, j)
    decreases |s| - from
  {
    if |s| <= from + PrefixLength then None
    else if (s[from..from + PrefixLength] == SitesPrefix || s[from..from + PrefixLength] == TeamsPrefix)
            && IsSegmentChar(s[from + PrefixLength])
    then Some(from)
    else FindMatch(s, from + 1)
  }

  /** Capture group 2 of the match at `i`: the longest run of segment
      characters right after the prefix. */
  function Capture(s: string, i: nat): (c: string)
    requires MatchAt(s, i)
    ensures |c| >= 1 && i + PrefixLength + |c| <= |s|
    ensures c == s[i + PrefixLength..i + PrefixLength + |c|]
    ensures forall k :: 0 <= k < |c| ==> IsSegmentChar(c[k])
    ensures i + PrefixLength + |c| == |s| || !IsSegmentChar(s[i + PrefixLength + |c|])
  {
    s[i + PrefixLength..SegmentEnd(s, i + PrefixLength)]
  }

  /** `getSiteAddressFromUrl`: the trimmed capture of the leftmost match,
      or the empty string when the pattern does not match. */
  function SiteAddressFromUrl(url: string): (r: string)
    ensures forall i :: IsLeftmostMatch(url, i) ==> r == Trim(Capture(url, i))
    ensures forall k :: 0 <= k < |r| ==> IsSegmentChar(r[k])
  {
    match FindMatch(url, 0)
    case None => ""
    case Some(i) =>
      var c := Capture(url, i);
      TrimKeepsSegmentChars(c);
      assert forall j :: IsLeftmostMatch(url, j) ==> j == i;
      Trim(c)
  }

  /** Trimming a run of segment characters leaves segment characters. */
  lemma TrimKeepsSegmentChars(c: string)
    requires forall k :: 0 <= k < |c| ==> IsSegmentChar(c[k])
    ensures forall k :: 0 <= k < |Trim(c)| ==> IsSegmentChar(Trim(c)[k])
  {
    var r := Trim(c);
    var a, b :| 0 <= a <= b <= |c| && r == c[a..b];
    assert forall k :: 0 <= k < |r| ==> r[k] == c[a + k];
  }

  /** The address is empty exactly when the pattern does not match or the
      segment captured at the leftmost match is all white space. */
  lemma SiteAddressEmptyIff(url: string)
    ensures SiteAddressFromUrl(url) == "" <==>
      forall i :: IsLeftmostMatch(url, i) ==> AllWhitespace(Capture(url, i))
  {
    match FindMatch(url, 0)
    case None =>
    case Some(m) =>
      assert IsLeftmostMatch(url, m);
  }

  /** A URL containing `/teams/b` always matches the pattern: `/teams/`
      followed by the segment character `b`. */
  lemma TeamsBAlwaysMatches(s: string)
    requires Includes(s, "/teams/b")
    ensures exists i :: MatchAt(s, i)
  {
    var i :| OccursAt(s, "/teams/b", i);
    assert s[i..i + PrefixLength] == s[i..i + 8][..PrefixLength];
    assert s[i + PrefixLength] == s[i..i + 8][PrefixLength];
    assert MatchAt(s, i);
  }

  /** For a URL containing `/teams/b`, the extracted address is empty only
      when the segment captured at the leftmost match is all white space. */
  lemma TeamsBAddressEmptyOnlyIfBlank(s: string)
    requires Includes(s, "/teams/b")
    ensures SiteAddressFromUrl(s) == "" <==> exists i :: IsLeftmostMatch(s, i) && AllWhitespace(Capture(s, i))
  {
    TeamsBAlwaysMatches(s);
    var m := FindMatch(s, 0);
    assert m.Some?;
    assert IsLeftmostMatch(s, m.value);
  }
}
