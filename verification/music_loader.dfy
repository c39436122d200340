/**
 The URL logic of script.js's loadMusic: a URL is accepted when it contains `youtube.com`
 (`String.prototype.includes`), and the text written into the iframe's `src` attribute is the URL
 with its first `watch?v=` replaced by `embed/` (`String.prototype.replace` with a string pattern, which
 replaces the first occurrence only). A rejected URL leaves the player as it was and raises an
 alert, modelled as a flag in the result.
 */
module MusicLoader {
  import opened Optional

  const HostMarker := "youtube.com"
  const WatchPath := "watch?v="
  const EmbedPath := "embed/"

  /** `pat` occurs in `s` starting at index `i`. */
  predicate OccursAt(s: string, pat: string, i: int) {
    0 <= i && i + |pat| <= |s| && s[i..i + |pat|] == pat
  }

  /** `i` is the leftmost occurrence of `pat` in `s`. */
  predicate IsFirstOccurrence(s: string, pat: string, i: int) {
    OccursAt(s, pat, i) && forall j :: 0 <= j < i ==> !OccursAt(s, pat, j)
  }

  /** The leftmost occurrence of `pat` in `s` at or after `from`, if any. */
  function IndexOfFrom(s: string, pat: string, from: nat): (r: Option<nat>)
    requires from <= |s|
    ensures r.Some? ==> from <= r.value && OccursAt(s, pat, r.value)
    ensures r.Some? ==> forall j :: from <= j < r.value ==> !OccursAt(s, pat, j)
    ensures r.None? ==> forall j :: from <= j ==> !OccursAt(s, pat, j)
    decreases |s| - from
  {
    if from + |pat| > |s| then None
    else if OccursAt(s, pat, from) then Some(from)
    else IndexOfFrom(s, pat, from + 1)
  }

  /** `s.indexOf(pat)`, as an option: the first occurrence, or none at all. */
  function IndexOf(s: string, pat: string): (r: Option<nat>)
    ensures r.Some? ==> IsFirstOccurrence(s, pat, r.value)
    ensures r.None? ==> forall j :: !OccursAt(s, pat, j)
  {
    IndexOfFrom(s, pat, 0)
  }

  /** `s.includes(pat)`. */
  function Includes(s: string, pat: string): (b: bool)
    ensures b <==> exists i :: OccursAt(s, pat, i)
  {
    IndexOf(s, pat).Some?
  }

  /** `s.replace(pat, rep)` with a string pattern and a replacement free of `$` patterns. */
  function ReplaceFirst(s: string, pat: string, rep: string): string {
    match IndexOf(s, pat)
    case None => s
    case Some(i) => s[..i] + rep + s[i + |pat|..]
  }

  /** The iframe `src` text after loadMusic (None: no embed yet), and whether the invalid-URL alert was raised. */
  datatype LoadResult = LoadResult(player: Option<string>, alerted: bool)

  /**
   loadMusic with `player` the text written into the iframe's `src` attribute (None before any
   embed): a URL containing `youtube.com` replaces the player by an iframe whose `src` text is the
   rewritten URL, interpolated without HTML escaping; any other URL
   leaves the player alone and raises the alert.
   */
  function LoadMusic(player: Option<string>, url: string): (r: LoadResult)
    ensures !r.alerted <==> exists i :: OccursAt(url, HostMarker, i)
    ensures r.alerted ==> r.player == player
    ensures !r.alerted ==> r.player == Some(ReplaceFirst(url, WatchPath, EmbedPath))
  {
    if Includes(url, HostMarker) then LoadResult(Some(ReplaceFirst(url, WatchPath, EmbedPath)), false)
    else LoadResult(player, true)
  }

  /** A string has at most one leftmost occurrence of a pattern. */
  lemma FirstOccurrenceUnique(s: string, pat: string, i: int, j: int)
    requires IsFirstOccurrence(s, pat, i) && IsFirstOccurrence(s, pat, j)
    ensures i == j
  {
  }

  /** Without an occurrence of the pattern, replace returns its input. */
  lemma ReplaceAbsent(s: string, pat: string, rep: string)
    requires forall j :: !OccursAt(s, pat, j)
    ensures ReplaceFirst(s, pat, rep) == s
  {
  }

  /** With a leftmost occurrence at `i`, replace splices `rep` in place of exactly that occurrence. */
  lemma ReplaceAtFirst(s: string, pat: string, rep: string, i: int)
    requires IsFirstOccurrence(s, pat, i)
    ensures ReplaceFirst(s, pat, rep) == s[..i] + rep + s[i + |pat|..]
    ensures |ReplaceFirst(s, pat, rep)| == |s| - |pat| + |rep|
  {
  }

  /** Only the first occurrence is replaced: a later, non-overlapping occurrence survives, shifted by the change in length. */
  lemma ReplaceKeepsLater(s: string, pat: string, rep: string, i: int, j: int)
    requires IsFirstOccurrence(s, pat, i)
    requires OccursAt(s, pat, j) && i + |pat| <= j
    ensures OccursAt(ReplaceFirst(s, pat, rep), pat, j - |pat| + |rep|)
  {
  }

  /** Text before the replaced occurrence is kept, and so is text after it. */
  lemma ReplaceKeepsSurroundings(s: string, pat: string, rep: string, i: int)
    requires IsFirstOccurrence(s, pat, i)
    ensures var r := ReplaceFirst(s, pat, rep);
      r[..i] == s[..i] && r[i..i + |rep|] == rep && r[i + |rep|..] == s[i + |pat|..]
  {
  }

  /** Each character of an occurrence is the pattern's character. */
  lemma CharAt(s: string, pat: string, i: int, k: int)
    requires OccursAt(s, pat, i) && i <= k < i + |pat|
    ensures s[k] == pat[k - i]
  {
  }

  /** `youtube.com` and `watch?v=` share no letters in aligned positions, so their occurrences never overlap. */
  lemma MarkerAndWatchDisjoint(s: string, p: int, q: int)
    requires OccursAt(s, HostMarker, p) && OccursAt(s, WatchPath, q)
    ensures p + |HostMarker| <= q || q + |WatchPath| <= p
  {
    if q < p + |HostMarker| && p < q + |WatchPath| {
      // Both occurrences cover index max(p, q), where the two patterns hold different characters.
      if p <= q {
        CharAt(s, HostMarker, p, q);
      } else {
        CharAt(s, WatchPath, q, p);
      }
      assert false;
    }
  }

  /** An accepted URL's embed source still contains `youtube.com`: the rewrite never touches the marker. */
  lemma EmbedKeepsMarker(url: string)
    requires Includes(url, HostMarker)
    ensures Includes(ReplaceFirst(url, WatchPath, EmbedPath), HostMarker)
  {
    var p :| OccursAt(url, HostMarker, p);
    var r := ReplaceFirst(url, WatchPath, EmbedPath);
    match IndexOf(url, WatchPath)
    case None =>
    case Some(q) =>
      MarkerAndWatchDisjoint(url, p, q);
      ReplaceKeepsSurroundings(url, WatchPath, EmbedPath, q);
      if p + |HostMarker| <= q {
        assert r[p..p + |HostMarker|] == r[..q][p..p + |HostMarker|];
        assert OccursAt(r, HostMarker, p);
      } else {
        var d := p - |WatchPath| + |EmbedPath|;
        assert r[d..d + |HostMarker|] == r[q + |EmbedPath|..][p - q - |WatchPath|..p - q - |WatchPath| + |HostMarker|];
        assert url[p..p + |HostMarker|] == url[q + |WatchPath|..][p - q - |WatchPath|..p - q - |WatchPath| + |HostMarker|];
        assert OccursAt(r, HostMarker, d);
      }
  }

  /** The embed source of an accepted URL: the URL itself without `watch?v=`, otherwise the URL with its first `watch?v=` turned into `embed/`. */
  lemma EmbedSource(player: Option<string>, url: string)
    requires Includes(url, HostMarker)
    ensures !Includes(url, WatchPath) ==> LoadMusic(player, url).player == Some(url)
    ensures forall i :: IsFirstOccurrence(url, WatchPath, i) ==>
      LoadMusic(player, url).player == Some(url[..i] + EmbedPath + url[i + |WatchPath|..])
  {
  }
}
