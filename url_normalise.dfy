/**
 * URL normalisation performed before a URL is stored:
 *   - `remove_time_parameter` deletes every `&t=<digits>s` playback offset,
 *     scanning left to right with non-overlapping matches (Python's `re.sub`);
 *   - `save_urls` then strips the fixed watch-page prefix with `str.removeprefix`.
 * The regular-expression class `\d` is modelled as the ASCII digits.
 */
module UrlNormalise {

  /** The prefix `save_urls` strips from a URL to obtain its `youtube_id`. */
  const WatchPrefix: string := "https://www.youtube.com/watch?v="

  predicate IsDigit(c: char) {
    '0' <= c <= '9'
  }

  /** The language of the pattern `&t=\d+s`. */
  predicate IsTimeParameter(m: string) {
    && |m| >= 5
    && m[..3] == "&t="
    && m[|m| - 1] == 's'
    && forall i :: 3 <= i < |m| - 1 ==> IsDigit(m[i])
  }

  /** No prefix of `s` is a time parameter: a scan standing at the start of `s` finds no match. */
  predicate NoMatchAtFront(s: string) {
    forall n :: 0 < n <= |s| ==> !IsTimeParameter(s[..n])
  }

  /** Some substring of `url` is a time parameter. */
  predicate ContainsTimeParameter(url: string) {
    exists i, j :: 0 <= i <= j <= |url| && IsTimeParameter(url[i..j])
  }

  /** The length of the maximal run of digits at the front of `s`. */
  function DigitRun(s: string): (n: nat)
    ensures n <= |s|
    ensures forall i :: 0 <= i < n ==> IsDigit(s[i])
    ensures n < |s| ==> !IsDigit(s[n])
  {
    if s != [] && IsDigit(s[0]) then 1 + DigitRun(s[1..]) else 0
  }

  /**
   * The length of the match of `&t=\d+s` that starts at the front of `s`,
   * or 0 when there is none. The greedy `\d+` takes the whole digit run; backing
   * off would leave a digit where the `s` must stand, so no other match exists.
   */
  function MatchLength(s: string): (n: nat)
    ensures n <= |s|
    ensures n > 0 ==> IsTimeParameter(s[..n])
  {
    if |s| >= 3 && s[..3] == "&t=" then
      var k := DigitRun(s[3..]);
      if 0 < k && 3 + k < |s| && s[3 + k] == 's' then
        assert forall j :: 0 <= j < k ==> s[..k + 4][j + 3] == s[3..][j];
        k + 4
      else 0
    else 0
  }

  /** `remove_time_parameter`: `re.sub(r"&t=\d+s", "", url)`. */
  function RemoveTimeParameter(url: string): (r: string)
    ensures |r| <= |url|
    decreases |url|
  {
    if url == [] then []
    else
      var n := MatchLength(url);
      if n > 0 then RemoveTimeParameter(url[n..])
      else [url[0]] + RemoveTimeParameter(url[1..])
  }

  /** Python's `str.removeprefix`. */
  function RemovePrefix(s: string, prefix: string): (r: string)
    ensures if prefix <= s then prefix + r == s else r == s
  {
    if prefix <= s then s[|prefix|..] else s
  }

  /** The `youtube_id` that `save_urls` stores for the URL `url`. */
  function NormaliseKey(url: string): (key: string)
    ensures |key| <= |url|
    ensures var t := RemoveTimeParameter(url);
            if WatchPrefix <= t then WatchPrefix + key == t else key == t
  {
    RemovePrefix(RemoveTimeParameter(url), WatchPrefix)
  }

  // ---------------------------------------------------------------------------
  // The match at a position is unique
  // ---------------------------------------------------------------------------

  /** A prefix of `s` of length `n` is a time parameter exactly when `n` is the match length. */
  lemma MatchLengthIsTheOnlyMatch(s: string, n: nat)
    requires n <= |s|
    ensures IsTimeParameter(s[..n]) <==> 0 < n == MatchLength(s)
  {
    if IsTimeParameter(s[..n]) {
      var m := s[..n];
      assert s[..3] == m[..3];
      var tail := s[3..];
      var k := DigitRun(tail);
      forall i | 0 <= i < n - 4
        ensures IsDigit(tail[i])
      {
        assert tail[i] == m[i + 3];
      }
      assert tail[n - 4] == m[n - 1];
      assert s[3 + k] == m[n - 1];
    }
  }

  lemma NoMatchAtFrontIff(s: string)
    ensures NoMatchAtFront(s) <==> MatchLength(s) == 0
  {
    if MatchLength(s) == 0 {
      forall n | 0 < n <= |s|
        ensures !IsTimeParameter(s[..n])
      {
        MatchLengthIsTheOnlyMatch(s, n);
      }
    }
  }

  // ---------------------------------------------------------------------------
  // The result is unchanged exactly when there is nothing to remove
  // ---------------------------------------------------------------------------

  /** A URL without any time parameter comes back unchanged. */
  lemma {:induction false} RemoveWithoutTimeParameter(url: string)
    requires !ContainsTimeParameter(url)
    ensures RemoveTimeParameter(url) == url
    decreases |url|
  {
    if url != [] {
      var n := MatchLength(url);
      assert url[0..n] == url[..n];
      var rest := url[1..];
      assert forall i, j :: 0 <= i <= j <= |rest| ==> rest[i..j] == url[i + 1..j + 1];
      RemoveWithoutTimeParameter(rest);
    }
  }

  /** A URL holding a time parameter comes back strictly shorter. */
  lemma {:induction false} RemoveWithTimeParameter(url: string)
    requires ContainsTimeParameter(url)
    ensures |RemoveTimeParameter(url)| < |url|
    decreases |url|
  {
    var i, j :| 0 <= i <= j <= |url| && IsTimeParameter(url[i..j]);
    if MatchLength(url) == 0 {
      if i == 0 {
        assert url[0..j] == url[..j];
        MatchLengthIsTheOnlyMatch(url, j);
        assert false;
      }
      var rest := url[1..];
      assert rest[i - 1..j - 1] == url[i..j];
      RemoveWithTimeParameter(rest);
    }
  }

  /** `remove_time_parameter` returns its input unchanged exactly when it holds no `&t=\d+s`. */
  lemma RemoveUnchangedIff(url: string)
    ensures RemoveTimeParameter(url) == url <==> !ContainsTimeParameter(url)
    ensures |RemoveTimeParameter(url)| < |url| <==> ContainsTimeParameter(url)
  {
    if ContainsTimeParameter(url) {
      RemoveWithTimeParameter(url);
    } else {
      RemoveWithoutTimeParameter(url);
    }
  }

  // ---------------------------------------------------------------------------
  // Exactly the leftmost non-overlapping matches are deleted
  // ---------------------------------------------------------------------------

  /** A piece of a URL as a left-to-right scan sees it: a kept character or a deleted match. */
  datatype Piece = Keep(c: char) | Cut(digits: string)

  function PieceText(p: Piece): string {
    match p
    case Keep(c) => [c]
    case Cut(d) => "&t=" + d + "s"
  }

  /** The original text a sequence of pieces spells. */
  function Text(ps: seq<Piece>): string {
    if ps == [] then [] else PieceText(ps[0]) + Text(ps[1..])
  }

  /** The characters of the kept pieces, in order. */
  function Survivors(ps: seq<Piece>): string {
    if ps == [] then []
    else
      match ps[0]
      case Keep(c) => [c] + Survivors(ps[1..])
      case Cut(_) => Survivors(ps[1..])
  }

  /**
   * `ps` is how a left-to-right, non-overlapping scan splits `Text(ps)`: every cut
   * piece is a match of `&t=\d+s`, and no match starts where a character is kept.
   */
  predicate IsLeftmostParse(ps: seq<Piece>) {
    ps == [] ||
    (&& (match ps[0]
         case Cut(_) => IsTimeParameter(PieceText(ps[0]))
         case Keep(_) => NoMatchAtFront(Text(ps)))
     && IsLeftmostParse(ps[1..]))
  }

  /** `remove_time_parameter` keeps exactly the characters a leftmost parse keeps, in order. */
  lemma {:induction false} RemoveKeepsSurvivors(ps: seq<Piece>)
    requires IsLeftmostParse(ps)
    ensures RemoveTimeParameter(Text(ps)) == Survivors(ps)
    decreases |ps|
  {
    if ps != [] {
      var s := Text(ps);
      var head := PieceText(ps[0]);
      assert s == head + Text(ps[1..]);
      assert s[|head|..] == Text(ps[1..]);
      match ps[0]
      case Cut(d) =>
        assert s[..|head|] == head;
        MatchLengthIsTheOnlyMatch(s, |head|);
        RemoveKeepsSurvivors(ps[1..]);
      case Keep(c) =>
        NoMatchAtFrontIff(s);
        RemoveKeepsSurvivors(ps[1..]);
    }
  }

  /** The leftmost parse of `url`, as `re.sub` finds it. */
  function LeftmostParse(url: string): (ps: seq<Piece>)
    ensures Text(ps) == url
    ensures IsLeftmostParse(ps)
    decreases |url|
  {
    if url == [] then []
    else
      var n := MatchLength(url);
      if n > 0 then
        var p := Cut(url[3..n - 1]);
        assert PieceText(p) == url[..n];
        assert url == url[..n] + url[n..];
        [p] + LeftmostParse(url[n..])
      else
        NoMatchAtFrontIff(url);
        var ps := [Keep(url[0])] + LeftmostParse(url[1..]);
        assert ps[1..] == LeftmostParse(url[1..]);
        ps
  }

  /** Every URL splits into kept characters and leftmost matches, and the result is the kept characters. */
  lemma RemoveDeletesLeftmostMatches(url: string)
    ensures exists ps :: Text(ps) == url && IsLeftmostParse(ps) && RemoveTimeParameter(url) == Survivors(ps)
  {
    var ps := LeftmostParse(url);
    RemoveKeepsSurvivors(ps);
  }

  // ---------------------------------------------------------------------------
  // The watch prefix and the stored key
  // ---------------------------------------------------------------------------

  /** A match always starts with `&`. */
  lemma NoMatchWithoutAmpersand(s: string)
    requires s != [] && s[0] != '&'
    ensures MatchLength(s) == 0
  {
    if |s| >= 3 {
      assert s[..3][0] == s[0];
      assert "&t="[0] == '&';
    }
  }

  /** Where no match starts, the scan keeps the character and goes on with the rest. */
  lemma KeepsFront(s: string)
    requires s != [] && MatchLength(s) == 0
    ensures RemoveTimeParameter(s) == [s[0]] + RemoveTimeParameter(s[1..])
  {
  }

  /** Where a match of length `n` starts, the scan deletes it and goes on after it. */
  lemma CutsFront(s: string, n: nat)
    requires n <= |s| && IsTimeParameter(s[..n])
    ensures RemoveTimeParameter(s) == RemoveTimeParameter(s[n..])
  {
    MatchLengthIsTheOnlyMatch(s, n);
  }

  /** A first character other than `&` is kept, whatever follows it. */
  lemma KeepsNonAmpersandFront(p: string, x: string)
    requires p != [] && p[0] != '&'
    ensures RemoveTimeParameter(p + x) == [p[0]] + RemoveTimeParameter(p[1..] + x)
  {
    var s := p + x;
    assert s[0] == p[0];
    NoMatchWithoutAmpersand(s);
    KeepsFront(s);
    assert s[1..] == p[1..] + x;
  }

  lemma ConsAppend(p: string, r: string)
    requires p != []
    ensures [p[0]] + (p[1..] + r) == p + r
  {
    assert p == [p[0]] + p[1..];
  }

  /** A leading part without `&` can never start a match, so it passes through unchanged. */
  lemma {:induction false} RemoveSkipsAmpersandFreePrefix(p: string, x: string)
    requires '&' !in p
    ensures RemoveTimeParameter(p + x) == p + RemoveTimeParameter(x)
    decreases |p|
  {
    if p == [] {
      assert p + x == x;
    } else {
      var tail := p[1..];
      KeepsNonAmpersandFront(p, x);
      RemoveSkipsAmpersandFreePrefix(tail, x);
      ConsAppend(p, RemoveTimeParameter(x));
    }
  }

  lemma WatchPrefixHasNoAmpersand()
    ensures '&' !in WatchPrefix
  {
  }

  /** The key of a watch-page URL is the video id with its time parameters removed. */
  lemma KeyOfWatchUrl(videoPart: string)
    ensures NormaliseKey(WatchPrefix + videoPart) == RemoveTimeParameter(videoPart)
  {
    WatchPrefixHasNoAmpersand();
    RemoveSkipsAmpersandFreePrefix(WatchPrefix, videoPart);
    var t := RemoveTimeParameter(WatchPrefix + videoPart);
    assert WatchPrefix <= t;
    assert t[|WatchPrefix|..] == RemoveTimeParameter(videoPart);
  }

  /** A URL not of the watch-page shape keeps everything but its time parameters. */
  lemma KeyOfOtherUrl(url: string)
    requires !(WatchPrefix <= RemoveTimeParameter(url))
    ensures NormaliseKey(url) == RemoveTimeParameter(url)
  {
  }

  // ---------------------------------------------------------------------------
  // Playback offsets in practice
  // ---------------------------------------------------------------------------

  /** `&t=<d>s` matches the pattern for every nonempty digit string `d`. */
  lemma OffsetIsTimeParameter(d: string)
    requires |d| > 0 && forall i :: 0 <= i < |d| ==> IsDigit(d[i])
    ensures IsTimeParameter("&t=" + d + "s")
  {
    var w := "&t=" + d + "s";
    assert forall i :: 3 <= i < |w| - 1 ==> w[i] == d[i - 3];
  }

  lemma OffsetShape(d: string)
    ensures "&t=" + d + "s" + [] == "&t=" + d + "s"
  {
  }

  lemma RemoveSingleTimeParameter(d: string)
    requires |d| > 0 && forall i :: 0 <= i < |d| ==> IsDigit(d[i])
    ensures RemoveTimeParameter("&t=" + d + "s") == ""
  {
    RemoveDeletesLeadingOffset(d, []);
    OffsetShape(d);
  }

  lemma WatchOffsetShape(videoId: string, d: string)
    ensures WatchPrefix + videoId + "&t=" + d + "s" == WatchPrefix + (videoId + ("&t=" + d + "s"))
    ensures videoId + [] == videoId
  {
  }

  /**
   * A watch-page URL whose video id holds no `&`, followed by one playback offset,
   * is stored under the bare video id (`...watch?v=abc123&t=30s` becomes `abc123`).
   */
  lemma KeyOfWatchUrlWithOffset(videoId: string, d: string)
    requires '&' !in videoId
    requires |d| > 0 && forall i :: 0 <= i < |d| ==> IsDigit(d[i])
    ensures NormaliseKey(WatchPrefix + videoId + "&t=" + d + "s") == videoId
  {
    var offset := "&t=" + d + "s";
    WatchOffsetShape(videoId, d);
    KeyOfWatchUrl(videoId + offset);
    RemoveSkipsAmpersandFreePrefix(videoId, offset);
    RemoveSingleTimeParameter(d);
  }

  /**
   * A URL of any other shape, followed by one playback offset, is stored as the
   * whole URL without that offset: only the YouTube watch prefix is ever stripped.
   */
  lemma KeyOfOtherUrlWithOffset(url: string, d: string)
    requires '&' !in url
    requires !(WatchPrefix <= url)
    requires |d| > 0 && forall i :: 0 <= i < |d| ==> IsDigit(d[i])
    ensures NormaliseKey(url + "&t=" + d + "s") == url
  {
    var offset := "&t=" + d + "s";
    assert url + "&t=" + d + "s" == url + offset;
    RemoveSkipsAmpersandFreePrefix(url, offset);
    RemoveSingleTimeParameter(d);
    assert url + [] == url;
  }

  /** `https://example.com/watch?v=abc123&t=30s` keeps its host and path in the stored key. */
  lemma ExampleComUrlKey()
    ensures NormaliseKey("https://example.com/watch?v=abc123&t=30s") == "https://example.com/watch?v=abc123"
  {
    var url: string := "https://example.com/watch?v=abc123";
    assert url[12] != WatchPrefix[12];
    assert url + "&t=" + "30" + "s" == "https://example.com/watch?v=abc123&t=30s";
    KeyOfOtherUrlWithOffset(url, "30");
  }

  /**
   * Removal is not idempotent: deleting the inner match of `&t=&t=<d>s<e>s` (for
   * example `&t=&t=5s5s`) joins its neighbours into a new match `&t=<e>s`, which a
   * second call then deletes.
   */
  lemma RemoveIsNotIdempotent(d: string, e: string)
    requires |d| > 0 && forall i :: 0 <= i < |d| ==> IsDigit(d[i])
    requires |e| > 0 && forall i :: 0 <= i < |e| ==> IsDigit(e[i])
    ensures var once := RemoveTimeParameter("&t=&t=" + d + "s" + e + "s");
      && once == "&t=" + e + "s"
      && RemoveTimeParameter(once) == []
      && RemoveTimeParameter(once) != once
  {
    var w := "&t=" + d + "s";
    var rest := e + "s";
    var u := "&t=&t=" + d + "s" + e + "s";
    AmbiguousOffsetShape(d, e);
    KeepsOuterAmpersand(u, w + rest);
    RemoveSkipsAmpersandFreePrefix("t=", w + rest);
    RemoveDeletesLeadingOffset(d, rest);
    DigitsThenSHaveNoAmpersand(e);
    RemoveSkipsAmpersandFreePrefix(rest, []);
    RemoveSingleTimeParameter(e);
  }

  lemma AmbiguousOffsetShape(d: string, e: string)
    ensures "&t=&t=" + d + "s" + e + "s" == "&" + ("t=" + (("&t=" + d + "s") + (e + "s")))
    ensures "&" + ("t=" + (e + "s")) == "&t=" + e + "s"
    ensures (e + "s") + [] == e + "s"
    ensures ("&t=" + d + "s")[0] == '&'
  {
  }

  /** `&t=&...`: no digit follows `&t=`, so the scan keeps the first `&`. */
  lemma KeepsOuterAmpersand(u: string, v: string)
    requires u == "&" + ("t=" + v) && v != [] && v[0] == '&'
    ensures RemoveTimeParameter(u) == "&" + RemoveTimeParameter("t=" + v)
  {
    assert u[3..][0] == v[0];
    assert DigitRun(u[3..]) == 0;
    KeepsFront(u);
    assert u[1..] == "t=" + v;
  }

  /** A leading `&t=<d>s` is deleted and the scan resumes right after it. */
  lemma RemoveDeletesLeadingOffset(d: string, rest: string)
    requires |d| > 0 && forall i :: 0 <= i < |d| ==> IsDigit(d[i])
    ensures RemoveTimeParameter("&t=" + d + "s" + rest) == RemoveTimeParameter(rest)
  {
    var w := "&t=" + d + "s";
    var s := w + rest;
    OffsetIsTimeParameter(d);
    assert s[..|w|] == w;
    CutsFront(s, |w|);
    assert s[|w|..] == rest;
  }

  lemma DigitsThenSHaveNoAmpersand(e: string)
    requires forall i :: 0 <= i < |e| ==> IsDigit(e[i])
    ensures '&' !in e + "s"
  {
    var t := e + "s";
    forall i | 0 <= i < |t|
      ensures t[i] != '&'
    {
      if i < |e| {
        assert t[i] == e[i];
      }
    }
  }
}
