/**
 `extract_youtube_id` of main.py: the video ID of a YouTube link, found
 by trying five unanchored regular expressions in a fixed order and
 returning the first capture group any of them yields.

 Every pattern is an optional `http(s)://` and `www.` prefix, a literal
 marker (`youtube.com/watch?v=`, `youtu.be/`, `youtube.com/embed/`,
 `youtube.com/shorts/`, `youtube.com/live/`) and a capture group of ID
 characters `[a-zA-Z0-9_-]`: exactly eleven of them, except for shorts,
 which take a greedy run of one or more. Since the search is unanchored
 and the prefix optional, the model searches for the marker alone
 (`Search`) and proves that searching for the full pattern, prefix
 alternatives included (`RegexSearch`), captures the same ID.
 */
module YouTube {

  datatype Option<T> = None | Some(value: T)

  /** A character of the class `[a-zA-Z0-9_-]`. */
  predicate IsIdChar(c: char) {
    ('a' <= c <= 'z') || ('A' <= c <= 'Z') || ('0' <= c <= '9') || c == '_' || c == '-'
  }

  /** How many ID characters the capture group takes: `{len}` or `+`. */
  datatype IdRule = Exactly(len: nat) | OneOrMore

  /** A pattern without its optional prefix: the literal marker, then the
      capture group. */
  datatype Pattern = Pattern(marker: string, rule: IdRule)

  /** Length of a regular video ID. */
  const IdLength: nat := 11

  const WatchPattern := Pattern("youtube.com/watch?v=", Exactly(IdLength))
  const ShortLinkPattern := Pattern("youtu.be/", Exactly(IdLength))
  const EmbedPattern := Pattern("youtube.com/embed/", Exactly(IdLength))
  const ShortsPattern := Pattern("youtube.com/shorts/", OneOrMore)
  const LivePattern := Pattern("youtube.com/live/", Exactly(IdLength))

  /** The patterns in the order `extract_youtube_id` tries them. */
  const Patterns: seq<Pattern> := [WatchPattern, ShortLinkPattern, EmbedPattern, ShortsPattern, LivePattern]

  /** The literal `lit` occurs in `s` starting at index `i`. */
  predicate HasAt(s: string, i: nat, lit: string) {
    i + |lit| <= |s| && s[i..i + |lit|] == lit
  }

  /** The length of the run of ID characters in `s` from index `i`: all
      of it consists of ID characters, and it stops at the end of `s` or
      at a character that is not one. */
  function RunLength(s: string, i: nat): (k: nat)
    requires i <= |s|
    ensures i + k <= |s|
    ensures forall j :: i <= j < i + k ==> IsIdChar(s[j])
    ensures i + k == |s| || !IsIdChar(s[i + k])
    decreases |s| - i
  {
    if i < |s| && IsIdChar(s[i]) then 1 + RunLength(s, i + 1) else 0
  }

  /** What the capture group takes when it starts at index `i`. `{n}`
      matches when the next `n` characters are all ID characters and takes
      exactly those, whatever follows (no end anchor); `+` matches when
      the next character is an ID character and, being greedy with nothing
      after it, takes the whole run. */
  function CaptureAt(s: string, i: nat, rule: IdRule): (r: Option<string>)
    requires i <= |s|
    ensures rule.Exactly? ==>
              (r.Some? <==> i + rule.len <= |s| && forall j :: i <= j < i + rule.len ==> IsIdChar(s[j]))
    ensures rule.OneOrMore? ==> (r.Some? <==> i < |s| && IsIdChar(s[i]))
    ensures r.Some? ==> i + |r.value| <= |s| && r.value == s[i..i + |r.value|]
    ensures r.Some? ==> forall j :: 0 <= j < |r.value| ==> IsIdChar(r.value[j])
    ensures r.Some? && rule.Exactly? ==> |r.value| == rule.len
    ensures r.Some? && rule.OneOrMore? ==> |r.value| >= 1 && (i + |r.value| == |s| || !IsIdChar(s[i + |r.value|]))
  {
    match rule
    case Exactly(n) =>
      if i + n <= |s| && forall j :: i <= j < i + n ==> IsIdChar(s[j]) then Some(s[i..i + n]) else None
    case OneOrMore =>
      var k := RunLength(s, i);
      if k >= 1 then Some(s[i..i + k]) else None
  }

  /** The ID pattern `p` captures when its marker starts at index `m`,
      or None when the marker is not there or no valid ID follows it.
      In terms of the characters of `s`: the marker occupies `m` on, and
      the ID is the substring right after it, eleven ID characters for
      `{11}` and the whole run of ID characters, at least one, for `+`. */
  function MatchAt(s: string, p: Pattern, m: nat): (r: Option<string>)
    ensures r.Some? ==> HasAt(s, m, p.marker) && CaptureAt(s, m + |p.marker|, p.rule) == r
    ensures HasAt(s, m, p.marker) ==> r == CaptureAt(s, m + |p.marker|, p.rule)
    ensures p.rule.Exactly? ==>
              (r.Some? <==> && HasAt(s, m, p.marker)
                            && m + |p.marker| + p.rule.len <= |s|
                            && forall j :: m + |p.marker| <= j < m + |p.marker| + p.rule.len ==> IsIdChar(s[j]))
    ensures p.rule.OneOrMore? ==>
              (r.Some? <==> HasAt(s, m, p.marker) && m + |p.marker| < |s| && IsIdChar(s[m + |p.marker|]))
    ensures r.Some? ==> && m + |p.marker| + |r.value| <= |s|
                        && r.value == s[m + |p.marker|..m + |p.marker| + |r.value|]
                        && forall j :: 0 <= j < |r.value| ==> IsIdChar(r.value[j])
    ensures r.Some? && p.rule.Exactly? ==> |r.value| == p.rule.len
    ensures r.Some? && p.rule.OneOrMore? ==>
              |r.value| >= 1 && (m + |p.marker| + |r.value| == |s| || !IsIdChar(s[m + |p.marker| + |r.value|]))
  {
    if HasAt(s, m, p.marker) then CaptureAt(s, m + |p.marker|, p.rule) else None
  }

  /** A match: where the marker starts and the ID captured after it. */
  datatype Hit = Hit(pos: nat, id: string)

  /** `re.search` for the marker and capture group: the leftmost index
      from `from` on where the marker starts and a valid ID follows. */
  function Search(s: string, p: Pattern, from: nat): (r: Option<Hit>)
    ensures r.Some? ==> from <= r.value.pos <= |s| && MatchAt(s, p, r.value.pos) == Some(r.value.id)
    ensures r.Some? ==> forall m :: from <= m < r.value.pos ==> MatchAt(s, p, m).None?
    ensures r.None? ==> forall m :: from <= m ==> MatchAt(s, p, m).None?
    decreases |s| + 1 - from
  {
    if from > |s| then None
    else match MatchAt(s, p, from)
      case Some(id) => Some(Hit(from, id))
      case None => Search(s, p, from + 1)
  }

  /** The ID of a search result. */
  function IdOf(h: Option<Hit>): Option<string> {
    match h
    case Some(hit) => Some(hit.id)
    case None => None
  }

  /** Pattern `k` wins on `url` with the ID `id` at marker index `m`: no
      earlier pattern matches anywhere, and `m` is the leftmost index where
      pattern `k` matches. */
  ghost predicate Wins(url: string, k: nat, m: nat, id: string) {
    && k < |Patterns|
    && MatchAt(url, Patterns[k], m) == Some(id)
    && (forall j, m': nat :: 0 <= j < k ==> MatchAt(url, Patterns[j], m').None?)
    && (forall m': nat :: m' < m ==> MatchAt(url, Patterns[k], m').None?)
  }

  /** The outcome of the pattern loop: which pattern matched, where, and
      the ID it captured. */
  datatype Found = Found(pattern: nat, pos: nat, id: string)

  /** Pattern `p` matches nowhere in `url`. */
  ghost predicate Misses(url: string, p: Pattern) {
    forall m: nat :: MatchAt(url, p, m).None?
  }

  /** The `for pattern in patterns` loop over `ps` from pattern `k` on:
      the first pattern whose search succeeds. */
  function FindFrom(url: string, ps: seq<Pattern>, k: nat): (r: Option<Found>)
    requires k <= |ps|
    ensures r.None? <==> forall j :: k <= j < |ps| ==> Misses(url, ps[j])
    ensures r.Some? ==> k <= r.value.pattern < |ps|
    ensures r.Some? ==> MatchAt(url, ps[r.value.pattern], r.value.pos) == Some(r.value.id)
    ensures r.Some? ==> forall j :: k <= j < r.value.pattern ==> Misses(url, ps[j])
    ensures r.Some? ==> forall m: nat :: m < r.value.pos ==> MatchAt(url, ps[r.value.pattern], m).None?
    decreases |ps| - k
  {
    if k == |ps| then None
    else match Search(url, ps[k], 0)
      case Some(hit) => Some(Found(k, hit.pos, hit.id))
      case None => FindFrom(url, ps, k + 1)
  }

  /** `extract_youtube_id(url)`: None exactly when no pattern occurs
      anywhere in `url`; otherwise the ID of the first pattern, in the
      fixed order, that occurs, taken at its leftmost occurrence. */
  function ExtractYoutubeId(url: string): (r: Option<string>)
    ensures r.None? <==> forall k, m: nat :: 0 <= k < |Patterns| ==> MatchAt(url, Patterns[k], m).None?
    ensures r.Some? ==> exists k, m :: Wins(url, k, m, r.value)
  {
    match FindFrom(url, Patterns, 0)
    case Some(f) =>
      assert Wins(url, f.pattern, f.pos, f.id);
      Some(f.id)
    case None => None
  }

  /** At most one pattern, index and ID win. */
  lemma WinsUnique(url: string, k1: nat, m1: nat, id1: string, k2: nat, m2: nat, id2: string)
    requires Wins(url, k1, m1, id1) && Wins(url, k2, m2, id2)
    ensures k1 == k2 && m1 == m2 && id1 == id2
  {
  }

  /** The result is exactly the winning ID: pattern order decides first,
      so a pattern tried earlier wins even when a later one occurs earlier
      in the link; within the winning pattern the leftmost match decides. */
  lemma ExtractIffWins(url: string, id: string)
    ensures ExtractYoutubeId(url) == Some(id) <==> exists k, m :: Wins(url, k, m, id)
  {
    if k, m :| Wins(url, k, m, id) {
      assert ExtractYoutubeId(url).Some?;
      var k', m' :| Wins(url, k', m', ExtractYoutubeId(url).value);
      WinsUnique(url, k, m, id, k', m', ExtractYoutubeId(url).value);
    }
  }

  /** What a returned ID looks like: a non-empty run of ID characters
      that immediately follows the winning marker in the link. From the
      watch, youtu.be, embed and live patterns it has exactly eleven
      characters (the first eleven of a longer run); from the shorts
      pattern it is the whole run, up to the end of the link or the first
      character that is not an ID character. */
  lemma WinningIdShape(url: string, k: nat, m: nat, id: string)
    requires Wins(url, k, m, id)
    ensures HasAt(url, m, Patterns[k].marker)
    ensures var start := m + |Patterns[k].marker|;
            start + |id| <= |url| && id == url[start..start + |id|]
    ensures 1 <= |id| && forall j :: 0 <= j < |id| ==> IsIdChar(id[j])
    ensures k != 3 ==> |id| == IdLength
    ensures k == 3 ==> var end := m + |Patterns[k].marker| + |id|;
                       end == |url| || !IsIdChar(url[end])
  {
    assert Patterns[k] in {WatchPattern, ShortLinkPattern, EmbedPattern, ShortsPattern, LivePattern};
  }

  /** The optional prefix `(?:https?:\/\/)?(?:www\.)?` of every pattern,
      in the order a backtracking engine tries its alternatives: the first
      group before skipping it, `https` before `http`, `www.` before
      nothing. */
  const Prefixes: seq<string> := ["https://www.", "https://", "http://www.", "http://", "www.", ""]

  /** `re.search`'s attempt to match the full pattern starting at index
      `st`, trying the prefix alternatives `pres` from the `j`-th on: the
      ID captured after the first alternative that lets marker and ID
      follow. */
  function TryAt(s: string, p: Pattern, pres: seq<string>, st: nat, j: nat): (r: Option<string>)
    requires j <= |pres|
    ensures r.Some? ==> exists i :: j <= i < |pres| && HasAt(s, st, pres[i]) && MatchAt(s, p, st + |pres[i]|) == r
    ensures r.None? ==> forall i :: j <= i < |pres| && HasAt(s, st, pres[i]) ==> MatchAt(s, p, st + |pres[i]|).None?
    decreases |pres| - j
  {
    if j == |pres| then None
    else if HasAt(s, st, pres[j]) && MatchAt(s, p, st + |pres[j]|).Some? then MatchAt(s, p, st + |pres[j]|)
    else TryAt(s, p, pres, st, j + 1)
  }

  /** `re.search` for the full pattern, prefix included: the capture of
      the match that starts leftmost, from index `st` on. */
  function RegexSearch(s: string, p: Pattern, st: nat): Option<string>
    decreases |s| + 1 - st
  {
    if st > |s| then None
    else match TryAt(s, p, Prefixes, st, 0)
      case Some(id) => Some(id)
      case None => RegexSearch(s, p, st + 1)
  }

  /** No character of the alternatives `pres` can start the marker of
      `p`. */
  predicate MarkerOutside(p: Pattern, pres: seq<string>) {
    && |p.marker| > 0
    && forall i, j :: 0 <= i < |pres| && 0 <= j < |pres[i]| ==> pres[i][j] != p.marker[0]
  }

  /** No prefix character can start the marker of `p`. */
  predicate MarkerOutsidePrefixes(p: Pattern) {
    MarkerOutside(p, Prefixes)
  }

  /** Every pattern's marker begins with `y`, which no prefix contains. */
  lemma PatternsOutsidePrefixes(k: nat)
    requires k < |Patterns|
    ensures MarkerOutsidePrefixes(Patterns[k])
  {
    forall i, j | 0 <= i < |Prefixes| && 0 <= j < |Prefixes[i]|
      ensures Prefixes[i][j] != 'y'
    {
      assert Prefixes[i] in {"https://www.", "https://", "http://www.", "http://", "www.", ""};
    }
  }

  /** No marker starts inside an occurrence of a prefix alternative. */
  lemma NoMarkerInPrefix(s: string, p: Pattern, pres: seq<string>, st: nat, i: nat)
    requires MarkerOutside(p, pres) && i < |pres| && HasAt(s, st, pres[i])
    ensures forall pos: nat :: st <= pos < st + |pres[i]| ==> !HasAt(s, pos, p.marker)
  {
    var pre := pres[i];
    assert s[st..st + |pre|] == pre;
    forall pos: nat | st <= pos < st + |pre|
      ensures !HasAt(s, pos, p.marker)
    {
      assert s[pos] == pre[pos - st];
    }
  }

  /** When the full pattern matches at `st` with the `i`-th prefix
      alternative, its capture is that of the leftmost marker match from
      `st` on. */
  lemma PrefixedMatchIsLeftmost(s: string, p: Pattern, pres: seq<string>, st: nat, i: nat, id: string)
    requires MarkerOutside(p, pres) && i < |pres| && HasAt(s, st, pres[i])
    requires MatchAt(s, p, st + |pres[i]|) == Some(id)
    ensures IdOf(Search(s, p, st)) == Some(id)
  {
    NoMarkerInPrefix(s, p, pres, st, i);
    FirstMarkerAt(s, p, st, st + |pres[i]|, id);
  }

  /** If no marker starts in `[st, m)` and pattern `p` matches at `m`,
      the search from `st` finds that match. */
  lemma FirstMarkerAt(s: string, p: Pattern, st: nat, m: nat, id: string)
    requires st <= m && MatchAt(s, p, m) == Some(id)
    requires forall pos: nat :: st <= pos < m ==> !HasAt(s, pos, p.marker)
    ensures IdOf(Search(s, p, st)) == Some(id)
  {
  }

  /** When the attempt at `st` succeeds, its capture is that of the
      leftmost marker match from `st` on. */
  lemma AttemptIsLeftmost(s: string, p: Pattern, pres: seq<string>, st: nat, id: string)
    requires MarkerOutside(p, pres)
    ensures TryAt(s, p, pres, st, 0) == Some(id) ==> IdOf(Search(s, p, st)) == Some(id)
  {
    if TryAt(s, p, pres, st, 0) == Some(id) {
      var i :| 0 <= i < |pres| && HasAt(s, st, pres[i]) && MatchAt(s, p, st + |pres[i]|) == Some(id);
      PrefixedMatchIsLeftmost(s, p, pres, st, i, id);
    }
  }

  /** The empty prefix is the last alternative, so when no alternative
      lets the pattern match at `st`, neither does the bare marker. */
  lemma NoPrefixNoMatch(s: string, p: Pattern, st: nat)
    requires st <= |s| && TryAt(s, p, Prefixes, st, 0).None?
    ensures MatchAt(s, p, st).None?
  {
    assert Prefixes[5] == "";
    assert HasAt(s, st, Prefixes[5]);
  }

  /** Searching with the full pattern captures what searching for the
      marker alone captures. A match that starts in a prefix cannot end
      its prefix past the leftmost marker, because the marker's first
      character never occurs in a prefix; so the leftmost full match puts
      its marker on the leftmost marker that a valid ID follows. */
  lemma {:induction false} PrefixIrrelevantFrom(s: string, p: Pattern, st: nat)
    requires MarkerOutsidePrefixes(p)
    ensures RegexSearch(s, p, st) == IdOf(Search(s, p, st))
    decreases |s| + 1 - st
  {
    if st <= |s| {
      match TryAt(s, p, Prefixes, st, 0)
      case Some(id) =>
        AttemptIsLeftmost(s, p, Prefixes, st, id);
      case None =>
        NoPrefixNoMatch(s, p, st);
        PrefixIrrelevantFrom(s, p, st + 1);
    }
  }

  /** For each of the five patterns, the optional `http(s)://` and `www.`
      prefix never changes the ID `re.search` returns. */
  lemma PrefixIrrelevant(url: string, k: nat)
    requires k < |Patterns|
    ensures RegexSearch(url, Patterns[k], 0) == IdOf(Search(url, Patterns[k], 0))
  {
    PatternsOutsidePrefixes(k);
    PrefixIrrelevantFrom(url, Patterns[k], 0);
  }

  /** `extract_youtube_id` as written, with `re.search` on the full
      patterns, prefixes included: the loop over `patterns` from the
      `k`-th on returns the first capture. */
  function RegexFindFrom(url: string, k: nat): Option<string>
    requires k <= |Patterns|
    decreases |Patterns| - k
  {
    if k == |Patterns| then None
    else match RegexSearch(url, Patterns[k], 0)
      case Some(id) => Some(id)
      case None => RegexFindFrom(url, k + 1)
  }

  /** The loop over the full regular expressions returns what the loop
      over the marker-only patterns returns from the same pattern on. */
  lemma {:induction false} RegexFindFromAgrees(url: string, k: nat)
    requires k <= |Patterns|
    ensures RegexFindFrom(url, k) == match FindFrom(url, Patterns, k)
                                     case Some(f) => Some(f.id)
                                     case None => None
    decreases |Patterns| - k
  {
    if k < |Patterns| {
      PrefixIrrelevant(url, k);
      if Search(url, Patterns[k], 0).None? {
        RegexFindFromAgrees(url, k + 1);
      }
    }
  }

  /** The whole of `extract_youtube_id`, each pattern searched with its
      optional `http(s)://` and `www.` prefix, returns the ID
      `ExtractYoutubeId` characterises. */
  lemma RegexExtractIsExtract(url: string)
    ensures RegexFindFrom(url, 0) == ExtractYoutubeId(url)
  {
    RegexFindFromAgrees(url, 0);
  }
}
