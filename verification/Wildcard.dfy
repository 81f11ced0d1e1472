/** The plugin allow-list matcher: an iterative scan that backtracks only to the last star,
    against the recursive meaning of a glob pattern. */
module Wildcard {
  import opened Common

  /** `?` stands for one character, `*` for any run of characters, all else for itself. */
  predicate Glob(text: string, pattern: string)
    decreases |text| + |pattern|
  {
    if pattern == "" then text == ""
    else if pattern[0] == '*' then Glob(text, pattern[1..]) || (text != "" && Glob(text[1..], pattern))
    else text != "" && (pattern[0] == '?' || pattern[0] == text[0]) && Glob(text[1..], pattern[1..])
  }

  predicate OnlyStars(pattern: string) {
    forall i :: 0 <= i < |pattern| ==> pattern[i] == '*'
  }

  /** The scan from a loop state: `star` is the last star met and `restart` the text position
      from which it was last tried. */
  predicate Scan(text: string, pattern: string, ti: nat, pi: nat, star: Option<nat>, restart: nat)
    requires InBounds(text, pattern, ti, pi, star, restart)
    decreases |pattern| - StarRank(star), |text| - restart, |text| - ti
  {
    if ti == |text| then OnlyStars(pattern[pi..])
    else if pi < |pattern| && (pattern[pi] == '?' || pattern[pi] == text[ti]) then
      Scan(text, pattern, ti + 1, pi + 1, star, restart)
    else if pi < |pattern| && pattern[pi] == '*' then
      Scan(text, pattern, ti, pi + 1, Some(pi), ti)
    else if star.Some? then
      Scan(text, pattern, restart + 1, star.value + 1, star, restart + 1)
    else false
  }

  function StarRank(star: Option<nat>): int {
    if star.Some? then star.value else -1
  }

  predicate InBounds(text: string, pattern: string, ti: nat, pi: nat, star: Option<nat>, restart: nat) {
    && restart <= ti <= |text| && pi <= |pattern|
    && (star.Some? ==> star.value < pi)
  }

  predicate Matches(text: string, pattern: string) {
    Scan(text, pattern, 0, 0, None, 0)
  }

  /** At a star that meets another character the scan goes on behind the star. */
  lemma ScanNewStar(text: string, pattern: string, ti: nat, pi: nat, star: Option<nat>, restart: nat)
    requires InBounds(text, pattern, ti, pi, star, restart)
    requires ti < |text| && pi < |pattern| && pattern[pi] == '*' && text[ti] != '*'
    ensures Scan(text, pattern, ti, pi, star, restart) == Scan(text, pattern, ti, pi + 1, Some(pi), ti)
  {
  }

  /** At two characters that differ it restarts behind the last star, if there is one. */
  lemma ScanRestarts(text: string, pattern: string, ti: nat, pi: nat, star: Option<nat>, restart: nat)
    requires InBounds(text, pattern, ti, pi, star, restart) && ti < |text|
    requires pi < |pattern| ==> pattern[pi] != '?' && pattern[pi] != '*' && pattern[pi] != text[ti]
    ensures Scan(text, pattern, ti, pi, star, restart)
         == (star.Some? && Scan(text, pattern, restart + 1, star.value + 1, star, restart + 1))
  {
  }

  predicate StarsBetween(pattern: string, from: nat, to: nat) {
    forall i :: from <= i < to && i < |pattern| ==> pattern[i] == '*'
  }

  /** The star loop runs to the end exactly when only stars are left. */
  lemma TailIsStarsIff(pattern: string, from: nat, to: nat)
    requires from <= to <= |pattern| && StarsBetween(pattern, from, to)
    requires to < |pattern| ==> pattern[to] != '*'
    ensures OnlyStars(pattern[from..]) <==> to == |pattern|
  {
    var tail := pattern[from..];
    if to < |pattern| {
      assert tail[to - from] == pattern[to];
    } else {
      assert forall i :: 0 <= i < |tail| ==> tail[i] == pattern[from + i];
    }
  }

  method WildcardMatch(text: string, pattern: string) returns (matched: bool)
    ensures matched == Matches(text, pattern)
  {
    var ti: nat, pi: nat := 0, 0;
    var star: Option<nat> := None;
    var restart: nat := 0;
    while ti < |text|
      invariant InBounds(text, pattern, ti, pi, star, restart)
      invariant Matches(text, pattern) == Scan(text, pattern, ti, pi, star, restart)
      decreases |pattern| - StarRank(star), |text| - restart, |text| - ti
    {
      if pi < |pattern| && (pattern[pi] == '?' || pattern[pi] == text[ti]) {
        ti, pi := ti + 1, pi + 1;
        continue;
      }
      if pi < |pattern| && pattern[pi] == '*' {
        star, pi, restart := Some(pi), pi + 1, ti;
        continue;
      }
      if star.Some? {
        pi, restart := star.value + 1, restart + 1;
        ti := restart;
        continue;
      }
      return false;
    }
    ghost var tail := pi;
    while pi < |pattern| && pattern[pi] == '*'
      invariant tail <= pi <= |pattern|
      invariant StarsBetween(pattern, tail, pi)
    {
      pi := pi + 1;
    }
    TailIsStarsIff(pattern, tail, pi);
    matched := pi == |pattern|;
  }

  method MatchesAnyAllowlistPattern(name: string, patterns: seq<string>) returns (any: bool)
    ensures any <==> exists i :: 0 <= i < |patterns| && patterns[i] != "" && Matches(name, patterns[i])
    ensures any ==> exists i :: 0 <= i < |patterns| && patterns[i] != "" && Glob(name, patterns[i])
    ensures StarFree(name) ==>
              (any <==> exists i :: 0 <= i < |patterns| && patterns[i] != "" && Glob(name, patterns[i]))
  {
    if StarFree(name) {
      forall pattern
        ensures Matches(name, pattern) <==> Glob(name, pattern)
      {
        StarFreeTextMatches(name, pattern);
      }
    }
    for k := 0 to |patterns|
      invariant forall i :: 0 <= i < k ==> patterns[i] == "" || !Matches(name, patterns[i])
    {
      if patterns[k] != "" {
        var matched := WildcardMatch(name, patterns[k]);
        if matched {
          MatchIsGlob(name, patterns[k]);
          return true;
        }
      }
    }
    any := false;
  }

  // ----- texts without a star: the scan computes the glob -----

  predicate StarFree(s: string) {
    forall i :: 0 <= i < |s| ==> s[i] != '*'
  }

  /** Some restart position after `restart` lets the rest of the pattern match. */
  ghost predicate LaterRestart(text: string, pattern: string, star: Option<nat>, restart: nat) {
    star.Some? && star.value < |pattern| &&
    exists k :: restart < k <= |text| && Glob(text[k..], pattern[star.value + 1..])
  }

  /** The pattern between the last star and `pi` has no star and has just matched the text. */
  ghost predicate SegmentMatched(text: string, pattern: string, ti: nat, pi: nat, star: Option<nat>, restart: nat) {
    && InBounds(text, pattern, ti, pi, star, restart)
    && (star.Some? ==>
          && ti - restart == pi - (star.value + 1)
          && StarFree(pattern[star.value + 1..pi]))
  }

  lemma {:induction false} StarSplits(text: string, pattern: string)
    requires pattern != "" && pattern[0] == '*'
    ensures Glob(text, pattern) <==> exists k :: 0 <= k <= |text| && Glob(text[k..], pattern[1..])
    decreases |text|
  {
    assert text[0..] == text;
    if text != "" {
      StarSplits(text[1..], pattern);
      if Glob(text[1..], pattern) {
        var k :| 0 <= k <= |text[1..]| && Glob(text[1..][k..], pattern[1..]);
        assert text[1..][k..] == text[k + 1..];
      }
      if k :| 0 <= k <= |text| && Glob(text[k..], pattern[1..]) {
        if k > 0 {
          assert text[1..][k - 1..] == text[k..];
        }
      }
    }
  }

  /** A pattern that starts with `n` characters other than stars consumes `n` characters. */
  lemma {:induction false} SegmentConsumes(text: string, pattern: string, n: nat)
    requires n <= |pattern| && StarFree(pattern[..n]) && Glob(text, pattern)
    ensures n <= |text| && Glob(text[n..], pattern[n..])
    decreases n
  {
    if n == 0 {
      assert text[0..] == text && pattern[0..] == pattern;
    } else {
      assert pattern[..n][0] == pattern[0];
      assert pattern[1..][..n - 1] == pattern[..n][1..];
      SegmentConsumes(text[1..], pattern[1..], n - 1);
      assert text[1..][n - 1..] == text[n..] && pattern[1..][n - 1..] == pattern[n..];
    }
  }

  lemma {:induction false} EmptyTextGlob(pattern: string)
    ensures Glob("", pattern) <==> OnlyStars(pattern)
  {
    if pattern != "" {
      EmptyTextGlob(pattern[1..]);
      assert forall i :: 0 < i < |pattern| ==> pattern[i] == pattern[1..][i - 1];
    }
  }

  /** The greedy step: once a later star is reached, no earlier restart can do better. */
  lemma NewStarSubsumes(text: string, pattern: string, ti: nat, pi: nat, star: Option<nat>, restart: nat)
    requires SegmentMatched(text, pattern, ti, pi, star, restart)
    requires pi < |pattern| && pattern[pi] == '*'
    requires LaterRestart(text, pattern, star, restart)
    ensures Glob(text[ti..], pattern[pi..])
  {
    var from := star.value + 1;
    var n := pi - from;
    var k :| restart < k <= |text| && Glob(text[k..], pattern[from..]);
    assert pattern[from..][..n] == pattern[from..pi];
    SegmentConsumes(text[k..], pattern[from..], n);
    assert text[k..][n..] == text[k + n..] && pattern[from..][n..] == pattern[pi..];
    StarSplits(text[k + n..], pattern[pi..]);
    var j :| 0 <= j <= |text[k + n..]| && Glob(text[k + n..][j..], pattern[pi..][1..]);
    var shift := k + n + j - ti;
    assert text[k + n..][j..] == text[ti..][shift..];
    StarSplits(text[ti..], pattern[pi..]);
  }

  lemma {:induction false} ScanIsGlob(text: string, pattern: string, ti: nat, pi: nat, star: Option<nat>, restart: nat)
    requires StarFree(text)
    requires SegmentMatched(text, pattern, ti, pi, star, restart)
    ensures Scan(text, pattern, ti, pi, star, restart)
       <==> Glob(text[ti..], pattern[pi..]) || LaterRestart(text, pattern, star, restart)
    decreases |pattern| - StarRank(star), |text| - restart, |text| - ti
  {
    if ti == |text| {
      EmptyTextGlob(pattern[pi..]);
      NoLaterRestartAtEnd(text, pattern, ti, pi, star, restart);
    } else if pi < |pattern| && (pattern[pi] == '?' || pattern[pi] == text[ti]) {
      SegmentGrows(text, pattern, ti, pi, star, restart);
      ScanIsGlob(text, pattern, ti + 1, pi + 1, star, restart);
      GlobLiteral(text, pattern, ti, pi);
    } else if pi < |pattern| && pattern[pi] == '*' {
      ScanIsGlob(text, pattern, ti, pi + 1, Some(pi), ti);
      ScanNewStar(text, pattern, ti, pi, star, restart);
      NewStarReplaces(text, pattern, ti, pi, star, restart);
    } else {
      GlobLiteral(text, pattern, ti, pi);
      ScanRestarts(text, pattern, ti, pi, star, restart);
      if star.Some? {
        ScanIsGlob(text, pattern, restart + 1, star.value + 1, star, restart + 1);
        LaterRestartStep(text, pattern, star, restart);
      }
    }
  }

  /** What a state in front of a star can still match, the state behind it can, with that star in
      the place of the earlier one. */
  lemma NewStarReplaces(text: string, pattern: string, ti: nat, pi: nat, star: Option<nat>, restart: nat)
    requires SegmentMatched(text, pattern, ti, pi, star, restart)
    requires pi < |pattern| && pattern[pi] == '*'
    ensures Glob(text[ti..], pattern[pi..]) || LaterRestart(text, pattern, star, restart)
       <==> Glob(text[ti..], pattern[pi + 1..]) || LaterRestart(text, pattern, Some(pi), ti)
  {
    NewStarMeaning(text, pattern, ti, pi);
    if LaterRestart(text, pattern, star, restart) {
      NewStarSubsumes(text, pattern, ti, pi, star, restart);
    }
  }

  /** Away from stars a glob compares one character and goes on. */
  lemma GlobLiteral(text: string, pattern: string, ti: nat, pi: nat)
    requires ti < |text| && pi <= |pattern| && (pi < |pattern| ==> pattern[pi] != '*')
    ensures Glob(text[ti..], pattern[pi..])
       <==> pi < |pattern| && (pattern[pi] == '?' || pattern[pi] == text[ti]) && Glob(text[ti + 1..], pattern[pi + 1..])
  {
    assert text[ti..][1..] == text[ti + 1..];
    if pi < |pattern| {
      assert pattern[pi..][1..] == pattern[pi + 1..];
    }
  }

  /** The later restarts are the next one and the ones after it. */
  lemma LaterRestartStep(text: string, pattern: string, star: Option<nat>, restart: nat)
    requires star.Some? && star.value < |pattern| && restart < |text|
    ensures LaterRestart(text, pattern, star, restart)
       <==> Glob(text[restart + 1..], pattern[star.value + 1..]) || LaterRestart(text, pattern, star, restart + 1)
  {
    var from := pattern[star.value + 1..];
    if Glob(text[restart + 1..], from) {
      assert restart < restart + 1 <= |text| && Glob(text[restart + 1..], from);
    }
  }

  lemma SegmentGrows(text: string, pattern: string, ti: nat, pi: nat, star: Option<nat>, restart: nat)
    requires SegmentMatched(text, pattern, ti, pi, star, restart)
    requires ti < |text| && pi < |pattern| && pattern[pi] != '*'
    ensures SegmentMatched(text, pattern, ti + 1, pi + 1, star, restart)
  {
    if star.Some? {
      assert pattern[star.value + 1..pi + 1] == pattern[star.value + 1..pi] + [pattern[pi]];
    }
  }

  lemma NewStarMeaning(text: string, pattern: string, ti: nat, pi: nat)
    requires ti <= |text| && pi < |pattern| && pattern[pi] == '*'
    ensures Glob(text[ti..], pattern[pi..])
       <==> Glob(text[ti..], pattern[pi + 1..]) || LaterRestart(text, pattern, Some(pi), ti)
  {
    StarSplits(text[ti..], pattern[pi..]);
    assert pattern[pi..][1..] == pattern[pi + 1..];
    assert text[ti..][0..] == text[ti..];
    assert forall k :: 0 <= k <= |text| - ti ==> text[ti..][k..] == text[ti + k..];
    if LaterRestart(text, pattern, Some(pi), ti) {
      var k :| ti < k <= |text| && Glob(text[k..], pattern[pi + 1..]);
      assert text[ti..][k - ti..] == text[k..];
    }
  }

  lemma NoLaterRestartAtEnd(text: string, pattern: string, ti: nat, pi: nat, star: Option<nat>, restart: nat)
    requires SegmentMatched(text, pattern, ti, pi, star, restart) && ti == |text|
    ensures !LaterRestart(text, pattern, star, restart)
  {
    if LaterRestart(text, pattern, star, restart) {
      var from := star.value + 1;
      var k :| restart < k <= |text| && Glob(text[k..], pattern[from..]);
      assert pattern[from..][..pi - from] == pattern[from..pi];
      SegmentConsumes(text[k..], pattern[from..], pi - from);
      assert false;
    }
  }

  // ----- every match is a glob match -----

  lemma StarAbsorbsOne(text: string, pattern: string)
    requires text != "" && pattern != "" && pattern[0] == '*' && Glob(text[1..], pattern[1..])
    ensures Glob(text, pattern)
  {
  }

  /** From any loop state, a scan that succeeds is justified by the rest of the text or by a later
      restart, also when stars in the text are taken literally. */
  lemma {:induction false} ScanIsSound(text: string, pattern: string, ti: nat, pi: nat, star: Option<nat>, restart: nat)
    requires InBounds(text, pattern, ti, pi, star, restart) && Scan(text, pattern, ti, pi, star, restart)
    ensures Glob(text[ti..], pattern[pi..]) || LaterRestart(text, pattern, star, restart)
    decreases |pattern| - StarRank(star), |text| - restart, |text| - ti
  {
    if ti == |text| {
      EmptyTextGlob(pattern[pi..]);
    } else if pi < |pattern| && (pattern[pi] == '?' || pattern[pi] == text[ti]) {
      ScanIsSound(text, pattern, ti + 1, pi + 1, star, restart);
      assert text[ti..][1..] == text[ti + 1..] && pattern[pi..][1..] == pattern[pi + 1..];
      if pattern[pi] == '*' && Glob(text[ti + 1..], pattern[pi + 1..]) {
        StarAbsorbsOne(text[ti..], pattern[pi..]);
      }
    } else if pi < |pattern| && pattern[pi] == '*' {
      ScanIsSound(text, pattern, ti, pi + 1, Some(pi), ti);
      NewStarMeaning(text, pattern, ti, pi);
    } else if star.Some? {
      ScanIsSound(text, pattern, restart + 1, star.value + 1, star, restart + 1);
    }
  }

  /** Whatever the matcher accepts is a glob match, for all texts and patterns. */
  lemma MatchIsGlob(text: string, pattern: string)
    requires Matches(text, pattern)
    ensures Glob(text, pattern)
  {
    ScanIsSound(text, pattern, 0, 0, None, 0);
    assert text[0..] == text && pattern[0..] == pattern;
  }

  // ----- what the matcher decides for every text and pattern -----

  predicate Agrees(ch: char, p: char) {
    p == '?' || p == ch
  }

  /** How far the text from `t` on and the pattern from `p` on agree, a star being an ordinary
      character. */
  function Agreement(text: string, pattern: string, t: nat, p: nat): (n: nat)
    requires t <= |text| && p <= |pattern|
    ensures t + n <= |text| && p + n <= |pattern|
    ensures t + n < |text| && p + n < |pattern| ==> !Agrees(text[t + n], pattern[p + n])
    decreases |text| - t
  {
    if t < |text| && p < |pattern| && Agrees(text[t], pattern[p]) then 1 + Agreement(text, pattern, t + 1, p + 1)
    else 0
  }

  /** The pattern is followed as far as it agrees.  A star that meets another character commits:
      what is in front of it is settled, and it absorbs text up to the leftmost place from which
      the rest can be followed to the end of the text or to the next star that commits. */
  predicate Accepts(text: string, pattern: string, t: nat, p: nat, behindStar: bool)
    requires t <= |text| && p <= |pattern|
    decreases |pattern| - p, |text| - t
  {
    var n := Agreement(text, pattern, t, p);
    if t + n == |text| then OnlyStars(pattern[p + n..])
    else if p + n < |pattern| && pattern[p + n] == '*' then Accepts(text, pattern, t + n, p + n + 1, true)
    else behindStar && Accepts(text, pattern, t + 1, p, true)
  }

  predicate AgreeFor(text: string, pattern: string, t: nat, p: nat, n: nat) {
    && t + n <= |text| && p + n <= |pattern|
    && forall i :: t <= i < t + n ==> Agrees(text[i], pattern[i - t + p])
  }

  lemma {:induction false} AgreementIs(text: string, pattern: string, t: nat, p: nat, n: nat)
    requires AgreeFor(text, pattern, t, p, n)
    requires t + n < |text| && p + n < |pattern| ==> !Agrees(text[t + n], pattern[p + n])
    ensures Agreement(text, pattern, t, p) == n
    decreases n
  {
    if n > 0 {
      assert Agrees(text[t], pattern[t - t + p]);
      AgreementIs(text, pattern, t + 1, p + 1, n - 1);
    }
  }

  /** Where in the pattern the attempt of a loop state began; in the text it began at the restart. */
  function AttemptStart(star: Option<nat>): nat {
    if star.Some? then star.value + 1 else 0
  }

  /** The current attempt has agreed so far. */
  predicate Attempting(text: string, pattern: string, ti: nat, pi: nat, star: Option<nat>, restart: nat) {
    && InBounds(text, pattern, ti, pi, star, restart)
    && ti - restart == pi - AttemptStart(star)
    && AgreeFor(text, pattern, restart, AttemptStart(star), ti - restart)
  }

  /** The attempt has come to its end: at the end of the text, at a star that commits, or at two
      characters that differ. */
  predicate AttemptOver(text: string, pattern: string, ti: nat, pi: nat, star: Option<nat>, restart: nat) {
    && InBounds(text, pattern, ti, pi, star, restart)
    && ti - restart == pi - AttemptStart(star)
    && Agreement(text, pattern, restart, AttemptStart(star)) == ti - restart
    && (ti < |text| && pi < |pattern| ==> !Agrees(text[ti], pattern[pi]))
  }

  /** In every loop state the scan decides what is accepted from the start of its attempt. */
  lemma {:induction false} ScanAccepts(text: string, pattern: string, ti: nat, pi: nat, star: Option<nat>, restart: nat)
    requires Attempting(text, pattern, ti, pi, star, restart)
    ensures Scan(text, pattern, ti, pi, star, restart)
       <==> Accepts(text, pattern, restart, AttemptStart(star), star.Some?)
    decreases |pattern| - StarRank(star), |text| - restart, |text| - ti, 1
  {
    if ti < |text| && pi < |pattern| && Agrees(text[ti], pattern[pi]) {
      ScanAcceptsOn(text, pattern, ti, pi, star, restart);
    } else {
      AgreementIs(text, pattern, restart, AttemptStart(star), ti - restart);
      if ti < |text| {
        if pi < |pattern| && pattern[pi] == '*' {
          ScanAcceptsAtStar(text, pattern, ti, pi, star, restart);
        } else {
          ScanAcceptsElsewhere(text, pattern, ti, pi, star, restart);
        }
      }
    }
  }

  lemma {:induction false} ScanAcceptsOn(text: string, pattern: string, ti: nat, pi: nat, star: Option<nat>,
                                         restart: nat)
    requires Attempting(text, pattern, ti, pi, star, restart)
    requires ti < |text| && pi < |pattern| && Agrees(text[ti], pattern[pi])
    ensures Scan(text, pattern, ti, pi, star, restart)
       <==> Accepts(text, pattern, restart, AttemptStart(star), star.Some?)
    decreases |pattern| - StarRank(star), |text| - restart, |text| - ti, 0
  {
    assert Attempting(text, pattern, ti + 1, pi + 1, star, restart);
    ScanAccepts(text, pattern, ti + 1, pi + 1, star, restart);
  }

  lemma AcceptsAtStar(text: string, pattern: string, t: nat, p: nat, behindStar: bool, n: nat)
    requires t + n < |text| && p + n < |pattern| && pattern[p + n] == '*' && Agreement(text, pattern, t, p) == n
    ensures Accepts(text, pattern, t, p, behindStar) <==> Accepts(text, pattern, t + n, p + n + 1, true)
  {
  }

  lemma AcceptsElsewhere(text: string, pattern: string, t: nat, p: nat, behindStar: bool, n: nat)
    requires t + n < |text| && p + n <= |pattern| && Agreement(text, pattern, t, p) == n
    requires p + n < |pattern| ==> pattern[p + n] != '*'
    ensures Accepts(text, pattern, t, p, behindStar) <==> behindStar && Accepts(text, pattern, t + 1, p, true)
  {
  }

  lemma {:induction false} ScanAcceptsAtStar(text: string, pattern: string, ti: nat, pi: nat, star: Option<nat>,
                                             restart: nat)
    requires AttemptOver(text, pattern, ti, pi, star, restart)
    requires ti < |text| && pi < |pattern| && pattern[pi] == '*'
    ensures Scan(text, pattern, ti, pi, star, restart)
       <==> Accepts(text, pattern, restart, AttemptStart(star), star.Some?)
    decreases |pattern| - StarRank(star), |text| - restart, |text| - ti, 0
  {
    AcceptsAtStar(text, pattern, restart, AttemptStart(star), star.Some?, ti - restart);
    ScanNewStar(text, pattern, ti, pi, star, restart);
    ScanAccepts(text, pattern, ti, pi + 1, Some(pi), ti);
  }

  lemma {:induction false} ScanAcceptsElsewhere(text: string, pattern: string, ti: nat, pi: nat, star: Option<nat>,
                                                restart: nat)
    requires AttemptOver(text, pattern, ti, pi, star, restart)
    requires ti < |text| && (pi < |pattern| ==> pattern[pi] != '*')
    ensures Scan(text, pattern, ti, pi, star, restart)
       <==> Accepts(text, pattern, restart, AttemptStart(star), star.Some?)
    decreases |pattern| - StarRank(star), |text| - restart, |text| - ti, 0
  {
    AcceptsElsewhere(text, pattern, restart, AttemptStart(star), star.Some?, ti - restart);
    ScanRestarts(text, pattern, ti, pi, star, restart);
    if star.Some? {
      ScanAccepts(text, pattern, restart + 1, star.value + 1, star, restart + 1);
    }
  }

  /** The matcher's verdict in terms of the text and the pattern alone, stars or not. */
  lemma MatchesIffAccepts(text: string, pattern: string)
    ensures Matches(text, pattern) <==> Accepts(text, pattern, 0, 0, false)
  {
    ScanAccepts(text, pattern, 0, 0, None, 0);
  }

  // ----- exactly when the matcher is a glob -----

  lemma StarFreeTextMatches(text: string, pattern: string)
    requires StarFree(text)
    ensures Matches(text, pattern) <==> Glob(text, pattern)
  {
    ScanIsGlob(text, pattern, 0, 0, None, 0);
    assert text[0..] == text && pattern[0..] == pattern;
  }

  /** Without a star in the pattern the scan never backtracks. */
  lemma {:induction false} StarFreePatternScans(text: string, pattern: string, ti: nat, pi: nat)
    requires StarFree(pattern) && ti <= |text| && pi <= |pattern|
    ensures Scan(text, pattern, ti, pi, None, 0) <==> Glob(text[ti..], pattern[pi..])
    decreases |text| - ti
  {
    if ti == |text| {
      EmptyTextGlob(pattern[pi..]);
    } else if pi < |pattern| && (pattern[pi] == '?' || pattern[pi] == text[ti]) {
      StarFreePatternScans(text, pattern, ti + 1, pi + 1);
      assert text[ti..][1..] == text[ti + 1..] && pattern[pi..][1..] == pattern[pi + 1..];
    }
  }

  function Repeat(ch: char, n: nat): (s: string)
    ensures |s| == n && forall i :: 0 <= i < n ==> s[i] == ch
  {
    seq(n, _ => ch)
  }

  function StarAndMarks(k: nat): string {
    "*" + Repeat('?', k)
  }

  /** The pattern that exposes a star at position `i` of a text: the star of the text is taken
      literally, which leaves one question mark too many. */
  function ExposingPattern(n: nat, i: nat): string
    requires i < n
  {
    Repeat('?', i) + StarAndMarks(n - i)
  }

  lemma {:induction false} QuestionMarksGlob(text: string, k: nat)
    ensures Glob(text, Repeat('?', k)) <==> |text| == k
    decreases k
  {
    if k > 0 && text != "" {
      assert Repeat('?', k)[1..] == Repeat('?', k - 1);
      QuestionMarksGlob(text[1..], k - 1);
    }
  }

  lemma {:induction false} QuestionMarksThen(text: string, rest: string, k: nat)
    requires k <= |text|
    ensures Glob(text, Repeat('?', k) + rest) <==> Glob(text[k..], rest)
    decreases k
  {
    var pattern := Repeat('?', k) + rest;
    if k == 0 {
      assert pattern == rest && text[0..] == text;
    } else {
      assert pattern[1..] == Repeat('?', k - 1) + rest;
      QuestionMarksThen(text[1..], rest, k - 1);
      assert text[1..][k - 1..] == text[k..];
    }
  }

  lemma {:induction false} LiteralScanStaysBehind(text: string, pattern: string, ti: nat, pi: nat)
    requires ti <= |text| && pi <= |pattern|
    requires |text| - ti < |pattern| - pi
    requires StarFree(pattern[pi..])
    ensures !Scan(text, pattern, ti, pi, None, 0)
    decreases |text| - ti
  {
    assert pattern[pi..][0] == pattern[pi];
    if ti < |text| && (pattern[pi] == '?' || pattern[pi] == text[ti]) {
      assert pattern[pi + 1..] == pattern[pi..][1..];
      LiteralScanStaysBehind(text, pattern, ti + 1, pi + 1);
    }
  }

  /** While pattern and text agree character by character the scan advances in step. */
  lemma {:induction false} ScanInStep(text: string, pattern: string, ti: nat, n: nat)
    requires n <= |text| && n <= |pattern| && ti <= n
    requires forall i :: 0 <= i < n ==> pattern[i] == '?' || pattern[i] == text[i]
    ensures Scan(text, pattern, ti, ti, None, 0) == Scan(text, pattern, n, n, None, 0)
    decreases n - ti
  {
    if ti < n {
      ScanInStep(text, pattern, ti + 1, n);
    }
  }

  lemma StarInTextExposed(text: string, i: nat)
    requires i < |text| && text[i] == '*'
    ensures var p := ExposingPattern(|text|, i); Glob(text, p) && !Matches(text, p)
  {
    ExposingPatternGlobs(text, i);
    ExposingPatternShape(|text|, i);
    StarTakenLiterally(text, ExposingPattern(|text|, i), i);
  }

  lemma ExposingPatternShape(n: nat, i: nat)
    requires i < n
    ensures |ExposingPattern(n, i)| == n + 1 && ExposingPattern(n, i)[i] == '*'
    ensures forall j :: 0 <= j <= n && j != i ==> ExposingPattern(n, i)[j] == '?'
  {
  }

  lemma StarTakenLiterally(text: string, pattern: string, i: nat)
    requires i < |text| && text[i] == '*' && |pattern| == |text| + 1 && pattern[i] == '*'
    requires forall j :: 0 <= j < |pattern| && j != i ==> pattern[j] == '?'
    ensures !Matches(text, pattern)
  {
    ScanInStep(text, pattern, 0, i + 1);
    LiteralScanStaysBehind(text, pattern, i + 1, i + 1);
  }

  lemma ExposingPatternGlobs(text: string, i: nat)
    requires i < |text|
    ensures Glob(text, ExposingPattern(|text|, i))
  {
    assert Glob(text[i..], StarAndMarks(|text| - i)) by {
      QuestionMarksGlob(text[i..], |text| - i);
      LeadingStar(text[i..], Repeat('?', |text| - i));
    }
    QuestionMarksThen(text, StarAndMarks(|text| - i), i);
  }

  lemma LeadingStar(text: string, rest: string)
    requires Glob(text, rest)
    ensures Glob(text, "*" + rest)
  {
  }

  /** For a fixed text the matcher agrees with every glob pattern exactly when the text has no
      star. */
  lemma MatcherIsGlobIffTextStarFree(text: string)
    ensures (forall pattern :: Matches(text, pattern) <==> Glob(text, pattern)) <==> StarFree(text)
  {
    if StarFree(text) {
      forall pattern
        ensures Matches(text, pattern) <==> Glob(text, pattern)
      {
        StarFreeTextMatches(text, pattern);
      }
    } else {
      var i :| 0 <= i < |text| && text[i] == '*';
      StarInTextExposed(text, i);
    }
  }

  lemma {:induction false} LiteralThenGlob(text: string, pattern: string, n: nat)
    requires n <= |text| && n <= |pattern| && text[..n] == pattern[..n]
    requires Glob(text[n..], pattern[n..])
    ensures Glob(text, pattern)
    decreases n
  {
    if n == 0 {
      assert text[0..] == text && pattern[0..] == pattern;
    } else {
      assert text[..n][0] == pattern[..n][0];
      assert text[1..][..n - 1] == text[..n][1..] == pattern[..n][1..] == pattern[1..][..n - 1];
      assert text[1..][n - 1..] == text[n..] && pattern[1..][n - 1..] == pattern[n..];
      LiteralThenGlob(text[1..], pattern[1..], n - 1);
      if pattern[0] == '*' {
        StarAbsorbsOne(text, pattern);
      }
    }
  }

  lemma LastStar(pattern: string) returns (n: nat)
    requires !StarFree(pattern)
    ensures n < |pattern| && pattern[n] == '*' && StarFree(pattern[n + 1..])
  {
    n :| n < |pattern| && pattern[n] == '*';
    while !StarFree(pattern[n + 1..])
      invariant n < |pattern| && pattern[n] == '*'
      decreases |pattern| - n
    {
      var j :| 0 <= j < |pattern[n + 1..]| && pattern[n + 1..][j] == '*';
      n := n + 1 + j;
    }
  }

  /** A pattern with a star fails on a text that repeats the pattern and adds one character
      after its last star: every star is then consumed literally. */
  lemma StarInPatternExposed(pattern: string) returns (text: string)
    requires !StarFree(pattern)
    ensures Glob(text, pattern) && !Matches(text, pattern)
  {
    var n := LastStar(pattern);
    var tail := pattern[n + 1..];
    text := pattern[..n + 1] + "x" + tail;

    assert text[..n] == pattern[..n];
    assert text[n..] == "*" + "x" + tail;
    var after := text[n..];
    assert pattern[n..][1..] == tail;
    StarSplits(after, pattern[n..]);
    assert after[2..] == tail;
    SelfGlob(tail);
    LiteralThenGlob(text, pattern, n);

    assert text[..n + 1] == pattern[..n + 1];
    forall i | 0 <= i < n + 1
      ensures pattern[i] == text[i]
    {
      assert text[..n + 1][i] == pattern[..n + 1][i];
    }
    ScanInStep(text, pattern, 0, n + 1);
    TooLongNeverScans(text, pattern, n + 1, n + 1);
  }

  lemma SelfGlob(s: string)
    ensures Glob(s, s)
  {
  }

  lemma {:induction false} TooLongNeverScans(text: string, pattern: string, ti: nat, pi: nat)
    requires ti <= |text| && pi <= |pattern| && |text| - ti > |pattern| - pi
    requires StarFree(pattern[pi..])
    ensures !Scan(text, pattern, ti, pi, None, 0)
    decreases |text| - ti
  {
    if pi < |pattern| {
      assert pattern[pi..][0] == pattern[pi];
      if pattern[pi] == '?' || pattern[pi] == text[ti] {
        assert pattern[pi + 1..] == pattern[pi..][1..];
        TooLongNeverScans(text, pattern, ti + 1, pi + 1);
      }
    }
  }

  /** For a fixed pattern the matcher agrees on every text exactly when the pattern has no star. */
  lemma MatcherIsGlobIffPatternStarFree(pattern: string)
    ensures (forall text :: Matches(text, pattern) <==> Glob(text, pattern)) <==> StarFree(pattern)
  {
    if StarFree(pattern) {
      forall text
        ensures Matches(text, pattern) <==> Glob(text, pattern)
      {
        StarFreePatternScans(text, pattern, 0, 0);
        assert text[0..] == text && pattern[0..] == pattern;
      }
    } else {
      var text := StarInPatternExposed(pattern);
    }
  }
}
