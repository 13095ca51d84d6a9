/**
 What range rules accept, told by characters: a set of characters with or without escapes, and a
 text between a start and an end. How far such rules reach into an input, and the tokens they make.
 */
module TokenizerRanges {
  import opened Common
  import opened StringSearch
  import opened Tokenizer
  import opened TokenizerRun
  import opened TokenizerSlots
  import opened TokenizerLongest
  import Munch = TokenizerMunch

  // ---- the characters of a range ----

  /** How many backslashes stand directly in front of position k. */
  function Backslashes(s: Text, k: nat): nat
    requires k <= |s|
  {
    if 0 < k && s[k - 1] == '\\' then 1 + Backslashes(s, k - 1) else 0
  }

  /**
   A character of the set that is no newline; with escapes also a backslash, and whatever stands
   behind an odd number of them.
   */
  predicate Takes(rule: Rule, s: Text, k: nat)
    requires rule.Range? && k < |s|
  {
    && s[k] != '\n' && s[k] != '\r'
    && (s[k] in rule.text || (rule.useEscape && (s[k] == '\\' || Backslashes(s, k) % 2 == 1)))
  }

  lemma {:induction false} EscapedIff(rule: Rule, s: Text, k: nat)
    requires rule.Range? && k <= |s| && forall j | 0 <= j < k :: s[j] != '\n' && s[j] != '\r'
    ensures EscapedAt(rule, s, k) <==> rule.useEscape && Backslashes(s, k) % 2 == 1
    decreases k
  {
    if 0 < k { EscapedIff(rule, s, k - 1); }
  }

  /** With a set, exactly the texts whose characters it takes are admitted. */
  lemma AllTakenIff(rule: Rule, s: Text)
    requires rule.Range? && rule.text != []
    ensures (forall k | 0 <= k < |s| :: AdmittedAt(rule, s, k)) <==> (forall k | 0 <= k < |s| :: Takes(rule, s, k))
    ensures s != [] ==> (AdmittedAt(rule, s, 0) <==> Takes(rule, s, 0))
  {
    hide EscapedAt, Backslashes;
    if forall j | 0 <= j < |s| :: s[j] != '\n' && s[j] != '\r' {
      forall k | 0 <= k < |s| ensures AdmittedAt(rule, s, k) <==> Takes(rule, s, k) { EscapedIff(rule, s, k); }
    } else {
      var j :| 0 <= j < |s| && (s[j] == '\n' || s[j] == '\r');
      assert !AdmittedAt(rule, s, j) && !Takes(rule, s, j);
    }
    if s != [] { EscapedIff(rule, s, 0); }
  }

  /**
   Behind its start: what the end says, if that says something. Otherwise the range goes on while
   every character is taken, has overrun if only some later one is not, and fails if the first is not.
   */
  lemma RangeStates(rule: Rule, s: Text)
    requires rule.Range? && rule.text != [] && s != []
    ensures var end := EndState(rule.endsWith, s, rule.useEscape); var state := RangeState(rule, rule.startsWith + s);
      && (end != Partial ==> state == end)
      && (end == Partial && (forall k | 0 <= k < |s| :: Takes(rule, s, k)) ==> state == Partial)
      && (end == Partial && Takes(rule, s, 0) && (exists k | 0 <= k < |s| :: !Takes(rule, s, k)) ==> state == Overrun)
      && (end == Partial && !Takes(rule, s, 0) ==> state == Invalid)
  {
    hide EndState, AdmittedAt, Takes;
    BehindStart(rule, s);
    AllTakenIff(rule, s);
  }

  lemma BehindStart(rule: Rule, s: Text)
    requires rule.Range? && s != []
    ensures RangeState(rule, rule.startsWith + s) == BodyState(rule, s)
  {
    var seen := rule.startsWith + s;
    assert seen[|rule.startsWith|..] == s && seen[..|rule.startsWith|] == rule.startsWith;
  }

  /** Without a set nothing but the end matters. */
  lemma OpenRangeStates(rule: Rule, s: Text)
    requires rule.Range? && rule.text == [] && s != []
    ensures RangeState(rule, rule.startsWith + s) == EndState(rule.endsWith, s, rule.useEscape)
  {
    hide EndState;
    BehindStart(rule, s);
  }

  /** The start is taken character by character, and what differs from it fails. */
  lemma StartStates(rule: Rule, seen: Text)
    requires rule.Range? && |seen| <= |rule.startsWith| && seen != []
    ensures RangeState(rule, seen) == if seen <= rule.startsWith then Partial else Invalid
  {
  }

  // ---- how far rules reach ----

  lemma ReachIs(rule: Rule, rest: Text, n: nat)
    requires SolidRule(rule) && !CanRepeat(rule) && n <= |rest|
    requires GoesOnAt(rule, rest, n) && (n < |rest| ==> !GoesOnAt(rule, rest, n + 1))
    ensures Reach(rule, rest) == n
    ensures Matched(rule, rest) <==> n < |rest| && StateAfter(rule, rest, n + 1) == Overrun
  {
    hide CanRepeat, StateOf, StateAfter, Reach;
    ReachMeans(rule, rest, n);
    if n < |rest| { ReachMeans(rule, rest, n + 1); }
  }

  /** As long as a rule has not failed, its state is what the characters so far say. */
  lemma {:induction false} StateIs(rule: Rule, rest: Text, n: nat)
    requires 0 < n <= |rest| && forall k | 0 < k < n :: StateOf(rule, rest[..k]) != Invalid
    ensures StateAfter(rule, rest, n) == StateOf(rule, rest[..n])
    decreases n
  {
    hide StateOf;
    if 1 < n { StateIs(rule, rest, n - 1); }
  }

  /** An exact rule reaches as far as its text and the input agree, and matches if that is the whole text. */
  lemma ExactReach(rule: Rule, rest: Text, n: nat)
    requires rule.Exact? && rule.text != [] && n <= |rest|
    requires rest[..n] <= rule.text && (n < |rest| ==> !(rest[..n + 1] <= rule.text))
    ensures Reach(rule, rest) == n
    ensures Matched(rule, rest) <==> n == |rule.text| && n < |rest|
  {
    hide StateAfter, Reach, Matched;
    Munch.ExactAfter(rule, rest, n);
    if n < |rest| {
      Munch.ExactAfter(rule, rest, n + 1);
      if n < |rule.text| { assert !(rule.text <= rest[..n + 1]) by { AgreeTo(rule.text, rest, n); } }
      if n == |rule.text| { assert rest[..n + 1][..n] == rest[..n] == rule.text; }
    }
    ReachIs(rule, rest, n);
  }

  lemma AgreeTo(text: Text, rest: Text, n: nat)
    requires n < |rest| && n < |text| && rest[..n] <= text && !(rest[..n + 1] <= text)
    ensures !(text <= rest[..n + 1])
  {
    var front := rest[..n + 1];
    assert text <= front ==> text == front;
  }

  /** A set of characters behind a start, without end and escapes. */
  predicate IsRun(rule: Rule) {
    rule.Range? && rule.text != [] && rule.endsWith == [] && !rule.useEscape
  }

  predicate InSet(rule: Rule, c: char)
    requires rule.Range?
  {
    c in rule.text && c != '\n' && c != '\r'
  }

  /** The input goes on with the start and then r characters of the set, and no more. */
  predicate RunsTo(rule: Rule, rest: Text, r: nat)
    requires rule.Range?
  {
    var from := |rule.startsWith|;
    && rule.startsWith <= rest && from + r <= |rest|
    && (forall k | from <= k < from + r :: InSet(rule, rest[k]))
    && (from + r < |rest| ==> !InSet(rule, rest[from + r]))
  }

  lemma RunStates(rule: Rule, rest: Text, r: nat, n: nat)
    requires IsRun(rule) && RunsTo(rule, rest, r) && 0 < n <= |rest| && n <= |rule.startsWith| + r + 1
    ensures StateOf(rule, rest[..n]) ==
      if n <= |rule.startsWith| + r then Partial else if 0 < r then Overrun else Invalid
  {
    hide RangeState, EndState, ExactState;
    var from := |rule.startsWith|;
    if n <= from {
      StartStates(rule, rest[..n]);
      assert rest[..from] == rule.startsWith && rest[..n] == rest[..from][..n];
    } else {
      var s := rest[from..n];
      assert rest[..n] == rule.startsWith + s by { assert rest[..from] == rule.startsWith; }
      NoEnd(s);
      forall k | 0 <= k < |s| ensures Takes(rule, s, k) <==> InSet(rule, rest[from + k]) {
        assert s[k] == rest[from + k];
      }
      RangeStates(rule, s);
      if n == from + r + 1 { assert !Takes(rule, s, r); }
    }
  }

  lemma NoEnd(s: Text)
    ensures EndState([], s, false) == Partial
  {
  }

  /** It reaches to the end of the run, and matches if the run is not empty and something follows. */
  lemma RunReach(rule: Rule, rest: Text, r: nat)
    requires IsRun(rule) && RunsTo(rule, rest, r)
    ensures Reach(rule, rest) == |rule.startsWith| + r
    ensures Matched(rule, rest) <==> 0 < r && |rule.startsWith| + r < |rest|
  {
    hide StateOf, Reach, Matched, RunsTo;
    var n := |rule.startsWith| + r;
    RunFits(rule, rest, r);
    forall k | 0 < k <= n ensures StateOf(rule, rest[..k]) == Partial { RunStates(rule, rest, r, k); }
    if 0 < n { StateIs(rule, rest, n); }
    if n < |rest| {
      RunStates(rule, rest, r, n + 1);
      StateIs(rule, rest, n + 1);
    }
    ReachIs(rule, rest, n);
  }

  lemma RunFits(rule: Rule, rest: Text, r: nat)
    requires rule.Range? && RunsTo(rule, rest, r)
    ensures |rule.startsWith| + r <= |rest|
  {
  }

  /** Any text between a start and an end, without escapes. */
  predicate IsQuoted(rule: Rule) {
    rule.Range? && rule.text == [] && rule.endsWith != [] && !rule.useEscape
  }

  /** The input goes on with the start, and the first end behind it is the one at q. */
  predicate EndsFirstAt(rule: Rule, rest: Text, q: nat)
    requires rule.Range?
  {
    && rule.startsWith <= rest && |rule.startsWith| <= q && MatchesAt(rest, q, rule.endsWith)
    && forall j: nat | |rule.startsWith| <= j < q :: !MatchesAt(rest, j, rule.endsWith)
  }

  lemma QuotedStates(rule: Rule, rest: Text, q: nat, n: nat)
    requires IsQuoted(rule) && EndsFirstAt(rule, rest, q) && 0 < n <= |rest|
    ensures StateOf(rule, rest[..n]) ==
      if n < q + |rule.endsWith| then Partial else if n == q + |rule.endsWith| then Complete else Overrun
  {
    hide RangeState, EndState, ExactState, NextMatch;
    var from := |rule.startsWith|;
    if n <= from {
      StartStates(rule, rest[..n]);
      assert rest[..from] == rule.startsWith && rest[..n] == rest[..from][..n];
    } else {
      var s := rest[from..n];
      assert rest[..n] == rule.startsWith + s by { assert rest[..from] == rule.startsWith; }
      OpenRangeStates(rule, s);
      forall j: nat | j + |rule.endsWith| <= |s|
        ensures MatchesAt(s, j, rule.endsWith) <==> MatchesAt(rest, from + j, rule.endsWith)
      {
        SliceOfSlice(rest, from, n, j, j + |rule.endsWith|);
      }
      FirstEndState(rule.endsWith, s, q - from);
    }
  }

  lemma FirstEndState(end: Text, s: Text, q: nat)
    requires end != [] && forall j: nat | j < q :: !MatchesAt(s, j, end)
    requires q + |end| <= |s| ==> MatchesAt(s, q, end)
    ensures EndState(end, s, false) ==
      if |s| < q + |end| then Partial else if |s| == q + |end| then Complete else Overrun
  {
    hide MatchesAt;
    EndInside(s, end);
  }

  lemma EndInside(s: Text, end: Text)
    ensures forall j: nat | MatchesAt(s, j, end) :: j + |end| <= |s|
  {
  }

  /** It reaches to the end of the first end, and matches if something follows. */
  lemma QuotedReach(rule: Rule, rest: Text, q: nat)
    requires IsQuoted(rule) && EndsFirstAt(rule, rest, q)
    ensures Reach(rule, rest) == q + |rule.endsWith|
    ensures Matched(rule, rest) <==> q + |rule.endsWith| < |rest|
  {
    hide StateOf, Reach, Matched, MatchesAt;
    var n := q + |rule.endsWith|;
    EndInside(rest, rule.endsWith);
    forall k | 0 < k <= |rest| ensures StateOf(rule, rest[..k]) !in {Invalid} { QuotedStates(rule, rest, q, k); }
    StateIs(rule, rest, n);
    QuotedStates(rule, rest, q, n);
    if n < |rest| {
      StateIs(rule, rest, n + 1);
      QuotedStates(rule, rest, q, n + 1);
    }
    ReachIs(rule, rest, n);
  }

  /** Without an end behind the start it never stops. */
  lemma QuotedOpenReach(rule: Rule, rest: Text)
    requires IsQuoted(rule) && rule.startsWith <= rest
    requires forall j: nat | |rule.startsWith| <= j :: !MatchesAt(rest, j, rule.endsWith)
    ensures Reach(rule, rest) == |rest|
  {
    hide StateOf, Reach, Matched, MatchesAt;
    forall k | 0 < k <= |rest| ensures StateOf(rule, rest[..k]) == Partial { QuotedOpenStates(rule, rest, k); }
    if rest != [] { StateIs(rule, rest, |rest|); }
    ReachIs(rule, rest, |rest|);
  }

  lemma QuotedOpenStates(rule: Rule, rest: Text, n: nat)
    requires IsQuoted(rule) && rule.startsWith <= rest && 0 < n <= |rest|
    requires forall j: nat | |rule.startsWith| <= j :: !MatchesAt(rest, j, rule.endsWith)
    ensures StateOf(rule, rest[..n]) == Partial
  {
    hide RangeState, EndState, ExactState, NextMatch;
    var from := |rule.startsWith|;
    if n <= from {
      StartStates(rule, rest[..n]);
      assert rest[..from] == rule.startsWith && rest[..n] == rest[..from][..n];
    } else {
      var s := rest[from..n];
      assert rest[..n] == rule.startsWith + s by { assert rest[..from] == rule.startsWith; }
      OpenRangeStates(rule, s);
      forall j: nat | j + |rule.endsWith| <= |s| ensures !MatchesAt(s, j, rule.endsWith) {
        SliceOfSlice(rest, from, n, j, j + |rule.endsWith|);
        assert !MatchesAt(rest, from + j, rule.endsWith);
      }
      FirstEndState(rule.endsWith, s, |s|);
    }
  }

  // ---- the tokens of one rule ----

  /** The run that the input goes on with at a position. */
  function Run(rule: Rule, str: Text, from: nat): (r: nat)
    requires rule.Range? && from <= |str|
    ensures from + r <= |str|
    ensures forall k | from <= k < from + r :: InSet(rule, str[k])
    ensures from + r < |str| ==> !InSet(rule, str[from + r])
    decreases |str| - from
  {
    if from < |str| && InSet(rule, str[from]) then 1 + Run(rule, str, from + 1) else 0
  }

  lemma OneRule(rule: Rule, rest: Text)
    requires SolidRule(rule) && !CanRepeat(rule)
    ensures SolidTable([rule]) && NoneRepeats([rule]) && MaxReach([rule], rest) == Reach(rule, rest)
    ensures AnyMatched([rule], rest) <==> Matched(rule, rest)
    ensures MatchesFurthest([rule], rest, 0) <==> Matched(rule, rest)
  {
    hide Reach, Matched, CanRepeat;
    var rules := [rule];
    assert rules[0] == rule && rules[1..] == [];
  }

  /**
   A table of one set of characters: tokens are the longest runs of its characters, white space between
   them is passed over, and any other character ends the scan.
   */
  lemma RunsAreTokens(rule: Rule, str: Text, start: nat)
    requires IsRun(rule) && rule.startsWith == [] && '\0' !in rule.text && start <= |str|
    ensures SolidTable([rule])
    ensures start == |str| ==> Scanned([rule], str, start) == Ok([])
    ensures var r := Run(rule, str, start); 0 < r ==>
      Scanned([rule], str, start) == Before(
        if rule.tokenType == 0xFFFF_FFFF_FFFF_FFFF then [] else [Token(start, r, rule.tokenType)],
        Scanned([rule], str, start + r))
    ensures start < |str| && !InSet(rule, str[start]) ==>
      Scanned([rule], str, start) ==
        if str[start] in {' ', '\n', '\r', '\t', '\U{000C}'} then Scanned([rule], str, start + 1) else NoRuleFound
  {
    hide Reach, Matched, TurnAt, Scanned, MaxReach, MatchesFurthest;
    var rest := Rest(str, start);
    var r := Run(rule, str, start);
    RunInRest(rule, str, start);
    RunReach(rule, rest, r);
    OneRule(rule, rest);
    ScannedOnce([rule], str, start);
    if 0 < r {
      TurnMatched([rule], str, start, 0);
      OnlyOne(rule, rest);
    } else {
      TurnUnmatched([rule], str, start);
      if start < |str| { BeforeNothing(Scanned([rule], str, start + 1)); }
    }
  }

  /**
   A table of one kind of quoted text: a token reaches to the first end behind its start, end included;
   a text that is never ended ends the scan without an error, and is dropped with all that follows.
   */
  lemma QuotedTokens(rule: Rule, str: Text, start: nat)
    requires IsQuoted(rule) && start <= |str|
    requires '\0' !in rule.startsWith && '\0' !in rule.endsWith && rule.startsWith <= str[start..]
    ensures SolidTable([rule])
    ensures forall q: nat | EndsFirstAt(rule, str[start..], q) ::
      var n := q + |rule.endsWith|;
      && start + n <= |str|
      && Scanned([rule], str, start) == Before(
           if rule.tokenType == 0xFFFF_FFFF_FFFF_FFFF then [] else [Token(start, n, rule.tokenType)],
           Scanned([rule], str, start + n))
    ensures (forall j: nat | |rule.startsWith| <= j :: !MatchesAt(str[start..], j, rule.endsWith)) ==>
      Scanned([rule], str, start) == Ok([])
  {
    hide Reach, Matched, TurnAt, Scanned, MaxReach, MatchesFurthest, MatchesAt;
    var rest := Rest(str, start);
    OneRule(rule, rest);
    ScannedOnce([rule], str, start);
    OnlyOne(rule, rest);
    assert rest == str[start..] + ['\0'];
    forall j: nat ensures MatchesAt(rest, j, rule.endsWith) <==> MatchesAt(str[start..], j, rule.endsWith) {
      NulApart(str[start..], j, rule.endsWith);
    }
    assert rule.startsWith <= rest;
    forall q: nat | EndsFirstAt(rule, str[start..], q)
      ensures var n := q + |rule.endsWith|;
        && start + n <= |str|
        && Scanned([rule], str, start) == Before(
             if rule.tokenType == 0xFFFF_FFFF_FFFF_FFFF then [] else [Token(start, n, rule.tokenType)],
             Scanned([rule], str, start + n))
    {
      EndInside(str[start..], rule.endsWith);
      QuotedReach(rule, rest, q);
      TurnMatched([rule], str, start, 0);
    }
    if forall j: nat | |rule.startsWith| <= j :: !MatchesAt(str[start..], j, rule.endsWith) {
      QuotedOpenReach(rule, rest);
      TurnOpen([rule], str, start);
    }
  }

  /** The NUL behind the input is part of no match. */
  lemma NulApart(s: Text, j: nat, p: Text)
    requires p != [] && '\0' !in p
    ensures MatchesAt(s + ['\0'], j, p) <==> MatchesAt(s, j, p)
  {
    if j + |p| == |s| + 1 {
      assert (s + ['\0'])[j..j + |p|][|p| - 1] == '\0';
    } else if j + |p| <= |s| {
      MatchInFront(s, p, ['\0'], j);
    }
  }

  lemma OnlyOne(rule: Rule, rest: Text)
    ensures forall j: nat | MatchesFurthest([rule], rest, j) :: j == 0
  {
  }

  lemma RunInRest(rule: Rule, str: Text, start: nat)
    requires IsRun(rule) && rule.startsWith == [] && '\0' !in rule.text && start <= |str|
    ensures RunsTo(rule, Rest(str, start), Run(rule, str, start))
    ensures |Rest(str, start)| == |str| - start + 1
  {
    var rest := Rest(str, start);
    assert forall k | start <= k < |str| :: rest[k - start] == str[k];
    assert rest[|str| - start] == '\0';
  }

  // ---- at an input ----

  const AB: Rule := Range("ab", "", "", false, 7)

  /** Two runs with a blank between them are two tokens. */
  lemma BlankBetween()
    ensures SolidTable([AB]) && Scanned([AB], "a b", 0) == Ok([Token(0, 1, 7), Token(2, 1, 7)])
  {
    hide Scanned;
    RunsAreTokens(AB, "a b", 3);
    RunsAreTokens(AB, "a b", 2);
    RunsAreTokens(AB, "a b", 1);
    RunsAreTokens(AB, "a b", 0);
  }

  /** A token of the type to be ignored is recognised and dropped. */
  lemma DroppedToken()
    ensures var rule := Range("ab", "", "", false, 0xFFFF_FFFF_FFFF_FFFF);
      SolidTable([rule]) && Scanned([rule], "ab", 0) == Ok([])
  {
    hide Scanned;
    var rule := Range("ab", "", "", false, 0xFFFF_FFFF_FFFF_FFFF);
    RunsAreTokens(rule, "ab", 2);
    RunsAreTokens(rule, "ab", 0);
  }
}
