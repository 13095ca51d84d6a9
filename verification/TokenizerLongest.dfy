/**
 Tables of rules that never come back once they have broken off: how far each rule reaches and
 whether it matches there decide everything. The token belongs to the rule that matches furthest.
 */
module TokenizerLongest {
  import opened Common
  import opened StringSearch
  import opened Tokenizer
  import opened TokenizerRun
  import opened TokenizerSlots

  // ---- how far one rule reaches ----

  predicate GoesOnAt(rule: Rule, rest: Text, n: nat)
    requires n <= |rest|
  {
    StateAfter(rule, rest, n) in {Partial, Complete}
  }

  /** How many characters, at least n, the rule takes before it stops going on. */
  function ReachFrom(rule: Rule, rest: Text, n: nat): (r: nat)
    requires n <= |rest|
    ensures n <= r <= |rest|
    decreases |rest| - n
  {
    if n < |rest| && GoesOnAt(rule, rest, n + 1) then ReachFrom(rule, rest, n + 1) else n
  }

  lemma {:induction false} ReachFromMeans(rule: Rule, rest: Text, n: nat)
    requires n <= |rest|
    ensures forall k | n < k <= ReachFrom(rule, rest, n) :: GoesOnAt(rule, rest, k)
    ensures ReachFrom(rule, rest, n) < |rest| ==> !GoesOnAt(rule, rest, ReachFrom(rule, rest, n) + 1)
    decreases |rest| - n
  {
    hide GoesOnAt;
    if n < |rest| && GoesOnAt(rule, rest, n + 1) { ReachFromMeans(rule, rest, n + 1); }
  }

  function Reach(rule: Rule, rest: Text): (r: nat)
    ensures r <= |rest|
  {
    ReachFrom(rule, rest, 0)
  }

  /** The rule overruns behind its reach instead of failing there. */
  predicate Matched(rule: Rule, rest: Text) {
    Reach(rule, rest) < |rest| && StateAfter(rule, rest, Reach(rule, rest) + 1) == Overrun
  }

  /** Behind its reach the rule has overrun or failed for good, and it has overrun only if it matched. */
  lemma {:induction false} BehindReach(rule: Rule, rest: Text, n: nat)
    requires SolidRule(rule) && !CanRepeat(rule) && Reach(rule, rest) < n <= |rest|
    ensures !GoesOnAt(rule, rest, n)
    ensures StateAfter(rule, rest, n) == Overrun ==> Matched(rule, rest)
    decreases n
  {
    hide StateOf, CanRepeat;
    ReachFromMeans(rule, rest, 0);
    if Reach(rule, rest) + 1 < n {
      BehindReach(rule, rest, n - 1);
      assert rest[..n] == rest[..n - 1] + [rest[n - 1]];
      if StateAfter(rule, rest, n - 1) == Overrun {
        OverrunStays(rule, rest[..n - 1], rest[n - 1]);
      }
    }
  }

  /** The rule goes on exactly up to its reach, and breaks off exactly behind it if it matches. */
  lemma ReachMeans(rule: Rule, rest: Text, n: nat)
    requires SolidRule(rule) && !CanRepeat(rule) && n <= |rest|
    ensures GoesOnAt(rule, rest, n) <==> n <= Reach(rule, rest)
    ensures BreaksAt(rule, rest, n) <==> Matched(rule, rest) && n == Reach(rule, rest) + 1
  {
    hide StateOf, CanRepeat;
    ReachFromMeans(rule, rest, 0);
    if Reach(rule, rest) < n { BehindReach(rule, rest, n); }
    if 0 < n && Reach(rule, rest) < n - 1 { BehindReach(rule, rest, n - 1); }
    assert n == 0 ==> GoesOnAt(rule, rest, n);
    assert 0 < n <= Reach(rule, rest) ==> GoesOnAt(rule, rest, n);
    assert 0 < n - 1 <= Reach(rule, rest) ==> GoesOnAt(rule, rest, n - 1);
  }

  // ---- how far a table reaches ----

  /** The furthest that any rule reaches. */
  function MaxReach(rules: seq<Rule>, rest: Text): (r: nat)
    ensures r <= |rest|
    ensures forall i | 0 <= i < |rules| :: Reach(rules[i], rest) <= r
    ensures 0 < r ==> exists i | 0 <= i < |rules| :: Reach(rules[i], rest) == r
  {
    if rules == [] then 0
    else
      var r := MaxReach(rules[1..], rest);
      assert forall i | 1 <= i < |rules| :: rules[i] == rules[1..][i - 1];
      assert 0 < r ==> exists i | 0 <= i < |rules| :: Reach(rules[i], rest) == r by {
        if 0 < r {
          var i :| 0 <= i < |rules[1..]| && Reach(rules[1..][i], rest) == r;
          assert Reach(rules[i + 1], rest) == r;
        }
      }
      if r < Reach(rules[0], rest) then Reach(rules[0], rest) else r
  }

  predicate AnyMatched(rules: seq<Rule>, rest: Text) {
    exists i | 0 <= i < |rules| :: Matched(rules[i], rest)
  }

  /** Rule i matches, and no rule matches further. */
  predicate MatchesFurthest(rules: seq<Rule>, rest: Text, i: nat) {
    && i < |rules| && Matched(rules[i], rest)
    && forall j | 0 <= j < |rules| && Matched(rules[j], rest) :: Reach(rules[j], rest) <= Reach(rules[i], rest)
  }

  lemma TableAt(rules: seq<Rule>, rest: Text, n: nat, i: nat)
    requires SolidTable(rules) && NoneRepeats(rules) && n <= |rest| && i < |rules|
    ensures GoesOnAt(rules[i], rest, n) <==> n <= Reach(rules[i], rest)
    ensures BreaksAt(rules[i], rest, n) <==> Matched(rules[i], rest) && n == Reach(rules[i], rest) + 1
    ensures StateAfter(rules[i], rest, n) == Overrun ==> Matched(rules[i], rest) && Reach(rules[i], rest) < n
  {
    hide StateOf, StateAfter, CanRepeat, BreaksAt;
    ReachMeans(rules[i], rest, n);
    if Reach(rules[i], rest) < n { BehindReach(rules[i], rest, n); }
  }

  /** Something was recorded in n characters exactly if some rule matched and broke off by then. */
  lemma RecordedIff(rules: seq<Rule>, rest: Text, n: nat)
    requires SolidTable(rules) && NoneRepeats(rules) && n <= |rest|
    ensures 0 < Records(rules, rest, n) <==>
      exists i | 0 <= i < |rules| :: Matched(rules[i], rest) && Reach(rules[i], rest) < n
  {
    hide Records, LastBreak, NoneRepeats, SolidTable, Matched, BreaksAt, Reach;
    LastBreakMeans(rules, rest, n);
    if 0 < Records(rules, rest, n) {
      var m := LastBreak(rules, rest, n);
      var i :| 0 <= i < |rules| && BreaksAt(rules[i], rest, m);
      TableAt(rules, rest, m, i);
    }
    if i :| 0 <= i < |rules| && Matched(rules[i], rest) && Reach(rules[i], rest) < n {
      TableAt(rules, rest, Reach(rules[i], rest) + 1, i);
      assert AnyBreaks(rules, rest, Reach(rules[i], rest) + 1);
    }
  }

  /** A token stops right behind the furthest reach. */
  lemma StoppedIff(rules: seq<Rule>, rest: Text, n: nat)
    requires SolidTable(rules) && NoneRepeats(rules) && 0 < n <= |rest| && n <= MaxReach(rules, rest) + 1
    ensures Stopped(rules, rest, n) <==> n == MaxReach(rules, rest) + 1
    ensures !Overfull(rules, rest, n)
  {
    hide Records, StateAfter, NoneRepeats, SolidTable, Matched, Reach;
    SlotsSuffice(rules, rest, n);
    if n <= MaxReach(rules, rest) {
      var i :| 0 <= i < |rules| && Reach(rules[i], rest) == MaxReach(rules, rest);
      TableAt(rules, rest, n, i);
      assert StateAfter(rules[i], rest, n) == Partial || StateAfter(rules[i], rest, n) == Complete;
    } else {
      forall i | 0 <= i < |rules| ensures !GoesOnAt(rules[i], rest, n) { TableAt(rules, rest, n, i); }
      assert !HasState(rules, rest, n, |rules|, Partial) && !HasState(rules, rest, n, |rules|, Complete);
      if HasState(rules, rest, n, |rules|, Overrun) {
        var i :| 0 <= i < |rules| && StateAfter(rules[i], rest, n) == Overrun;
        TableAt(rules, rest, n, i);
        RecordedIff(rules, rest, n);
      }
    }
  }

  lemma {:induction false} StopsBehindReach(rules: seq<Rule>, rest: Text, n: nat)
    requires SolidTable(rules) && NoneRepeats(rules) && 0 < n <= MaxReach(rules, rest) + 1
    ensures StopAt(rules, rest, n) == MaxReach(rules, rest) + 1
    decreases |rest| + 1 - n
  {
    hide Stopped, Overfull, MaxReach;
    if n <= |rest| {
      StoppedIff(rules, rest, n);
      if n < MaxReach(rules, rest) + 1 { StopsBehindReach(rules, rest, n + 1); }
    }
  }

  /** The last break is that of a rule that matches furthest. */
  lemma LastBreakIs(rules: seq<Rule>, rest: Text, i: nat)
    requires SolidTable(rules) && NoneRepeats(rules) && MatchesFurthest(rules, rest, i)
    ensures Reach(rules[i], rest) <= MaxReach(rules, rest) < |rest| ==>
      LastBreak(rules, rest, MaxReach(rules, rest) + 1) == Reach(rules[i], rest) + 1
  {
    hide LastBreak, Records, NoneRepeats, SolidTable, Matched, BreaksAt, Reach, MaxReach;
    var n := MaxReach(rules, rest) + 1;
    if Reach(rules[i], rest) < n <= |rest| {
      LastBreakMeans(rules, rest, n);
      TableAt(rules, rest, Reach(rules[i], rest) + 1, i);
      assert AnyBreaks(rules, rest, Reach(rules[i], rest) + 1);
      var m := LastBreak(rules, rest, n);
      var j :| 0 <= j < |rules| && BreaksAt(rules[j], rest, m);
      TableAt(rules, rest, m, j);
    }
  }

  // ---- one token ----

  /** While a rule still goes on at the end of the input, the scan ends without a further token. */
  lemma TurnOpen(rules: seq<Rule>, str: Text, start: nat)
    requires SolidTable(rules) && NoneRepeats(rules) && start <= |str|
    requires MaxReach(rules, Rest(str, start)) == |Rest(str, start)|
    ensures TurnAt(rules, str, start) == Ends(Ok([]))
  {
    hide NoneRepeats, SolidTable, MaxReach, Stopped, Overfull, StopAt;
    StopsBehindReach(rules, Rest(str, start), 1);
  }

  /** Where no rule matches, white space is passed over, with what was read before it. */
  lemma TurnUnmatched(rules: seq<Rule>, str: Text, start: nat)
    requires SolidTable(rules) && NoneRepeats(rules) && start <= |str|
    requires !AnyMatched(rules, Rest(str, start)) && MaxReach(rules, Rest(str, start)) < |Rest(str, start)|
    ensures var at := start + MaxReach(rules, Rest(str, start));
      && at <= |str|
      && (at == |str| ==> TurnAt(rules, str, start) == Ends(Ok([])))
      && (at < |str| && str[at] in {' ', '\n', '\r', '\t', '\U{000C}'} ==>
            TurnAt(rules, str, start) == GoesOn([], at + 1))
      && (at < |str| && str[at] !in {' ', '\n', '\r', '\t', '\U{000C}'} ==>
            TurnAt(rules, str, start) == Ends(NoRuleFound))
  {
    hide NoneRepeats, SolidTable, MaxReach, Stopped, StopAt, Records;
    var rest := Rest(str, start);
    var n := MaxReach(rules, rest) + 1;
    StopsBehindReach(rules, rest, 1);
    StoppedIff(rules, rest, n);
    RecordedIff(rules, rest, n);
    assert start + n - 1 < |str| ==> rest[n - 1] == str[start + n - 1];
    assert start + n - 1 == |str| ==> rest[n - 1] == NUL;
  }

  /** The rule that matches furthest makes the token, and the scan goes on behind its match. */
  lemma TurnMatched(rules: seq<Rule>, str: Text, start: nat, i: nat)
    requires SolidTable(rules) && NoneRepeats(rules) && start <= |str| && MatchesFurthest(rules, Rest(str, start), i)
    requires MaxReach(rules, Rest(str, start)) < |Rest(str, start)|
    ensures var rest := Rest(str, start); var token := Token(start, MaxReach(rules, rest), rules[i].tokenType);
      TurnAt(rules, str, start) ==
        if exists j: nat :: MatchesFurthest(rules, rest, j) && rules[j].tokenType != rules[i].tokenType
        then Ends(AmbiguousToken)
        else GoesOn(if token.tokenType == 0xFFFF_FFFF_FFFF_FFFF then [] else [token], start + Reach(rules[i], rest))
  {
    hide NoneRepeats, SolidTable, MaxReach, Stopped, StopAt, Records, LastBreak, Reach, Matched, FirstBreaking;
    hide BreaksAt, Rivals;
    var rest := Rest(str, start);
    var n := MaxReach(rules, rest) + 1;
    StopsBehindReach(rules, rest, 1);
    StoppedIff(rules, rest, n);
    RecordedIff(rules, rest, n);
    LastBreakMeans(rules, rest, n);
    LastBreakIs(rules, rest, i);
    RivalsIff(rules, rest, i);
  }

  /** At the last break, rules of another type than the first one are rules that match as far. */
  lemma RivalsIff(rules: seq<Rule>, rest: Text, i: nat)
    requires SolidTable(rules) && NoneRepeats(rules) && MatchesFurthest(rules, rest, i)
    ensures var m := Reach(rules[i], rest) + 1;
      && m <= |rest| && AnyBreaks(rules, rest, m)
      && var tokenType := rules[FirstBreaking(rules, rest, m)].tokenType;
      && (Rivals(rules, rest, m, tokenType) <==>
            exists j: nat :: MatchesFurthest(rules, rest, j) && rules[j].tokenType != rules[i].tokenType)
      && (!Rivals(rules, rest, m, tokenType) ==> tokenType == rules[i].tokenType)
  {
    hide NoneRepeats, SolidTable, Reach, FirstBreaking, BreaksAt, StateAfter;
    var m := Reach(rules[i], rest) + 1;
    forall j: nat | j < |rules| ensures BreaksAt(rules[j], rest, m) <==> MatchesFurthest(rules, rest, j) {
      TableAt(rules, rest, m, j);
    }
    assert BreaksAt(rules[i], rest, m);
    var first := FirstBreaking(rules, rest, m);
    var tokenType := rules[first].tokenType;
    if tokenType != rules[i].tokenType {
      assert MatchesFurthest(rules, rest, first);
    }
    if j: nat :| MatchesFurthest(rules, rest, j) && rules[j].tokenType != rules[i].tokenType {
      assert BreaksAt(rules[j], rest, m);
    }
  }
}
