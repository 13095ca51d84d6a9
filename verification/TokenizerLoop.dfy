/**
 The main loop of the tokenizer, with its table of states, its array of completions and its index
 that moves backwards. It computes `Scanned` for every table of rules, the lack of slots included.
 */
module TokenizerLoop {
  import opened Common
  import opened StringSearch
  import opened Tokenizer
  import opened TokenizerRun

  /** The value of the token start while no token has been started. */
  const NO_TOKEN: nat := UINT32_MAX

  /** A rule that broke off, and the index of the last character it had matched. */
  datatype Completion = Completion(rule: nat, end: nat)

  // ---- what the state table and the completions hold ----

  /** The first m rules have read n + 1 characters of the token, the others n. */
  ghost predicate Tracks(rules: seq<Rule>, rest: Text, n: nat, m: nat, states: seq<RuleState>) {
    && |states| == |rules| && n < |rest|
    && (forall j | 0 <= j < |rules| ::
          states[j] == if j < m then StateAfter(rules[j], rest, n + 1) else StateAfter(rules[j], rest, n))
  }

  ghost predicate AllRead(rules: seq<Rule>, rest: Text, n: nat, states: seq<RuleState>) {
    && |states| == |rules| && n <= |rest|
    && (forall j | 0 <= j < |rules| :: states[j] == StateAfter(rules[j], rest, n))
  }

  /** The index of the last matched character of a rule that breaks off at the n-th one. */
  function EndOf(start: nat, n: nat): nat {
    if start + n < 2 then 0 else start + n - 2
  }

  /** The completions of the first m rules at the n-th character. */
  function CompletedAt(rules: seq<Rule>, rest: Text, start: nat, n: nat, m: nat): (c: seq<Completion>)
    requires n <= |rest| && m <= |rules|
    ensures |c| == BreakingAt(rules, rest, n, m)
  {
    if m == 0 then []
    else
      CompletedAt(rules, rest, start, n, m - 1) +
      if BreaksAt(rules[m - 1], rest, n) then [Completion(m - 1, EndOf(start, n))] else []
  }

  function Completed(rules: seq<Rule>, rest: Text, start: nat, n: nat): (c: seq<Completion>)
    requires n <= |rest|
    ensures |c| == Records(rules, rest, n)
  {
    if n == 0 then [] else Completed(rules, rest, start, n - 1) + CompletedAt(rules, rest, start, n, |rules|)
  }

  lemma {:induction false} BreakingGrows(rules: seq<Rule>, rest: Text, n: nat, j: nat, m: nat)
    requires n <= |rest| && j <= m <= |rules|
    ensures BreakingAt(rules, rest, n, j) <= BreakingAt(rules, rest, n, m)
    decreases m
  {
    hide BreaksAt;
    if j < m { BreakingGrows(rules, rest, n, j, m - 1); }
  }

  // ---- one character for every rule ----

  /** What the loop over the rules knows before rule i. */
  ghost predicate Advancing(rules: seq<Rule>, rest: Text, start: nat, n: nat, i: nat, states: seq<RuleState>,
                            before: seq<Completion>, valid: seq<Completion>,
                            partialCount: nat, overrunCount: nat, completeCount: nat)
  {
    && i <= |rules| && Tracks(rules, rest, n, i, states)
    && valid == before + CompletedAt(rules, rest, start, n + 1, i)
    && (0 < partialCount <==> HasState(rules, rest, n + 1, i, Partial))
    && (0 < overrunCount <==> HasState(rules, rest, n + 1, i, Overrun))
    && (0 < completeCount <==> HasState(rules, rest, n + 1, i, Complete))
  }

  lemma AdvanceStart(rules: seq<Rule>, rest: Text, start: nat, n: nat, states: seq<RuleState>, before: seq<Completion>)
    requires AllRead(rules, rest, n, states) && n < |rest|
    ensures Advancing(rules, rest, start, n, 0, states, before, before, 0, 0, 0)
  {
    hide StateAfter;
  }

  /** Rule i: its new state, and whether it is recorded. */
  lemma AdvanceRound(rules: seq<Rule>, rest: Text, start: nat, n: nat, i: nat, states: seq<RuleState>,
                     before: seq<Completion>, valid: seq<Completion>,
                     partialCount: nat, overrunCount: nat, completeCount: nat)
    requires i < |rules|
    requires Advancing(rules, rest, start, n, i, states, before, valid, partialCount, overrunCount, completeCount)
    ensures |states| == |rules| && n < |rest|
    ensures var was := states[i]; var now := if was == Invalid then Invalid else StateOf(rules[i], rest[..n + 1]);
      var broke := was in {Partial, Complete} && now == Overrun;
      && (broke <==> BreaksAt(rules[i], rest, n + 1))
      && Advancing(rules, rest, start, n, i + 1, states[i := now], before,
           valid + (if broke then [Completion(i, EndOf(start, n + 1))] else []),
           partialCount + (if now == Partial then 1 else 0), overrunCount + (if now == Overrun then 1 else 0),
           completeCount + (if now == Complete then 1 else 0))
  {
    hide StateOf, HasState;
    HasStateNext(rules, rest, n + 1, i, Partial);
    HasStateNext(rules, rest, n + 1, i, Overrun);
    HasStateNext(rules, rest, n + 1, i, Complete);
    var more := if BreaksAt(rules[i], rest, n + 1) then [Completion(i, EndOf(start, n + 1))] else [];
    assert before + CompletedAt(rules, rest, start, n + 1, i) + more ==
      before + (CompletedAt(rules, rest, start, n + 1, i) + more);
  }

  lemma HasStateNext(rules: seq<Rule>, rest: Text, n: nat, i: nat, state: RuleState)
    requires n <= |rest| && i < |rules|
    ensures HasState(rules, rest, n, i + 1, state) <==>
      HasState(rules, rest, n, i, state) || StateAfter(rules[i], rest, n) == state
  {
    hide StateAfter;
  }

  /** Room for another completion is room for all that were found up to here. */
  lemma SlotNeeded(rules: seq<Rule>, rest: Text, start: nat, n: nat, i: nat)
    requires n < |rest| && i < |rules| && BreaksAt(rules[i], rest, n + 1)
    ensures |CompletedAt(rules, rest, start, n + 1, i)| < BreakingAt(rules, rest, n + 1, |rules|)
  {
    hide BreaksAt;
    BreakingGrows(rules, rest, n + 1, i + 1, |rules|);
  }

  lemma StatesCount(rules: seq<Rule>, rest: Text, n: nat, states: seq<RuleState>)
    requires AllRead(rules, rest, n, states)
    ensures |states| == |rules|
  {
  }

  lemma SolidAt(rules: seq<Rule>, i: nat)
    requires SolidTable(rules) && i < |rules|
    ensures SolidRule(rules[i])
  {
  }

  lemma CompletedSoFar(rules: seq<Rule>, rest: Text, start: nat, n: nat, i: nat, states: seq<RuleState>,
                       before: seq<Completion>, valid: seq<Completion>,
                       partialCount: nat, overrunCount: nat, completeCount: nat)
    requires Advancing(rules, rest, start, n, i, states, before, valid, partialCount, overrunCount, completeCount)
    ensures i <= |rules| && n < |rest|
    ensures valid == before + CompletedAt(rules, rest, start, n + 1, i)
  {
  }

  lemma BrokenIndex(rule: Rule, rest: Text, start: nat, n: nat, index: nat)
    requires SolidRule(rule) && n < |rest| && BreaksAt(rule, rest, n + 1) && index == start + n
    ensures 0 < n && EndOf(start, n + 1) == index - 1
  {
    hide StateAfter, StateOf;
    if n == 0 { NotOnFirst(rule, rest); }
  }

  lemma AdvanceEnd(rules: seq<Rule>, rest: Text, start: nat, n: nat, states: seq<RuleState>,
                   before: seq<Completion>, valid: seq<Completion>,
                   partialCount: nat, overrunCount: nat, completeCount: nat)
    requires Advancing(rules, rest, start, n, |rules|, states, before, valid, partialCount, overrunCount, completeCount)
    ensures n < |rest| && AllRead(rules, rest, n + 1, states)
    ensures valid == before + CompletedAt(rules, rest, start, n + 1, |rules|)
    ensures 0 < partialCount <==> HasState(rules, rest, n + 1, |rules|, Partial)
    ensures 0 < overrunCount <==> HasState(rules, rest, n + 1, |rules|, Overrun)
    ensures 0 < completeCount <==> HasState(rules, rest, n + 1, |rules|, Complete)
  {
  }

  /**
   The loop over the rules at one character. Every completion is written to a slot of its own;
   `fits` tells whether there was one for each, and if not, the loop is left at the first without.
   */
  method Advance(rules: seq<Rule>, states: array<RuleState>, validTokens: array<Completion>, validTokenCount: nat,
                 seen: Text, index: nat, ghost rest: Text, ghost start: nat, ghost n: nat)
    returns (partialCount: nat, overrunCount: nat, completeCount: nat, count: nat, fits: bool)
    requires SolidTable(rules) && validTokenCount <= validTokens.Length
    requires n < |rest| && seen == rest[..n + 1] && index == start + n
    requires AllRead(rules, rest, n, states[..])
    modifies states, validTokens
    ensures fits <==> validTokenCount + BreakingAt(rules, rest, n + 1, |rules|) <= validTokens.Length
    ensures fits ==> AllRead(rules, rest, n + 1, states[..]) && count <= validTokens.Length
    ensures fits ==>
      validTokens[..count] == old(validTokens[..validTokenCount]) + CompletedAt(rules, rest, start, n + 1, |rules|)
    ensures fits ==> (0 < partialCount <==> HasState(rules, rest, n + 1, |rules|, Partial))
    ensures fits ==> (0 < overrunCount <==> HasState(rules, rest, n + 1, |rules|, Overrun))
    ensures fits ==> (0 < completeCount <==> HasState(rules, rest, n + 1, |rules|, Complete))
  {
    hide StateOf, StateAfter, HasState, BreaksAt, BreakingAt, CompletedAt, Advancing, AllRead, SolidTable, EndOf;
    partialCount, overrunCount, completeCount, count, fits := 0, 0, 0, validTokenCount, true;
    ghost var before := validTokens[..count];
    AdvanceStart(rules, rest, start, n, states[..], before);
    assert states.Length == |rules| by { StatesCount(rules, rest, n, states[..]); }
    for i := 0 to |rules|
      invariant states.Length == |rules| && count <= validTokens.Length && fits
      invariant Advancing(rules, rest, start, n, i, states[..], before, validTokens[..count],
                  partialCount, overrunCount, completeCount)
    {
      ghost var table, valid := states[..], validTokens[..count];
      AdvanceRound(rules, rest, start, n, i, table, before, valid, partialCount, overrunCount, completeCount);
      CompletedSoFar(rules, rest, start, n, i, table, before, valid, partialCount, overrunCount, completeCount);
      SolidAt(rules, i);
      if states[i] == Invalid {
        assert table == table[i := Invalid] && valid == valid + [];
        continue;
      }
      var res := TestRule(rules[i], seen);
      var prevRes := states[i];
      states[i] := res;
      assert states[..] == table[i := res];
      if res == Partial { partialCount := partialCount + 1; }
      if res == Overrun { overrunCount := overrunCount + 1; }
      if res == Complete { completeCount := completeCount + 1; }
      if (prevRes == Complete || prevRes == Partial) && res == Overrun {
        SlotNeeded(rules, rest, start, n, i);
        if count == validTokens.Length {
          fits := false;
          return;
        }
        BrokenIndex(rules[i], rest, start, n, index);
        validTokens[count] := Completion(i, index - 1);
        count := count + 1;
        assert validTokens[..count] == valid + [Completion(i, index - 1)];
      } else {
        assert valid + [] == valid;
      }
    }
    AdvanceEnd(rules, rest, start, n, states[..], before, validTokens[..count],
      partialCount, overrunCount, completeCount);
  }

  // ---- the competition ----

  ghost predicate Furthest(valid: seq<Completion>, longestToken: nat, longestRule: nat) {
    && Completion(longestRule, longestToken) in valid
    && forall k | 0 <= k < |valid| :: valid[k].end <= longestToken
  }

  /** Some completion that reaches as far as the selected one has another token type. */
  ghost predicate Rivalled(rules: seq<Rule>, valid: seq<Completion>, longestToken: nat, longestRule: nat) {
    exists k | 0 <= k < |valid| :: valid[k].end == longestToken &&
      valid[k].rule < |rules| && longestRule < |rules| && rules[valid[k].rule].tokenType != rules[longestRule].tokenType
  }

  /** The completions that reach furthest, and whether their token types differ. */
  method Select(validTokens: array<Completion>, validTokenCount: nat, rules: seq<Rule>)
    returns (longestToken: nat, longestRule: nat, ruleCollision: nat)
    requires 0 < validTokenCount <= validTokens.Length
    requires forall k | 0 <= k < validTokenCount :: validTokens[k].rule < |rules|
    ensures Furthest(validTokens[..validTokenCount], longestToken, longestRule) && longestRule < |rules|
    ensures ruleCollision > 1 <==> Rivalled(rules, validTokens[..validTokenCount], longestToken, longestRule)
  {
    ghost var valid := validTokens[..validTokenCount];
    longestToken, longestRule, ruleCollision := validTokens[0].end, validTokens[0].rule, 1;
    for i := 1 to validTokenCount
      invariant 1 <= ruleCollision && longestRule < |rules|
      invariant Completion(longestRule, longestToken) in valid
      invariant forall k | 0 <= k < i :: valid[k].end <= longestToken
      invariant ruleCollision > 1 <==> exists k | 0 <= k < i ::
        valid[k].end == longestToken && rules[valid[k].rule].tokenType != rules[longestRule].tokenType
    {
      var info := validTokens[i];
      assert info == valid[i];
      if info.end == longestToken {
        if rules[longestRule].tokenType != rules[info.rule].tokenType {
          ruleCollision := ruleCollision + 1;
        }
      } else if info.end > longestToken {
        longestToken, longestRule, ruleCollision := info.end, info.rule, 1;
      }
    }
  }

  // ---- what was recorded ----

  lemma {:induction false} AmongCompleted(rules: seq<Rule>, rest: Text, start: nat, n: nat, m: nat, c: Completion)
    requires n <= |rest| && m <= |rules|
    ensures c in CompletedAt(rules, rest, start, n, m) <==>
      c.rule < m && BreaksAt(rules[c.rule], rest, n) && c.end == EndOf(start, n)
  {
    hide BreaksAt, EndOf;
    if m != 0 { AmongCompleted(rules, rest, start, n, m - 1, c); }
  }

  ghost predicate Recorded(rules: seq<Rule>, rest: Text, start: nat, c: Completion, k: nat) {
    k <= |rest| && c.rule < |rules| && BreaksAt(rules[c.rule], rest, k) && c.end == EndOf(start, k)
  }

  ghost predicate RecordedBy(rules: seq<Rule>, rest: Text, start: nat, n: nat, c: Completion) {
    exists k: nat | k <= n :: Recorded(rules, rest, start, c, k)
  }

  /** Exactly the rules that broke off, each with the character at which it did. */
  lemma {:induction false} CompletedMeans(rules: seq<Rule>, rest: Text, start: nat, n: nat, c: Completion)
    requires n <= |rest|
    ensures c in Completed(rules, rest, start, n) <==> RecordedBy(rules, rest, start, n, c)
  {
    hide BreaksAt, EndOf, CompletedAt;
    if n == 0 {
      NothingBreaksAtZero(rules, rest, c);
    } else {
      CompletedMeans(rules, rest, start, n - 1, c);
      AmongCompleted(rules, rest, start, n, |rules|, c);
      RecordedNext(rules, rest, start, n, c);
    }
  }

  lemma RecordedNext(rules: seq<Rule>, rest: Text, start: nat, n: nat, c: Completion)
    requires 0 < n
    ensures RecordedBy(rules, rest, start, n, c) <==>
      RecordedBy(rules, rest, start, n - 1, c) || Recorded(rules, rest, start, c, n)
  {
    hide Recorded;
  }

  lemma NothingBreaksAtZero(rules: seq<Rule>, rest: Text, c: Completion)
    ensures c.rule < |rules| ==> !BreaksAt(rules[c.rule], rest, 0)
  {
  }

  /** The furthest completions are those of the last character at which a rule broke off. */
  lemma FurthestIsLast(rules: seq<Rule>, rest: Text, start: nat, n: nat, longestToken: nat, longestRule: nat)
    requires SolidTable(rules) && n <= |rest| && longestRule < |rules|
    requires Furthest(Completed(rules, rest, start, n), longestToken, longestRule)
    ensures var m := LastBreak(rules, rest, n);
      && 2 <= m && longestToken == start + m - 2 && BreaksAt(rules[longestRule], rest, m)
      && (Rivalled(rules, Completed(rules, rest, start, n), longestToken, longestRule)
          <==> Rivals(rules, rest, m, rules[longestRule].tokenType))
  {
    hide BreaksAt, Completed, SolidTable;
    var valid := Completed(rules, rest, start, n);
    var m := LastBreak(rules, rest, n);
    LastBreakMeans(rules, rest, n);
    LastBreakLate(rules, rest, n);
    CompletedMeans(rules, rest, start, n, Completion(longestRule, longestToken));
    var k: nat :| k <= n && Recorded(rules, rest, start, Completion(longestRule, longestToken), k);
    assert AnyBreaks(rules, rest, k);
    RecordedLate(rules, rest, start, Completion(longestRule, longestToken), k);
    var i: nat :| i < |rules| && BreaksAt(rules[i], rest, m);
    assert Recorded(rules, rest, start, Completion(i, EndOf(start, m)), m);
    CompletedMeans(rules, rest, start, n, Completion(i, EndOf(start, m)));
    assert k == m;
    SameRivals(rules, rest, start, n, longestToken, longestRule, m);
  }

  lemma RecordedLate(rules: seq<Rule>, rest: Text, start: nat, c: Completion, k: nat)
    requires SolidTable(rules) && Recorded(rules, rest, start, c, k)
    ensures 2 <= k && c.end == start + k - 2
  {
    hide StateOf, StateAfter;
    if k == 1 { NotOnFirst(rules[c.rule], rest); }
  }

  lemma SameRivals(rules: seq<Rule>, rest: Text, start: nat, n: nat, longestToken: nat, longestRule: nat, m: nat)
    requires SolidTable(rules) && 2 <= m <= n <= |rest| && longestToken == start + m - 2 && longestRule < |rules|
    ensures Rivalled(rules, Completed(rules, rest, start, n), longestToken, longestRule)
      <==> Rivals(rules, rest, m, rules[longestRule].tokenType)
  {
    hide BreaksAt, Completed, SolidTable;
    var valid := Completed(rules, rest, start, n);
    if Rivalled(rules, valid, longestToken, longestRule) {
      var j: nat :| j < |valid| && valid[j].end == longestToken && valid[j].rule < |rules| &&
        rules[valid[j].rule].tokenType != rules[longestRule].tokenType;
      CompletedMeans(rules, rest, start, n, valid[j]);
      var k: nat :| k <= n && Recorded(rules, rest, start, valid[j], k);
      RecordedLate(rules, rest, start, valid[j], k);
      assert BreaksAt(rules[valid[j].rule], rest, m);
    }
    if i: nat :| i < |rules| && BreaksAt(rules[i], rest, m) && rules[i].tokenType != rules[longestRule].tokenType {
      var c := Completion(i, longestToken);
      assert Recorded(rules, rest, start, c, m);
      CompletedMeans(rules, rest, start, n, c);
      var j: nat :| j < |valid| && valid[j] == c;
      assert valid[j].end == longestToken;
    }
  }

  // ---- the loop ----

  /**
   In the middle of a token: n characters from `start` on are read, the token did not stop within
   them, and what was emitted and what the reference does from `start` on is the whole answer.
   */
  ghost predicate Reading(rules: seq<Rule>, str: Text, tokens: seq<Token>, start: nat, n: nat,
                          states: seq<RuleState>, valid: seq<Completion>)
  {
    && SolidTable(rules) && start <= |str| && n <= |Rest(str, start)|
    && AllRead(rules, Rest(str, start), n, states)
    && valid == Completed(rules, Rest(str, start), start, n) && |valid| <= |rules|
    && StopAt(rules, Rest(str, start), 1) == StopAt(rules, Rest(str, start), n + 1)
    && Scanned(rules, str, 0) == Before(tokens, Scanned(rules, str, start))
  }

  lemma ReadStart(rules: seq<Rule>, str: Text, tokens: seq<Token>, start: nat, states: seq<RuleState>)
    requires SolidTable(rules) && start <= |str| && |states| == |rules|
    requires forall i | 0 <= i < |states| :: states[i] == Partial
    requires Scanned(rules, str, 0) == Before(tokens, Scanned(rules, str, start))
    ensures Reading(rules, str, tokens, start, 0, states, [])
  {
    hide Scanned, Before, SolidTable, StopAt, StateOf;
  }

  lemma RestEnds(str: Text, start: nat)
    requires start <= |str|
    ensures |Rest(str, start)| == |str| - start + 1
    ensures forall i | start <= i < |str| :: Rest(str, start)[i - start] == str[i]
    ensures Rest(str, start)[|str| - start] == NUL
  {
  }

  /** A character after which the token goes on. */
  lemma ReadOn(rules: seq<Rule>, str: Text, tokens: seq<Token>, start: nat, n: nat,
               was: seq<RuleState>, before: seq<Completion>, states: seq<RuleState>, valid: seq<Completion>)
    requires SolidTable(rules) && start <= |str| && Reading(rules, str, tokens, start, n, was, before)
    requires n < |Rest(str, start)|
    requires AllRead(rules, Rest(str, start), n + 1, states) && |valid| <= |rules|
    requires valid == before + CompletedAt(rules, Rest(str, start), start, n + 1, |rules|)
    requires !Stopped(rules, Rest(str, start), n + 1)
    ensures Reading(rules, str, tokens, start, n + 1, states, valid)
  {
    hide Scanned, Before, SolidTable, Stopped, AllRead, CompletedAt, Rest;
  }

  /** A character at which the token stops is where the reference stops. */
  lemma StopsHere(rules: seq<Rule>, str: Text, tokens: seq<Token>, start: nat, n: nat,
                  was: seq<RuleState>, before: seq<Completion>)
    requires SolidTable(rules) && start <= |str| && Reading(rules, str, tokens, start, n, was, before)
    requires n < |Rest(str, start)|
    requires Stopped(rules, Rest(str, start), n + 1) || Overfull(rules, Rest(str, start), n + 1)
    ensures StopAt(rules, Rest(str, start), 1) == n + 1
    ensures Scanned(rules, str, 0) == Before(tokens, Scanned(rules, str, start))
  {
    hide Scanned, Before, SolidTable, Stopped, AllRead, Completed, Overfull, Rest;
  }

  lemma BeforeEnds(tokens: seq<Token>)
    ensures Before(tokens, Ok([])) == Ok(tokens)
    ensures forall o: Outcome | !o.Ok? :: Before(tokens, o) == o
  {
  }

  lemma BeforeTwice(tokens: seq<Token>, more: seq<Token>, then_: Outcome)
    ensures Before(tokens, Before(more, then_)) == Before(tokens + more, then_)
  {
    if then_.Ok? { assert tokens + (more + then_.tokens) == tokens + more + then_.tokens; }
  }

  /** The slots run out. */
  lemma NoSlot(rules: seq<Rule>, str: Text, tokens: seq<Token>, start: nat, n: nat,
               was: seq<RuleState>, before: seq<Completion>)
    requires SolidTable(rules) && start <= |str| && Reading(rules, str, tokens, start, n, was, before)
    requires n < |Rest(str, start)|
    requires |before| + BreakingAt(rules, Rest(str, start), n + 1, |rules|) > |rules|
    ensures Scanned(rules, str, 0) == OutOfSlots
  {
    hide Stopped, Reading, Rest, Records, StopAt, BreakingAt, SolidTable;
    OverfullNext(rules, str, tokens, start, n, was, before);
    StopsHere(rules, str, tokens, start, n, was, before);
    BeforeEnds(tokens);
  }

  lemma OverfullNext(rules: seq<Rule>, str: Text, tokens: seq<Token>, start: nat, n: nat,
                     was: seq<RuleState>, before: seq<Completion>)
    requires SolidTable(rules) && start <= |str| && Reading(rules, str, tokens, start, n, was, before)
    requires n < |Rest(str, start)|
    ensures |before| + BreakingAt(rules, Rest(str, start), n + 1, |rules|) == Records(rules, Rest(str, start), n + 1)
  {
    hide Scanned, Before, SolidTable, StopAt, Rest, AllRead, BreakingAt;
  }

  lemma TurnOfNone(rules: seq<Rule>, str: Text, start: nat, n: nat)
    requires SolidTable(rules) && start <= |str| && n < |Rest(str, start)|
    requires StopAt(rules, Rest(str, start), 1) == n + 1 && Records(rules, Rest(str, start), n + 1) == 0
    ensures var c := if start + n < |str| then str[start + n] else NUL;
      && (IsWhiteSpace(c) ==> start + n < |str|)
      && TurnAt(rules, str, start) ==
         if IsWhiteSpace(c) then GoesOn([], start + n + 1)
         else Ends(if start + n == |str| then Ok([]) else NoRuleFound)
  {
    hide StopAt, Records, SolidTable, Rest;
    RestEnds(str, start);
  }

  /** Nothing was recorded and no rule goes on. */
  lemma NoneRecorded(rules: seq<Rule>, str: Text, tokens: seq<Token>, start: nat, n: nat,
                     was: seq<RuleState>, before: seq<Completion>)
    requires SolidTable(rules) && start <= |str| && Reading(rules, str, tokens, start, n, was, before)
    requires n < |Rest(str, start)|
    requires Stopped(rules, Rest(str, start), n + 1) && Records(rules, Rest(str, start), n + 1) == 0
    ensures var c := if start + n < |str| then str[start + n] else NUL;
      if IsWhiteSpace(c) then
        start + n < |str| && Scanned(rules, str, 0) == Before(tokens, Scanned(rules, str, start + n + 1))
      else Scanned(rules, str, 0) == if start + n == |str| then Ok(tokens) else NoRuleFound
  {
    hide Stopped, Reading, Rest, Records, StopAt, TurnAt, Scanned, SolidTable, IsWhiteSpace, Before;
    StopsHere(rules, str, tokens, start, n, was, before);
    TurnOfNone(rules, str, start, n);
    ScannedOnce(rules, str, start);
    BeforeEnds(tokens);
    if start + n < |str| {
      BeforeTwice(tokens, [], Scanned(rules, str, start + n + 1));
      assert tokens + [] == tokens;
    }
  }

  lemma SameType(rules: seq<Rule>, rest: Text, m: nat, i: nat)
    requires m <= |rest| && i < |rules| && BreaksAt(rules[i], rest, m) && AnyBreaks(rules, rest, m)
    ensures var first := FirstBreaking(rules, rest, m);
      && (Rivals(rules, rest, m, rules[i].tokenType) <==> Rivals(rules, rest, m, rules[first].tokenType))
      && (!Rivals(rules, rest, m, rules[i].tokenType) ==> rules[first].tokenType == rules[i].tokenType)
  {
    hide BreaksAt;
  }

  /** Something was recorded and no rule goes on: the furthest completion is the token. */
  lemma SomeRecorded(rules: seq<Rule>, str: Text, tokens: seq<Token>, start: nat, n: nat,
                     was: seq<RuleState>, before: seq<Completion>, longestToken: nat, longestRule: nat)
    requires SolidTable(rules) && start <= |str| && Reading(rules, str, tokens, start, n, was, before)
    requires n < |Rest(str, start)|
    requires Stopped(rules, Rest(str, start), n + 1) && !Overfull(rules, Rest(str, start), n + 1)
    requires longestRule < |rules|
    requires Furthest(Completed(rules, Rest(str, start), start, n + 1), longestToken, longestRule)
    ensures start <= longestToken < |str| && longestToken <= start + n
    ensures var token := Token(start, n, rules[longestRule].tokenType);
      if Rivalled(rules, Completed(rules, Rest(str, start), start, n + 1), longestToken, longestRule)
      then Scanned(rules, str, 0) == AmbiguousToken
      else Scanned(rules, str, 0) == Before(Emitted(tokens, token), Scanned(rules, str, longestToken + 1))
  {
    hide Stopped, Overfull, Reading, Rest, Records, StopAt, Furthest, Rivalled, Rivals, Completed;
    hide LastBreak, FirstBreaking, BreaksAt;
    var rest := Rest(str, start);
    StopsHere(rules, str, tokens, start, n, was, before);
    RestEnds(str, start);
    FurthestIsLast(rules, rest, start, n + 1, longestToken, longestRule);
    LastBreakMeans(rules, rest, n + 1);
    var m := LastBreak(rules, rest, n + 1);
    SameType(rules, rest, m, longestRule);
    BeforeEnds(tokens);
    var token := Token(start, n, rules[longestRule].tokenType);
    EmittedMore(tokens, token);
    BeforeTwice(tokens, Emitted([], token), Scanned(rules, str, longestToken + 1));
  }

  lemma EmittedMore(tokens: seq<Token>, token: Token)
    ensures tokens + Emitted([], token) == Emitted(tokens, token)
  {
    assert tokens + ([] + [token]) == tokens + [token];
  }

  lemma ReadThrough(rules: seq<Rule>, str: Text, tokens: seq<Token>, start: nat, n: nat,
                    states: seq<RuleState>, valid: seq<Completion>)
    requires SolidTable(rules) && start <= |str| && n == |Rest(str, start)|
    requires Reading(rules, str, tokens, start, n, states, valid)
    ensures Scanned(rules, str, 0) == Ok(tokens)
  {
    hide Stopped, Rest, Records, Overfull, AllRead, SolidTable, Completed;
    BeforeEnds(tokens);
  }

  /** The loop that makes every rule a candidate again. */
  method ResetStates(states: array<RuleState>)
    modifies states
    ensures forall i | 0 <= i < states.Length :: states[i] == Partial
  {
    for i := 0 to states.Length
      invariant forall j | 0 <= j < i :: states[j] == Partial
    {
      states[i] := Partial;
    }
  }

  lemma CompletedNamed(rules: seq<Rule>, rest: Text, start: nat, n: nat, valid: seq<Completion>)
    requires n <= |rest| && valid == Completed(rules, rest, start, n)
    ensures forall k | 0 <= k < |valid| :: valid[k].rule < |rules|
  {
    hide Completed, BreaksAt;
    forall k | 0 <= k < |valid| ensures valid[k].rule < |rules| {
      CompletedMeans(rules, rest, start, n, valid[k]);
    }
  }

  lemma StoppedIff(rules: seq<Rule>, rest: Text, n: nat)
    requires n <= |rest|
    ensures Stopped(rules, rest, n) <==>
      !HasState(rules, rest, n, |rules|, Partial) && !HasState(rules, rest, n, |rules|, Complete) &&
      (Records(rules, rest, n) == 0 ==> !HasState(rules, rest, n, |rules|, Overrun))
  {
  }

  lemma ReadingStates(rules: seq<Rule>, str: Text, tokens: seq<Token>, start: nat, n: nat,
                      states: seq<RuleState>, valid: seq<Completion>)
    requires SolidTable(rules) && start <= |str| && Reading(rules, str, tokens, start, n, states, valid)
    ensures n <= |Rest(str, start)| && AllRead(rules, Rest(str, start), n, states)
    ensures valid == Completed(rules, Rest(str, start), start, n) && |valid| == Records(rules, Rest(str, start), n)
  {
  }

  /** The furthest completion becomes a token unless another type rivals it; the index jumps back to its end. */
  method EndToken(rules: seq<Rule>, str: Text, tokens: seq<Token>, start: nat, read: nat,
                  validTokens: array<Completion>, validTokenCount: nat,
                  ghost was: seq<RuleState>, ghost before: seq<Completion>)
    returns (ruleCollision: nat, kept: seq<Token>, index: nat)
    requires SolidTable(rules) && start <= |str| && 0 < read <= |Rest(str, start)|
    requires Reading(rules, str, tokens, start, read - 1, was, before)
    requires Stopped(rules, Rest(str, start), read) && Records(rules, Rest(str, start), read) <= |rules|
    requires 0 < validTokenCount <= validTokens.Length
    requires validTokens[..validTokenCount] == Completed(rules, Rest(str, start), start, read)
    ensures start <= index < |str|
    ensures ruleCollision > 1 ==> Scanned(rules, str, 0) == AmbiguousToken
    ensures ruleCollision <= 1 ==> Scanned(rules, str, 0) == Before(kept, Scanned(rules, str, index + 1))
  {
    hide SolidTable, Scanned, Before, Rest, Reading, Stopped, Records, Completed, Furthest, Rivalled;
    CompletedNamed(rules, Rest(str, start), start, read, validTokens[..validTokenCount]);
    assert forall k | 0 <= k < validTokenCount :: validTokens[k] == validTokens[..validTokenCount][k];
    var longestToken, longestRule;
    longestToken, longestRule, ruleCollision := Select(validTokens, validTokenCount, rules);
    SomeRecorded(rules, str, tokens, start, read - 1, was, before, longestToken, longestRule);
    var token := Token(start, read - 1, rules[longestRule].tokenType);
    index := longestToken;
    kept := tokens;
    if token.tokenType != TYPE_IGNORE {
      kept := tokens + [token];
    }
  }

  /** What a character comes to: the token goes on, a new one begins behind `index`, or the scan ends. */
  datatype Verdict = TokenGoesOn | ResetToken | ScanEnds(outcome: Outcome)

  /** The loop body for one character, up to the label that resets the token. */
  method ReadChar(rules: seq<Rule>, str: Text, tokens: seq<Token>, states: array<RuleState>,
                  validTokens: array<Completion>, validTokenCount: nat, tokenStart: nat, at: nat, ghost n: nat)
    returns (verdict: Verdict, kept: seq<Token>, index: nat, count: nat)
    requires SolidTable(rules) && at == tokenStart + n <= |str|
    requires validTokenCount <= validTokens.Length == |rules|
    requires Reading(rules, str, tokens, tokenStart, n, states[..], validTokens[..validTokenCount])
    modifies states, validTokens
    ensures count <= validTokens.Length
    ensures verdict.TokenGoesOn? ==> kept == tokens && index == at
    ensures verdict.TokenGoesOn? ==> Reading(rules, str, tokens, tokenStart, n + 1, states[..], validTokens[..count])
    ensures verdict.ResetToken? ==> tokenStart <= index < |str|
    ensures verdict.ResetToken? ==> Scanned(rules, str, 0) == Before(kept, Scanned(rules, str, index + 1))
    ensures verdict.ScanEnds? ==> verdict.outcome == Scanned(rules, str, 0)
  {
    hide SolidTable, Scanned, Before, Rest, HasState, AllRead, Reading, Stopped, Records, BreakingAt, Completed,
      CompletedAt, StopAt, Emitted;
    RestEnds(str, tokenStart);
    ghost var rest, was, before := Rest(str, tokenStart), states[..], validTokens[..validTokenCount];
    ReadingStates(rules, str, tokens, tokenStart, n, was, before);
    var tokenStr := Rest(str, tokenStart)[..at - tokenStart + 1];
    var partialCount, overrunCount, completeCount, fits;
    partialCount, overrunCount, completeCount, count, fits :=
      Advance(rules, states, validTokens, validTokenCount, tokenStr, at, rest, tokenStart, n);
    if !fits {
      NoSlot(rules, str, tokens, tokenStart, n, was, before);
      return ScanEnds(OutOfSlots), tokens, at, 0;
    }
    verdict, kept, index := Settle(rules, str, tokens, validTokens, count, tokenStart, at,
      partialCount, overrunCount, completeCount, n, was, before, states[..]);
  }

  /** What a character comes to, once every rule has read it. */
  method Settle(rules: seq<Rule>, str: Text, tokens: seq<Token>, validTokens: array<Completion>, count: nat,
                tokenStart: nat, at: nat, partialCount: nat, overrunCount: nat, completeCount: nat,
                ghost n: nat, ghost was: seq<RuleState>, ghost before: seq<Completion>, ghost now: seq<RuleState>)
    returns (verdict: Verdict, kept: seq<Token>, index: nat)
    requires SolidTable(rules) && at == tokenStart + n <= |str| && n < |Rest(str, tokenStart)|
    requires count <= validTokens.Length == |rules|
    requires Reading(rules, str, tokens, tokenStart, n, was, before)
    requires AllRead(rules, Rest(str, tokenStart), n + 1, now)
    requires validTokens[..count] == before + CompletedAt(rules, Rest(str, tokenStart), tokenStart, n + 1, |rules|)
    requires 0 < partialCount <==> HasState(rules, Rest(str, tokenStart), n + 1, |rules|, Partial)
    requires 0 < overrunCount <==> HasState(rules, Rest(str, tokenStart), n + 1, |rules|, Overrun)
    requires 0 < completeCount <==> HasState(rules, Rest(str, tokenStart), n + 1, |rules|, Complete)
    ensures verdict.TokenGoesOn? ==> kept == tokens && index == at
    ensures verdict.TokenGoesOn? ==> Reading(rules, str, tokens, tokenStart, n + 1, now, validTokens[..count])
    ensures verdict.ResetToken? ==> tokenStart <= index < |str|
    ensures verdict.ResetToken? ==> Scanned(rules, str, 0) == Before(kept, Scanned(rules, str, index + 1))
    ensures verdict.ScanEnds? ==> verdict.outcome == Scanned(rules, str, 0)
  {
    hide SolidTable, Scanned, Before, Rest, HasState, AllRead, Reading, Stopped, Records, BreakingAt, Completed,
      CompletedAt, StopAt, Emitted;
    kept, index := tokens, at;
    ghost var rest := Rest(str, tokenStart);
    ReadingStates(rules, str, tokens, tokenStart, n, was, before);
    StoppedIff(rules, rest, n + 1);
    CompletedNext(rules, rest, tokenStart, n, before, validTokens[..count]);
    if count == 0 {
      if !(completeCount > 0 || partialCount > 0 || overrunCount > 0) {
        NoneRecorded(rules, str, tokens, tokenStart, n, was, before);
        if IsWhiteSpace(if index < |str| then str[index] else NUL) { return ResetToken, tokens, index; }
        if index == |str| { return ScanEnds(Ok(tokens)), tokens, index; }
        return ScanEnds(NoRuleFound), tokens, index;
      }
    } else if completeCount == 0 && partialCount == 0 {
      var ruleCollision;
      var read := index - tokenStart + 1;
      assert read == n + 1;
      ruleCollision, kept, index := EndToken(rules, str, tokens, tokenStart, read, validTokens, count, was, before);
      if ruleCollision > 1 { return ScanEnds(AmbiguousToken), tokens, index; }
      return ResetToken, kept, index;
    }
    ReadOn(rules, str, tokens, tokenStart, n, was, before, now, validTokens[..count]);
    verdict := TokenGoesOn;
  }

  /**
   avTokenizeString. It ends for every table whose exact texts are not empty, although `index`
   moves backwards, and answers as the reference does. Every completion is written to a slot of
   its own; the answer OutOfSlots stands for the write that would have none.
   */
  method Tokenize(str: Text, rules: seq<Rule>) returns (result: Outcome)
    requires rules != [] && str != [] && |str| < NO_TOKEN && SolidTable(rules)
    ensures result == Scanned(rules, str, 0)
  {
    hide SolidTable, Scanned, Before, Rest, Reading;
    var tokens: seq<Token> := [];
    var tokenStart := NO_TOKEN;
    var states := new RuleState[|rules|](_ => Partial);
    var validTokens := new Completion[|rules|];
    var validTokenCount: nat, index: nat := 0, 0;
    ghost var start: nat, n: nat := 0, 0;
    BeforeNothing(Scanned(rules, str, 0));
    ReadStart(rules, str, tokens, 0, states[..]);
    while index <= |str|
      invariant start == (if tokenStart == NO_TOKEN then index else tokenStart) && start <= |str|
      invariant index == start + n <= |str| + 1
      invariant fresh(states) && fresh(validTokens) && states.Length == validTokens.Length == |rules|
      invariant validTokenCount <= validTokens.Length
      invariant Reading(rules, str, tokens, start, n, states[..], validTokens[..validTokenCount])
      decreases |str| - start, |str| + 2 - index
    {
      if tokenStart == NO_TOKEN {
        tokenStart := index;
      }
      var verdict;
      verdict, tokens, index, validTokenCount :=
        ReadChar(rules, str, tokens, states, validTokens, validTokenCount, tokenStart, index, n);
      match verdict {
        case ScanEnds(outcome) => return outcome;
        case ResetToken =>
          tokenStart := NO_TOKEN;
          validTokenCount := 0;
          ResetStates(states);
          start, n := index + 1, 0;
          ReadStart(rules, str, tokens, start, states[..]);
          assert validTokens[..0] == [];
        case TokenGoesOn =>
          n := n + 1;
      }
      index := index + 1;
    }
    RestEnds(str, start);
    ReadThrough(rules, str, tokens, start, n, states[..], validTokens[..validTokenCount]);
    return Ok(tokens);
  }

  lemma CompletedNext(rules: seq<Rule>, rest: Text, start: nat, n: nat, before: seq<Completion>, valid: seq<Completion>)
    requires n < |rest| && before == Completed(rules, rest, start, n)
    requires valid == before + CompletedAt(rules, rest, start, n + 1, |rules|)
    ensures valid == Completed(rules, rest, start, n + 1) && |valid| == Records(rules, rest, n + 1)
  {
  }
}
