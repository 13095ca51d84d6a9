/**
 What the tokenizer does to any table of rules, as a reference without arrays, counters and jumps:
 the state of each rule after each character, the characters at which rules break off, and the
 token that comes of it. And which rules may break off twice, for which the source has no room.
 */
module TokenizerRun {
  import opened Common
  import opened StringSearch
  import opened Tokenizer

  // ---- one rule ----

  /** The state after n characters of a token; a rule that was invalid once stays so. */
  function StateAfter(rule: Rule, rest: Text, n: nat): RuleState
    requires n <= |rest|
  {
    if n == 0 then Partial
    else if StateAfter(rule, rest, n - 1) == Invalid then Invalid
    else StateOf(rule, rest[..n])
  }

  /** What has failed stays so, and otherwise the state is what all characters so far say. */
  lemma {:induction false} FailedStays(rule: Rule, rest: Text, m: nat, n: nat)
    requires m <= n <= |rest|
    ensures StateAfter(rule, rest, m) == Invalid ==> StateAfter(rule, rest, n) == Invalid
    ensures 0 < n && StateAfter(rule, rest, n) != Invalid ==> StateAfter(rule, rest, n) == StateOf(rule, rest[..n])
    decreases n
  {
    hide StateOf;
    if m < n { FailedStays(rule, rest, m, n - 1); }
  }

  /** The n-th character is the one at which the rule breaks off: it went on before and overruns with it. */
  predicate BreaksAt(rule: Rule, rest: Text, n: nat)
    requires n <= |rest|
  {
    0 < n && StateAfter(rule, rest, n - 1) in {Partial, Complete} && StateAfter(rule, rest, n) == Overrun
  }

  /** How often a rule has broken off after n characters. */
  function Breaks(rule: Rule, rest: Text, n: nat): nat
    requires n <= |rest|
  {
    if n == 0 then 0 else Breaks(rule, rest, n - 1) + if BreaksAt(rule, rest, n) then 1 else 0
  }

  lemma NotOnFirst(rule: Rule, rest: Text)
    requires SolidRule(rule) && 1 <= |rest|
    ensures !BreaksAt(rule, rest, 1)
  {
    FirstCharFits(rule, rest[..1]);
  }

  // ---- a table of rules ----

  /** How many of the first m rules break off at the n-th character. */
  function BreakingAt(rules: seq<Rule>, rest: Text, n: nat, m: nat): (k: nat)
    requires n <= |rest| && m <= |rules|
    ensures 0 < k <==> exists i | 0 <= i < m :: BreaksAt(rules[i], rest, n)
  {
    if m == 0 then 0
    else BreakingAt(rules, rest, n, m - 1) + if BreaksAt(rules[m - 1], rest, n) then 1 else 0
  }

  /** The completions that are recorded in n characters. */
  function Records(rules: seq<Rule>, rest: Text, n: nat): nat
    requires n <= |rest|
  {
    if n == 0 then 0 else Records(rules, rest, n - 1) + BreakingAt(rules, rest, n, |rules|)
  }

  predicate HasState(rules: seq<Rule>, rest: Text, n: nat, m: nat, state: RuleState)
    requires n <= |rest| && m <= |rules|
  {
    exists i | 0 <= i < m :: StateAfter(rules[i], rest, n) == state
  }

  /** No rule goes on, and either something was recorded or no rule is in any state but invalid. */
  predicate Stopped(rules: seq<Rule>, rest: Text, n: nat)
    requires n <= |rest|
  {
    && !HasState(rules, rest, n, |rules|, Partial) && !HasState(rules, rest, n, |rules|, Complete)
    && (Records(rules, rest, n) == 0 ==> !HasState(rules, rest, n, |rules|, Overrun))
  }

  predicate Overfull(rules: seq<Rule>, rest: Text, n: nat)
    requires n <= |rest|
  {
    Records(rules, rest, n) > |rules|
  }

  /** The first number of characters, from n on, after which the token stops or the slots run out. */
  function StopAt(rules: seq<Rule>, rest: Text, n: nat): (d: nat)
    requires n <= |rest| + 1
    ensures n <= d <= |rest| + 1
    ensures d <= |rest| ==> Stopped(rules, rest, d) || Overfull(rules, rest, d)
    decreases |rest| + 1 - n
  {
    if n > |rest| || Stopped(rules, rest, n) || Overfull(rules, rest, n) then n else StopAt(rules, rest, n + 1)
  }

  predicate AnyBreaks(rules: seq<Rule>, rest: Text, n: nat)
    requires n <= |rest|
  {
    exists i | 0 <= i < |rules| :: BreaksAt(rules[i], rest, n)
  }

  /** The last character up to the n-th at which some rule broke off, or zero. */
  function LastBreak(rules: seq<Rule>, rest: Text, n: nat): (m: nat)
    requires n <= |rest|
    ensures m <= n && (0 < m ==> AnyBreaks(rules, rest, m))
  {
    if n == 0 then 0
    else if 0 < BreakingAt(rules, rest, n, |rules|) then n
    else LastBreak(rules, rest, n - 1)
  }

  lemma {:induction false} LastBreakMeans(rules: seq<Rule>, rest: Text, n: nat)
    requires n <= |rest|
    ensures 0 < LastBreak(rules, rest, n) <==> 0 < Records(rules, rest, n)
    ensures forall k | LastBreak(rules, rest, n) < k <= n :: !AnyBreaks(rules, rest, k)
  {
    hide BreaksAt;
    if n != 0 { LastBreakMeans(rules, rest, n - 1); }
  }

  /** The first of the rules that break off at the m-th character. */
  function FirstBreaking(rules: seq<Rule>, rest: Text, m: nat): (i: nat)
    requires m <= |rest| && AnyBreaks(rules, rest, m)
    ensures i < |rules| && BreaksAt(rules[i], rest, m)
  {
    FirstBreakingFrom(rules, rest, m, 0)
  }

  function FirstBreakingFrom(rules: seq<Rule>, rest: Text, m: nat, k: nat): (i: nat)
    requires m <= |rest| && exists i | k <= i < |rules| :: BreaksAt(rules[i], rest, m)
    ensures k <= i < |rules| && BreaksAt(rules[i], rest, m)
    decreases |rules| - k
  {
    hide BreaksAt;
    if BreaksAt(rules[k], rest, m) then k else FirstBreakingFrom(rules, rest, m, k + 1)
  }

  /** Rules of another token type break off at the same character. */
  predicate Rivals(rules: seq<Rule>, rest: Text, m: nat, tokenType: nat)
    requires m <= |rest|
  {
    exists i | 0 <= i < |rules| :: BreaksAt(rules[i], rest, m) && rules[i].tokenType != tokenType
  }

  /** No rule breaks off on the first character of a token. */
  lemma LastBreakLate(rules: seq<Rule>, rest: Text, n: nat)
    requires SolidTable(rules) && n <= |rest|
    ensures LastBreak(rules, rest, n) != 1
  {
    hide BreaksAt;
    if LastBreak(rules, rest, n) == 1 {
      var i :| 0 <= i < |rules| && BreaksAt(rules[i], rest, 1);
      NotOnFirst(rules[i], rest);
    }
  }

  /** What one token comes to: the end of the whole scan, or tokens and where the scan goes on. */
  datatype Turn = Ends(outcome: Outcome) | GoesOn(tokens: seq<Token>, next: nat)

  /** Read until no rule goes on; the rules that broke off last win, and the scan goes on behind their match. */
  function TurnAt(rules: seq<Rule>, str: Text, start: nat): (t: Turn)
    requires SolidTable(rules) && start <= |str|
    ensures t.GoesOn? ==> start < t.next <= |str|
  {
    var rest := Rest(str, start);
    var n := StopAt(rules, rest, 1);
    if n > |rest| then Ends(Ok([]))
    else if Overfull(rules, rest, n) then Ends(OutOfSlots)
    else if Records(rules, rest, n) == 0 then
      if IsWhiteSpace(rest[n - 1]) then GoesOn([], start + n)
      else if start + n == |str| + 1 then Ends(Ok([]))
      else Ends(NoRuleFound)
    else
      LastBreakMeans(rules, rest, n);
      LastBreakLate(rules, rest, n);
      var m := LastBreak(rules, rest, n);
      var tokenType := rules[FirstBreaking(rules, rest, m)].tokenType;
      if Rivals(rules, rest, m, tokenType) then Ends(AmbiguousToken)
      else GoesOn(Emitted([], Token(start, n - 1, tokenType)), start + m - 1)
  }

  /** The reference for the whole scan from a position on. */
  function Scanned(rules: seq<Rule>, str: Text, start: nat): Outcome
    requires SolidTable(rules) && start <= |str|
    decreases |str| - start
  {
    match TurnAt(rules, str, start)
    case Ends(outcome) => outcome
    case GoesOn(tokens, next) => Before(tokens, Scanned(rules, str, next))
  }

  lemma ScannedOnce(rules: seq<Rule>, str: Text, start: nat)
    requires SolidTable(rules) && start <= |str|
    ensures TurnAt(rules, str, start).Ends? ==> Scanned(rules, str, start) == TurnAt(rules, str, start).outcome
    ensures TurnAt(rules, str, start).GoesOn? ==>
      var t := TurnAt(rules, str, start); Scanned(rules, str, start) == Before(t.tokens, Scanned(rules, str, t.next))
  {
    hide TurnAt, Before, SolidTable;
  }
}
