/**
 Tables of exact rules: the scan is maximal munch. Two promises are kept only under conditions on
 the table, which are stated here exactly: that the text of a token is what its rule matched, and
 that no text that rules have started is dropped.
 */
module TokenizerMunch {
  import opened Common
  import opened StringSearch
  import opened Tokenizer
  import opened TokenizerRun
  import opened TokenizerSlots

  /** Exact rules whose texts are not empty and hold no NUL. */
  predicate ExactTable(rules: seq<Rule>) {
    forall i | 0 <= i < |rules| :: rules[i].Exact? && rules[i].text != [] && NUL !in rules[i].text
  }

  /** Some rule is matched so far or could still be. */
  predicate Alive(rules: seq<Rule>, seen: Text) {
    exists i | 0 <= i < |rules| :: seen <= rules[i].text
  }

  predicate AliveTo(rules: seq<Rule>, rest: Text, m: nat) {
    m < |rest| && Alive(rules, rest[..m + 1])
  }

  /** The first position after which no rule can go on; the NUL behind the input stops all. */
  function DeadAt(rules: seq<Rule>, rest: Text, n: nat): (d: nat)
    requires ExactTable(rules) && n < |rest| && rest[|rest| - 1] == NUL
    ensures n <= d < |rest| && !AliveTo(rules, rest, d)
    ensures forall m: nat | n <= m < d :: AliveTo(rules, rest, m)
    decreases |rest| - n
  {
    if !AliveTo(rules, rest, n) then n
    else
      NulKills(rules, rest, n);
      DeadAt(rules, rest, n + 1)
  }

  lemma NulKills(rules: seq<Rule>, rest: Text, n: nat)
    requires ExactTable(rules) && n < |rest| && rest[|rest| - 1] == NUL
    ensures AliveTo(rules, rest, n) ==> n + 1 < |rest|
  {
  }

  /** The length of the longest rule text that the input starts with, or zero. */
  function LongestMatch(rules: seq<Rule>, rest: Text): (n: nat)
    ensures n <= |rest|
    ensures forall i | 0 <= i < |rules| :: rules[i].text <= rest ==> |rules[i].text| <= n
    ensures 0 < n ==> exists i | 0 <= i < |rules| :: rules[i].text <= rest && |rules[i].text| == n
  {
    if rules == [] then 0
    else
      var n := LongestMatch(rules[1..], rest);
      var first := rules[0].text;
      assert forall i | 1 <= i < |rules| :: rules[i] == rules[1..][i - 1];
      assert 0 < n ==> exists i | 1 <= i < |rules| :: rules[i].text <= rest && |rules[i].text| == n by {
        if 0 < n {
          var i :| 0 <= i < |rules[1..]| && rules[1..][i].text <= rest && |rules[1..][i].text| == n;
          assert rules[i + 1].text <= rest;
        }
      }
      if first <= rest && n < |first| then |first| else n
  }

  predicate Wins(rules: seq<Rule>, rest: Text, i: nat) {
    i < |rules| && rules[i].text <= rest && |rules[i].text| == LongestMatch(rules, rest)
  }

  /** Two of the longest rules disagree on the token type. */
  ghost predicate Collides(rules: seq<Rule>, rest: Text) {
    exists i: nat, j: nat :: Wins(rules, rest, i) && Wins(rules, rest, j) && rules[i].tokenType != rules[j].tokenType
  }

  ghost function WinningType(rules: seq<Rule>, rest: Text): nat
    requires 0 < LongestMatch(rules, rest)
  {
    var i :| 0 <= i < |rules| && rules[i].text <= rest && |rules[i].text| == LongestMatch(rules, rest);
    rules[i].tokenType
  }

  /** The longest rule wins, and the scan goes on right behind it. */
  ghost function MunchTurn(rules: seq<Rule>, str: Text, start: nat): (t: Turn)
    requires ExactTable(rules) && start <= |str|
    ensures t.GoesOn? ==> start < t.next <= |str|
  {
    var rest := Rest(str, start);
    var dead := DeadAt(rules, rest, 0);
    var longest := LongestMatch(rules, rest);
    MatchInside(rules, str, start);
    if 0 < longest then
      if Collides(rules, rest) then Ends(AmbiguousToken)
      else GoesOn(Emitted([], Token(start, dead, WinningType(rules, rest))), start + longest)
    else if IsWhiteSpace(rest[dead]) then GoesOn([], start + dead + 1)
    else if start + dead == |str| then Ends(Ok([]))
    else Ends(NoRuleFound)
  }

  /** The reference for exact rules. */
  ghost function Munch(rules: seq<Rule>, str: Text, start: nat): Outcome
    requires ExactTable(rules) && start <= |str|
    decreases |str| - start
  {
    match MunchTurn(rules, str, start)
    case Ends(outcome) => outcome
    case GoesOn(tokens, next) => Before(tokens, Munch(rules, str, next))
  }

  /** No match reaches into the NUL behind the input. */
  lemma MatchInside(rules: seq<Rule>, str: Text, start: nat)
    requires ExactTable(rules) && start <= |str|
    ensures start + LongestMatch(rules, Rest(str, start)) <= |str|
    ensures LongestMatch(rules, Rest(str, start)) <= DeadAt(rules, Rest(str, start), 0)
  {
    var rest := Rest(str, start);
    var n := LongestMatch(rules, rest);
    var dead := DeadAt(rules, rest, 0);
    if 0 < n {
      var i :| 0 <= i < |rules| && rules[i].text <= rest && |rules[i].text| == n;
      assert NUL !in rules[i].text && rules[i].text == rest[..n];
      forall m: nat | m < n ensures AliveTo(rules, rest, m) {
        assert rest[..m + 1] <= rules[i].text;
      }
      NulKills(rules, rest, n - 1);
    }
  }

  // ---- the scan of exact rules ----

  lemma ExactIsSolid(rules: seq<Rule>)
    requires ExactTable(rules)
    ensures SolidTable(rules) && NoneRepeats(rules)
  {
  }

  lemma {:induction false} ExactAfter(rule: Rule, rest: Text, n: nat)
    requires rule.Exact? && rule.text != [] && n <= |rest|
    ensures StateAfter(rule, rest, n) == ExactState(rule.text, rest[..n])
  {
    if n != 0 {
      ExactAfter(rule, rest, n - 1);
      assert rest[..n] == rest[..n - 1] + [rest[n - 1]];
    }
  }

  /** An exact rule breaks off at the character behind its text. */
  lemma ExactBreaks(rule: Rule, rest: Text, n: nat)
    requires rule.Exact? && rule.text != [] && n <= |rest|
    ensures BreaksAt(rule, rest, n) <==> 0 < n && rule.text == rest[..n - 1]
  {
    hide StateAfter;
    ExactAfter(rule, rest, n);
    if 0 < n {
      ExactAfter(rule, rest, n - 1);
      assert rest[..n] == rest[..n - 1] + [rest[n - 1]];
    }
  }

  lemma AliveIff(rules: seq<Rule>, rest: Text, n: nat)
    requires ExactTable(rules) && 0 < n <= |rest|
    ensures HasState(rules, rest, n, |rules|, Partial) || HasState(rules, rest, n, |rules|, Complete)
      <==> AliveTo(rules, rest, n - 1)
  {
    hide StateAfter;
    forall i | 0 <= i < |rules| ensures StateAfter(rules[i], rest, n) == ExactState(rules[i].text, rest[..n]) {
      ExactAfter(rules[i], rest, n);
    }
  }

  /** Some rule broke off exactly if the input starts with some rule text and went on behind it. */
  lemma AnyBreaksIff(rules: seq<Rule>, rest: Text, n: nat)
    requires ExactTable(rules) && n <= |rest|
    ensures AnyBreaks(rules, rest, n) <==> 0 < n && exists i | 0 <= i < |rules| :: rules[i].text == rest[..n - 1]
  {
    hide BreaksAt;
    forall i | 0 <= i < |rules| ensures BreaksAt(rules[i], rest, n) <==> 0 < n && rules[i].text == rest[..n - 1] {
      ExactBreaks(rules[i], rest, n);
    }
  }

  lemma OverrunRecorded(rules: seq<Rule>, rest: Text, n: nat)
    requires ExactTable(rules) && n <= |rest|
    ensures HasState(rules, rest, n, |rules|, Overrun) ==> 0 < Records(rules, rest, n)
  {
    hide StateAfter, BreaksAt;
    LastBreakMeans(rules, rest, n);
    if i: nat :| i < |rules| && StateAfter(rules[i], rest, n) == Overrun {
      ExactAfter(rules[i], rest, n);
      var k := |rules[i].text| + 1;
      assert rules[i].text == rest[..n][..k - 1] == rest[..k - 1];
      AnyBreaksIff(rules, rest, k);
    }
  }

  lemma StoppedIsDead(rules: seq<Rule>, rest: Text, n: nat)
    requires ExactTable(rules) && 0 < n <= |rest|
    ensures Stopped(rules, rest, n) <==> !AliveTo(rules, rest, n - 1)
    ensures !Overfull(rules, rest, n)
  {
    hide HasState, AliveTo, Records;
    AliveIff(rules, rest, n);
    OverrunRecorded(rules, rest, n);
    ExactIsSolid(rules);
    SlotsSuffice(rules, rest, n);
  }

  lemma {:induction false} StopIsDead(rules: seq<Rule>, rest: Text, n: nat)
    requires ExactTable(rules) && n < |rest| && rest[|rest| - 1] == NUL
    ensures StopAt(rules, rest, n + 1) == DeadAt(rules, rest, n) + 1
    decreases |rest| - n
  {
    hide Stopped, Overfull, AliveTo, ExactTable;
    StoppedIsDead(rules, rest, n + 1);
    if AliveTo(rules, rest, n) {
      NulKills(rules, rest, n);
      StopIsDead(rules, rest, n + 1);
    }
  }

  /** The last rules to break off are the longest ones. */
  lemma LastIsLongest(rules: seq<Rule>, rest: Text, n: nat)
    requires ExactTable(rules) && n <= |rest| && LongestMatch(rules, rest) < n
    ensures LastBreak(rules, rest, n) == if 0 < LongestMatch(rules, rest) then LongestMatch(rules, rest) + 1 else 0
  {
    hide BreaksAt, LongestMatch, AnyBreaks;
    var longest, m := LongestMatch(rules, rest), LastBreak(rules, rest, n);
    LastBreakMeans(rules, rest, n);
    if 0 < longest { LongestBreaks(rules, rest); }
    if 0 < m { BreaksWithin(rules, rest, m); }
  }

  lemma LongestBreaks(rules: seq<Rule>, rest: Text)
    requires ExactTable(rules) && 0 < LongestMatch(rules, rest) < |rest|
    ensures AnyBreaks(rules, rest, LongestMatch(rules, rest) + 1)
  {
    hide AnyBreaks;
    var n := LongestMatch(rules, rest);
    var i: nat :| i < |rules| && rules[i].text <= rest && |rules[i].text| == n;
    assert rules[i].text == rest[..n];
    AnyBreaksIff(rules, rest, n + 1);
  }

  lemma BreaksWithin(rules: seq<Rule>, rest: Text, m: nat)
    requires ExactTable(rules) && 0 < m <= |rest| && AnyBreaks(rules, rest, m)
    ensures 0 < m - 1 <= LongestMatch(rules, rest)
  {
    hide AnyBreaks;
    AnyBreaksIff(rules, rest, m);
    var i: nat :| i < |rules| && rules[i].text == rest[..m - 1];
    assert rules[i].text <= rest;
  }

  lemma WinnersBreak(rules: seq<Rule>, rest: Text, i: nat)
    requires ExactTable(rules) && i < |rules| && 0 < LongestMatch(rules, rest) < |rest|
    ensures BreaksAt(rules[i], rest, LongestMatch(rules, rest) + 1) <==> Wins(rules, rest, i)
  {
    hide LongestMatch;
    var n := LongestMatch(rules, rest);
    ExactBreaks(rules[i], rest, n + 1);
    if Wins(rules, rest, i) { assert rules[i].text == rest[..n]; }
  }

  /** Rivals are rules of the longest match that disagree on the type. */
  lemma RivalsCollide(rules: seq<Rule>, rest: Text)
    requires ExactTable(rules) && 0 < LongestMatch(rules, rest) < |rest|
    ensures var m := LongestMatch(rules, rest) + 1;
      && AnyBreaks(rules, rest, m)
      && var tokenType := rules[FirstBreaking(rules, rest, m)].tokenType;
      && (Rivals(rules, rest, m, tokenType) <==> Collides(rules, rest))
      && (!Collides(rules, rest) ==> tokenType == WinningType(rules, rest))
  {
    hide LongestMatch, BreaksAt, Wins, ExactTable, WinningType;
    LongestBreaks(rules, rest);
    var m := LongestMatch(rules, rest) + 1;
    var first := FirstBreaking(rules, rest, m);
    forall i: nat | i < |rules| ensures BreaksAt(rules[i], rest, m) <==> Wins(rules, rest, i) {
      WinnersBreak(rules, rest, i);
    }
    WinsInside(rules, rest);
    if Rivals(rules, rest, m, rules[first].tokenType) {
      var i: nat :| i < |rules| && BreaksAt(rules[i], rest, m) && rules[i].tokenType != rules[first].tokenType;
      assert Wins(rules, rest, i) && Wins(rules, rest, first);
    }
    WinnerType(rules, rest, first);
  }

  lemma WinsInside(rules: seq<Rule>, rest: Text)
    ensures forall i: nat | Wins(rules, rest, i) :: i < |rules|
  {
  }

  lemma WinnerType(rules: seq<Rule>, rest: Text, i: nat)
    requires 0 < LongestMatch(rules, rest) && i < |rules| && Wins(rules, rest, i)
    ensures Collides(rules, rest) || WinningType(rules, rest) == rules[i].tokenType
  {
  }

  /** One token of the scan is one token of maximal munch. */
  lemma TurnIsMunch(rules: seq<Rule>, str: Text, start: nat)
    requires ExactTable(rules) && SolidTable(rules) && start <= |str|
    ensures TurnAt(rules, str, start) == MunchTurn(rules, str, start)
  {
    hide ExactTable, StopAt, DeadAt, LongestMatch, LastBreak, FirstBreaking, Rivals, Collides, WinningType, Emitted,
      Stopped, Records, Overfull, IsWhiteSpace, BreaksAt;
    var rest := Rest(str, start);
    var dead := DeadAt(rules, rest, 0);
    StopIsDead(rules, rest, 0);
    StoppedIsDead(rules, rest, dead + 1);
    MatchInside(rules, str, start);
    LastIsLongest(rules, rest, dead + 1);
    LastBreakMeans(rules, rest, dead + 1);
    if 0 < LongestMatch(rules, rest) { RivalsCollide(rules, rest); }
  }

  /** For exact rules the scan is maximal munch, and the slots always suffice. */
  lemma {:induction false} ScanIsMunch(rules: seq<Rule>, str: Text, start: nat)
    requires ExactTable(rules) && start <= |str|
    ensures SolidTable(rules) && Scanned(rules, str, start) == Munch(rules, str, start)
    ensures Munch(rules, str, start) != OutOfSlots
    decreases |str| - start
  {
    hide ExactTable, SolidTable, TurnAt, MunchTurn, NoneRepeats;
    ExactIsSolid(rules);
    TurnIsMunch(rules, str, start);
    ScanFits(rules, str, start);
    match TurnAt(rules, str, start)
    case Ends(_) =>
    case GoesOn(_, next) => ScanIsMunch(rules, str, next);
  }

  // ---- the text of a token ----

  predicate IsText(rules: seq<Rule>, q: Text) {
    exists k | 0 <= k < |rules| :: rules[k].text == q
  }

  predicate ExtendsText(rules: seq<Rule>, q: Text) {
    exists k | 0 <= k < |rules| :: rules[k].text <= q && rules[k].text != q
  }

  /** Every start of a rule text that goes on behind a rule text is a rule text itself. */
  ghost predicate Closed(rules: seq<Rule>) {
    forall i: nat, n: nat | i < |rules| && n <= |rules[i].text| ::
      ExtendsText(rules, rules[i].text[..n]) ==> IsText(rules, rules[i].text[..n])
  }

  /** The text of a token reaches to where the last rule broke off. */
  ghost predicate TextIsMatch(rules: seq<Rule>, str: Text, start: nat)
    requires ExactTable(rules) && start <= |str|
  {
    DeadAt(rules, Rest(str, start), 0) == LongestMatch(rules, Rest(str, start))
  }

  /** It is the match exactly if no rule goes on behind the match. */
  lemma TextIsMatchIff(rules: seq<Rule>, str: Text, start: nat)
    requires ExactTable(rules) && start <= |str|
    ensures TextIsMatch(rules, str, start) <==>
      !AliveTo(rules, Rest(str, start), LongestMatch(rules, Rest(str, start)))
  {
    MatchInside(rules, str, start);
  }

  lemma ClosedSuffices(rules: seq<Rule>, str: Text, start: nat)
    requires ExactTable(rules) && Closed(rules) && start <= |str| && 0 < LongestMatch(rules, Rest(str, start))
    ensures TextIsMatch(rules, str, start)
  {
    hide LongestMatch, DeadAt, IsText, ExtendsText, ExactTable, Rest, TextIsMatch;
    var rest := Rest(str, start);
    var n := LongestMatch(rules, rest);
    TextIsMatchIff(rules, str, start);
    if AliveTo(rules, rest, n) {
      var i: nat :| i < |rules| && rest[..n + 1] <= rules[i].text;
      var j: nat :| j < |rules| && rules[j].text <= rest && |rules[j].text| == n;
      assert rules[i].text[..n + 1] == rest[..n + 1];
      assert rules[j].text == rest[..n] == rest[..n + 1][..n];
      Extended(rules, rest[..n + 1], j);
      LongerText(rules, rest, n + 1);
    }
  }

  lemma Extended(rules: seq<Rule>, q: Text, j: nat)
    requires j < |rules| && rules[j].text <= q && rules[j].text != q
    ensures ExtendsText(rules, q)
  {
  }

  lemma LongerText(rules: seq<Rule>, rest: Text, n: nat)
    requires n <= |rest| && IsText(rules, rest[..n])
    ensures n <= LongestMatch(rules, rest)
  {
    hide LongestMatch;
    var k :| 0 <= k < |rules| && rules[k].text == rest[..n];
    assert rules[k].text <= rest;
  }

  lemma LongestIsText(rules: seq<Rule>, rest: Text)
    ensures 0 < LongestMatch(rules, rest) ==> IsText(rules, rest[..LongestMatch(rules, rest)])
  {
    hide LongestMatch;
    var m := LongestMatch(rules, rest);
    if 0 < m {
      var w: nat :| w < |rules| && rules[w].text <= rest && |rules[w].text| == m;
      assert rules[w].text == rest[..m];
    }
  }

  /** The start of a rule text that is no rule text itself, as the whole input, makes a token too long. */
  lemma OpenFails(rules: seq<Rule>, i: nat, n: nat)
    requires ExactTable(rules) && i < |rules| && n <= |rules[i].text|
    requires ExtendsText(rules, rules[i].text[..n]) && !IsText(rules, rules[i].text[..n])
    ensures var str := rules[i].text[..n]; 0 < LongestMatch(rules, Rest(str, 0)) && !TextIsMatch(rules, str, 0)
  {
    hide LongestMatch, DeadAt;
    var str := rules[i].text[..n];
    var rest := Rest(str, 0);
    var m := LongestMatch(rules, rest);
    var j: nat :| j < |rules| && rules[j].text <= str && rules[j].text != str;
    assert rest[..n] == str;
    assert rules[j].text <= rest;
    MatchInside(rules, str, 0);
    LongestIsText(rules, rest);
    assert rest[..m + 1] == str[..m + 1] <= rules[i].text;
    TextIsMatchIff(rules, str, 0);
  }

  /** The text of every token is what its rule matched, on every input, exactly if the table is closed. */
  lemma TextsAreMatchesIff(rules: seq<Rule>)
    requires ExactTable(rules)
    ensures (forall str: Text, start: nat | start <= |str| && 0 < LongestMatch(rules, Rest(str, start)) ::
               TextIsMatch(rules, str, start)) <==> Closed(rules)
  {
    hide LongestMatch, TextIsMatch, IsText, ExtendsText, ExactTable;
    if Closed(rules) {
      forall str: Text, start: nat | start <= |str| && 0 < LongestMatch(rules, Rest(str, start))
        ensures TextIsMatch(rules, str, start)
      {
        ClosedSuffices(rules, str, start);
      }
    } else {
      var i: nat, n: nat :| i < |rules| && n <= |rules[i].text| &&
        ExtendsText(rules, rules[i].text[..n]) && !IsText(rules, rules[i].text[..n]);
      OpenFails(rules, i, n);
    }
  }

  // ---- texts that are dropped ----

  /** Rules have started a text, none has finished it, and the scan goes on or ends without an error. */
  ghost predicate Dropped(rules: seq<Rule>, str: Text, start: nat)
    requires ExactTable(rules) && start <= |str|
  {
    var rest := Rest(str, start);
    var dead := DeadAt(rules, rest, 0);
    LongestMatch(rules, rest) == 0 && 0 < dead && (IsWhiteSpace(rest[dead]) || start + dead == |str|)
  }

  /** The first character of every rule text is a rule text itself. */
  ghost predicate FirstsAreTexts(rules: seq<Rule>) {
    forall i: nat | i < |rules| && rules[i].text != [] :: IsText(rules, rules[i].text[..1])
  }

  lemma StartedIsMatched(rules: seq<Rule>, str: Text, start: nat)
    requires ExactTable(rules) && FirstsAreTexts(rules) && start <= |str|
    ensures !Dropped(rules, str, start)
  {
    hide LongestMatch, DeadAt, IsText;
    var rest := Rest(str, start);
    if 0 < DeadAt(rules, rest, 0) {
      assert AliveTo(rules, rest, 0);
      var i: nat :| i < |rules| && rest[..1] <= rules[i].text;
      assert rules[i].text[..1] == rest[..1];
      LongerText(rules, rest, 1);
    }
  }

  /** Such a first character, alone, is dropped, and the answer is that there are no tokens. */
  lemma FirstAloneDropped(rules: seq<Rule>, i: nat)
    requires ExactTable(rules) && i < |rules| && !IsText(rules, rules[i].text[..1])
    ensures Dropped(rules, rules[i].text[..1], 0) && Munch(rules, rules[i].text[..1], 0) == Ok([])
  {
    hide LongestMatch, DeadAt, Munch;
    var str := rules[i].text[..1];
    var rest := Rest(str, 0);
    assert rest == [rules[i].text[0], NUL];
    MatchInside(rules, str, 0);
    LongestIsText(rules, rest);
    assert rest[..1] == str <= rules[i].text;
    assert AliveTo(rules, rest, 0);
    NulKills(rules, rest, 1);
    MunchOnce(rules, str, 0);
  }

  lemma MunchOnce(rules: seq<Rule>, str: Text, start: nat)
    requires ExactTable(rules) && start <= |str|
    ensures MunchTurn(rules, str, start).Ends? ==> Munch(rules, str, start) == MunchTurn(rules, str, start).outcome
    ensures MunchTurn(rules, str, start).GoesOn? ==>
      var t := MunchTurn(rules, str, start); Munch(rules, str, start) == Before(t.tokens, Munch(rules, str, t.next))
  {
    hide MunchTurn, Before, ExactTable;
  }

  /** No started text is ever dropped exactly if every first character is a rule text. */
  lemma NothingDroppedIff(rules: seq<Rule>)
    requires ExactTable(rules)
    ensures (forall str: Text, start: nat | start <= |str| :: !Dropped(rules, str, start)) <==> FirstsAreTexts(rules)
  {
    hide Dropped, IsText;
    if FirstsAreTexts(rules) {
      forall str: Text, start: nat | start <= |str| ensures !Dropped(rules, str, start) {
        StartedIsMatched(rules, str, start);
      }
    } else {
      var i: nat :| i < |rules| && rules[i].text != [] && !IsText(rules, rules[i].text[..1]);
      FirstAloneDropped(rules, i);
    }
  }

  // ---- at an input ----

  /** What the turn comes to when the longest match and the dead position are known. */
  lemma TurnHere(rules: seq<Rule>, str: Text, start: nat, longest: nat, dead: nat, winner: nat)
    requires ExactTable(rules) && start <= |str| && winner < |rules| && 0 < longest <= dead < |Rest(str, start)|
    requires rules[winner].text == Rest(str, start)[..longest]
    requires forall i | 0 <= i < |rules| && i != winner :: !(rules[i].text <= Rest(str, start))
    requires AliveTo(rules, Rest(str, start), dead - 1) && !AliveTo(rules, Rest(str, start), dead)
    ensures start + longest <= |str|
    ensures MunchTurn(rules, str, start) ==
      GoesOn(Emitted([], Token(start, dead, rules[winner].tokenType)), start + longest)
  {
    hide LongestMatch, DeadAt, Emitted;
    var rest := Rest(str, start);
    assert rules[winner].text <= rest;
    AliveBefore(rules, rest, dead - 1);
    assert DeadAt(rules, rest, 0) == dead;
    assert LongestMatch(rules, rest) == longest;
    assert Wins(rules, rest, winner);
    WinnerType(rules, rest, winner);
    assert forall i: nat | Wins(rules, rest, i) :: i == winner;
    MatchInside(rules, str, start);
  }

  lemma AliveBefore(rules: seq<Rule>, rest: Text, m: nat)
    requires AliveTo(rules, rest, m)
    ensures forall k: nat | k <= m :: AliveTo(rules, rest, k)
  {
    var i: nat :| i < |rules| && rest[..m + 1] <= rules[i].text;
    forall k: nat | k <= m ensures AliveTo(rules, rest, k) {
      assert rest[..k + 1] == rest[..m + 1][..k + 1];
      assert rest[..k + 1] <= rules[i].text;
    }
  }

  const OPEN_TABLE: seq<Rule> := [Exact("a", 1), Exact("abc", 2), Exact("b", 3)]

  /** The first token matched "a", and its text is "ab"; the scan goes on with the same "b". */
  lemma TextRunsOver()
    ensures ExactTable(OPEN_TABLE)
    ensures Munch(OPEN_TABLE, "ab", 0) == Ok([Token(0, 2, 1), Token(1, 1, 3)])
  {
    hide Munch, MunchTurn, DeadAt, LongestMatch;
    var rules := OPEN_TABLE;
    assert Rest("ab", 0) == ['a', 'b', NUL] && Rest("ab", 1) == ['b', NUL] && Rest("ab", 2) == [NUL];
    assert rules[1].text[2] == 'c' && rules[1].text[0] == 'a' && rules[2].text[0] == 'b';
    assert Rest("ab", 0)[..2] <= rules[1].text;
    TurnHere(rules, "ab", 0, 1, 2, 0);
    assert Rest("ab", 1)[..1] <= rules[2].text;
    TurnHere(rules, "ab", 1, 1, 1, 2);
    NothingLeft(rules, "ab");
    MunchOnce(rules, "ab", 2);
    MunchOnce(rules, "ab", 1);
    assert Munch(rules, "ab", 1) == Ok([Token(1, 1, 3)]);
    MunchOnce(rules, "ab", 0);
  }

  lemma NothingLeft(rules: seq<Rule>, str: Text)
    requires ExactTable(rules)
    ensures MunchTurn(rules, str, |str|) == Ends(Ok([]))
  {
    assert Rest(str, |str|) == [NUL];
    NulKills(rules, [NUL], 0);
    MatchInside(rules, str, |str|);
  }

  /** A started text that is dropped without a trace. */
  lemma TextDropped()
    ensures ExactTable([Exact("ab", 1)]) && Munch([Exact("ab", 1)], "a", 0) == Ok([])
    ensures Dropped([Exact("ab", 1)], "a", 0)
  {
    var rules := [Exact("ab", 1)];
    assert rules[0].text[..1] == "a";
    FirstAloneDropped(rules, 0);
  }
}
