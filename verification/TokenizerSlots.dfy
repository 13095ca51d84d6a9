/**
 The source keeps completions in an array with one slot a rule. A range rule that has both a set
 of characters and an end may break off twice in one token: on a character outside the set and
 again behind the end. This module tells exactly which rules can.
 */
module TokenizerSlots {
  import opened Common
  import opened StringSearch
  import opened Tokenizer
  import opened TokenizerRun

  /** The rule goes on after this character at the beginning of its body. */
  predicate Opens(rule: Rule, a: char)
    requires rule.Range?
  {
    !IsNewline(a) && (a in rule.text || (rule.useEscape && a == '\\'))
  }

  /** A range with a set and an end, whose body may open with a character that is not already the end. */
  ghost predicate CanRepeat(rule: Rule) {
    && rule.Range? && rule.text != [] && rule.endsWith != []
    && exists a :: Opens(rule, a) && [a] != rule.endsWith
  }

  // ---- once an end is found ----

  lemma {:induction false} EscapedSame(rule: Rule, a: Text, b: Text, k: nat)
    requires rule.Range? && a <= b && k <= |a|
    ensures EscapedAt(rule, a, k) == EscapedAt(rule, b, k)
    decreases k
  {
    if 0 < k { EscapedSame(rule, a, b, k - 1); }
  }

  lemma AdmittedSame(rule: Rule, a: Text, b: Text, k: nat)
    requires rule.Range? && a <= b && k < |a|
    ensures AdmittedAt(rule, a, k) == AdmittedAt(rule, b, k)
  {
    EscapedSame(rule, a, b, k);
  }

  lemma OpensFirst(rule: Rule, body: Text)
    requires rule.Range? && rule.text != [] && body != []
    ensures AdmittedAt(rule, body, 0) <==> Opens(rule, body[0])
  {
  }

  lemma FoundAtFront(end: Text, body: Text, useEscape: bool)
    requires body != [] && [body[0]] == end
    ensures EndState(end, body, useEscape) != Partial
  {
    assert MatchesAt(body, 0, end);
  }

  /** A rule that cannot repeat never comes back once it has overrun. */
  lemma OverrunStays(rule: Rule, seen: Text, c: char)
    requires SolidRule(rule) && !CanRepeat(rule) && StateOf(rule, seen) == Overrun
    ensures StateOf(rule, seen + [c]) in {Overrun, Invalid}
  {
    hide EndState, EscapedAt, AdmittedAt, Opens;
    if rule.Range? && seen[|rule.startsWith|..] != [] {
      var body := seen[|rule.startsWith|..];
      assert (seen + [c])[|rule.startsWith|..] == body + [c];
      if EndState(rule.endsWith, body, rule.useEscape) != Partial {
        EndIsLast(rule.endsWith, body, [c], rule.useEscape);
      } else {
        var k :| 0 <= k < |body| && !AdmittedAt(rule, body, k);
        AdmittedSame(rule, body, body + [c], k);
        NoEndIsLast(rule, body, c);
      }
    }
  }

  lemma NoEndIsLast(rule: Rule, body: Text, c: char)
    requires rule.Range? && !CanRepeat(rule) && body != [] && EndState(rule.endsWith, body, rule.useEscape) == Partial
    requires AdmittedAt(rule, body, 0) && exists k | 0 <= k < |body| :: !AdmittedAt(rule, body, k)
    ensures EndState(rule.endsWith, body + [c], rule.useEscape) == Partial
  {
    hide NextMatch, EscapedAt;
    assert rule.text != [];
    OpensFirst(rule, body);
    if rule.endsWith != [] {
      FoundAtFront(rule.endsWith, body, rule.useEscape);
    }
  }

  lemma {:induction false} BreaksOnce(rule: Rule, rest: Text, n: nat)
    requires SolidRule(rule) && !CanRepeat(rule) && n <= |rest|
    ensures Breaks(rule, rest, n) <= 1
    ensures Breaks(rule, rest, n) == 1 ==> StateAfter(rule, rest, n) in {Overrun, Invalid}
  {
    hide StateOf, CanRepeat;
    if n != 0 {
      BreaksOnce(rule, rest, n - 1);
      if StateAfter(rule, rest, n - 1) == Overrun && 1 < n {
        assert rest[..n] == rest[..n - 1] + [rest[n - 1]];
        OverrunStays(rule, rest[..n - 1], rest[n - 1]);
      }
    }
  }

  // ---- a slot for every completion ----

  function BreaksAmong(rules: seq<Rule>, rest: Text, n: nat, m: nat): nat
    requires n <= |rest| && m <= |rules|
  {
    if m == 0 then 0 else BreaksAmong(rules, rest, n, m - 1) + Breaks(rules[m - 1], rest, n)
  }

  lemma {:induction false} AmongNext(rules: seq<Rule>, rest: Text, n: nat, m: nat)
    requires 0 < n <= |rest| && m <= |rules|
    ensures BreaksAmong(rules, rest, n, m) == BreaksAmong(rules, rest, n - 1, m) + BreakingAt(rules, rest, n, m)
  {
    hide BreaksAt;
    if m != 0 { AmongNext(rules, rest, n, m - 1); }
  }

  lemma {:induction false} AmongNone(rules: seq<Rule>, rest: Text, m: nat)
    requires m <= |rules|
    ensures BreaksAmong(rules, rest, 0, m) == 0
  {
    if m != 0 { AmongNone(rules, rest, m - 1); }
  }

  /** What is recorded character by character is what the rules break off, rule by rule. */
  lemma {:induction false} RecordsByRule(rules: seq<Rule>, rest: Text, n: nat)
    requires n <= |rest|
    ensures Records(rules, rest, n) == BreaksAmong(rules, rest, n, |rules|)
  {
    hide BreaksAmong, BreakingAt, BreaksAt, StateAfter;
    if n == 0 {
      AmongNone(rules, rest, |rules|);
    } else {
      RecordsByRule(rules, rest, n - 1);
      AmongNext(rules, rest, n, |rules|);
    }
  }

  ghost predicate NoneRepeats(rules: seq<Rule>) {
    forall i | 0 <= i < |rules| :: !CanRepeat(rules[i])
  }

  lemma {:induction false} AmongFits(rules: seq<Rule>, rest: Text, n: nat, m: nat)
    requires SolidTable(rules) && NoneRepeats(rules) && n <= |rest| && m <= |rules|
    ensures BreaksAmong(rules, rest, n, m) <= m
  {
    hide CanRepeat, Breaks;
    if m != 0 {
      AmongFits(rules, rest, n, m - 1);
      BreaksOnce(rules[m - 1], rest, n);
    }
  }

  /** When no rule of the table can repeat, the slots are never used up. */
  lemma SlotsSuffice(rules: seq<Rule>, rest: Text, n: nat)
    requires SolidTable(rules) && NoneRepeats(rules) && n <= |rest|
    ensures Records(rules, rest, n) <= |rules|
  {
    RecordsByRule(rules, rest, n);
    AmongFits(rules, rest, n, |rules|);
  }

  lemma TurnFits(rules: seq<Rule>, str: Text, start: nat)
    requires SolidTable(rules) && NoneRepeats(rules) && start <= |str|
    ensures TurnAt(rules, str, start) != Ends(OutOfSlots)
  {
    hide StopAt, Records, LastBreak, FirstBreaking, Rivals, SolidTable, NoneRepeats, Emitted, Rest, IsWhiteSpace;
    var rest := Rest(str, start);
    var n := StopAt(rules, rest, 1);
    if n <= |rest| { SlotsSuffice(rules, rest, n); }
  }

  /** For such a table the scan never runs out of slots, whatever the input. */
  lemma {:induction false} ScanFits(rules: seq<Rule>, str: Text, start: nat)
    requires SolidTable(rules) && NoneRepeats(rules) && start <= |str|
    ensures Scanned(rules, str, start) != OutOfSlots
    decreases |str| - start
  {
    hide TurnAt, SolidTable, NoneRepeats;
    TurnFits(rules, str, start);
    match TurnAt(rules, str, start)
    case Ends(_) =>
    case GoesOn(_, next) => ScanFits(rules, str, next);
  }

  // ---- a rule that repeats ----

  /** A text on which the rule breaks off twice: an opening, a newline, the end, and one more character. */
  function Twice(rule: Rule, a: char, b: char): Text
    requires rule.Range?
  {
    rule.startsWith + Around(rule.endsWith, a, b)
  }

  function Around(end: Text, a: char, b: char): (body: Text)
    ensures |body| == |end| + 3 && body[0] == a && body[1] == b && body[..1] == [a] && body[..2] == [a, b]
  {
    [a, b] + end + [a]
  }

  /** A newline that does not complete an end behind the opening. */
  lemma SomeNewline(rule: Rule, a: char) returns (b: char)
    requires rule.Range?
    ensures IsNewline(b) && rule.endsWith != [b] && rule.endsWith != [a, b]
  {
    b := if rule.endsWith == ['\n'] || rule.endsWith == [a, '\n'] then '\r' else '\n';
  }

  /** Where the first end lies behind the opening and the newline. */
  lemma EndBehind(end: Text, a: char, b: char, useEscape: bool) returns (q: nat)
    requires end != [] && end != [a] && end != [b] && end != [a, b] && IsNewline(b)
    ensures var body := Around(end, a, b);
      && 2 < q < |body|
      && EndState(end, body[..q], useEscape) == Complete
      && EndState(end, body[..q + 1], useEscape) == Overrun
      && EndState(end, [a], useEscape) == Partial && EndState(end, [a, b], useEscape) == Partial
  {
    hide EndState, NextMatch;
    var body := Around(end, a, b);
    var i := FirstEnd(end, a, b);
    q := i + |end|;
    FirstInPrefix(body, end, i);
    assert body[..q][..i] == body[..i];
    assert 1 < i ==> body[..q][i - 1] == b;
    EndComplete(end, body[..q], i, useEscape);
    NoEndIn(end, [a], useEscape);
    NoEndIn(end, [a, b], useEscape);
    assert body[..q + 1] == body[..q] + [body[q]];
    EndIsLast(end, body[..q], [body[q]], useEscape);
  }

  lemma FirstEnd(end: Text, a: char, b: char) returns (i: nat)
    requires end != [] && end != [a] && end != [b] && end != [a, b]
    ensures var body := Around(end, a, b);
      NextMatch(body, end, 0) == i <= 2 && 2 < i + |end| < |body|
  {
    var body := Around(end, a, b);
    assert body[2..2 + |end|] == end;
    assert MatchesAt(body, 2, end);
    i := NextMatch(body, end, 0);
    assert body[i..i + |end|] == end;
  }

  lemma EndComplete(end: Text, seen: Text, i: nat, useEscape: bool)
    requires end != [] && NextMatch(seen, end, 0) == i && i + |end| == |seen|
    requires 1 < i ==> seen[i - 1] != '\\'
    ensures EndState(end, seen, useEscape) == Complete
  {
  }

  lemma NoEndIn(end: Text, seen: Text, useEscape: bool)
    requires |seen| <= 2 && end != seen && forall k | 0 <= k < |seen| :: end != [seen[k]]
    ensures EndState(end, seen, useEscape) == Partial
  {
    var i := NextMatch(seen, end, 0);
    if i != NOT_FOUND { ShortMatch(end, seen, i); }
  }

  lemma ShortMatch(end: Text, seen: Text, i: nat)
    requires |seen| <= 2 && MatchesAt(seen, i, end)
    ensures end == [] || end == seen || exists k | 0 <= k < |seen| :: end == [seen[k]]
  {
    if |end| == 1 { assert end == [seen[i]]; }
  }

  lemma FirstInPrefix(body: Text, end: Text, i: nat)
    requires NextMatch(body, end, 0) == i && i + |end| <= |body|
    ensures NextMatch(body[..i + |end|], end, 0) == i
  {
    var front := body[..i + |end|];
    assert body == front + body[i + |end|..];
    MatchInFront(front, end, body[i + |end|..], i);
    forall j: nat | j < i ensures !MatchesAt(front, j, end) {
      MatchInFront(front, end, body[i + |end|..], j);
    }
  }

  lemma RangeAlong(rule: Rule, rest: Text, body: Text, n: nat)
    requires rule.Range? && rule.startsWith + body <= rest && 0 < n <= |rule.startsWith| + |body|
    ensures StateOf(rule, rest[..n]) ==
      if n <= |rule.startsWith| then Partial else BodyState(rule, body[..n - |rule.startsWith|])
  {
    hide BodyState;
    var s := |rule.startsWith|;
    assert rest[..n] == (rule.startsWith + body)[..n];
    if s < n {
      assert rest[..n] == rule.startsWith + body[..n - s];
      assert rest[..n][s..] == body[..n - s];
    } else {
      assert rest[..n] == rule.startsWith[..n];
      if n == s { assert rest[..n] == rule.startsWith; }
    }
  }

  lemma BodyNotInvalid(rule: Rule, body: Text, k: nat)
    requires rule.Range? && 0 < k <= |body| && AdmittedAt(rule, body, 0)
    ensures BodyState(rule, body[..k]) != Invalid
  {
    hide EndState, EscapedAt;
    AdmittedSame(rule, body[..k], body, 0);
  }

  /** The states of a range rule along its start and a body that opens well. */
  lemma {:induction false} StatesAlong(rule: Rule, rest: Text, body: Text, n: nat)
    requires rule.Range? && body != [] && AdmittedAt(rule, body, 0)
    requires rule.startsWith + body <= rest && n <= |rule.startsWith| + |body|
    ensures StateAfter(rule, rest, n) ==
      if n <= |rule.startsWith| then Partial else BodyState(rule, body[..n - |rule.startsWith|])
  {
    hide AdmittedAt, BodyState, StateOf;
    if n != 0 {
      StatesAlong(rule, rest, body, n - 1);
      RangeAlong(rule, rest, body, n);
      if |rule.startsWith| < n - 1 { BodyNotInvalid(rule, body, n - 1 - |rule.startsWith|); }
    }
  }

  lemma {:induction false} BreaksGrow(rule: Rule, rest: Text, j: nat, k: nat)
    requires j <= k <= |rest|
    ensures Breaks(rule, rest, j) <= Breaks(rule, rest, k)
    decreases k
  {
    hide BreaksAt;
    if j < k { BreaksGrow(rule, rest, j, k - 1); }
  }

  lemma BreakCounts(rule: Rule, rest: Text, n: nat)
    requires n <= |rest| && BreaksAt(rule, rest, n)
    ensures 0 < n && Breaks(rule, rest, n) == Breaks(rule, rest, n - 1) + 1
  {
  }

  lemma BreaksTwo(rule: Rule, rest: Text, j: nat, k: nat, n: nat)
    requires j < k <= n <= |rest| && BreaksAt(rule, rest, j) && BreaksAt(rule, rest, k)
    ensures 2 <= Breaks(rule, rest, n)
  {
    hide BreaksAt;
    BreakCounts(rule, rest, j);
    BreakCounts(rule, rest, k);
    BreaksGrow(rule, rest, j, k - 1);
    BreaksGrow(rule, rest, k, n);
  }

  /** An opening and a newline that show a rule repeating. */
  ghost predicate Shows(rule: Rule, a: char, b: char) {
    && rule.Range? && rule.text != [] && rule.endsWith != [] && Opens(rule, a) && IsNewline(b)
    && rule.endsWith != [a] && rule.endsWith != [b] && rule.endsWith != [a, b]
  }

  lemma BodyOpens(rule: Rule, a: char, b: char)
    requires rule.Range? && rule.text != [] && Opens(rule, a) && IsNewline(b)
    requires EndState(rule.endsWith, [a], rule.useEscape) == Partial
    requires EndState(rule.endsWith, [a, b], rule.useEscape) == Partial
    ensures BodyState(rule, [a]) == Partial && BodyState(rule, [a, b]) == Overrun
  {
    hide EndState;
    OpensFirst(rule, [a]);
    OpensFirst(rule, [a, b]);
    assert !AdmittedAt(rule, [a, b], 1);
  }

  lemma BodyEnds(rule: Rule, body: Text)
    requires rule.Range? && body != [] && EndState(rule.endsWith, body, rule.useEscape) != Partial
    ensures BodyState(rule, body) == EndState(rule.endsWith, body, rule.useEscape)
  {
  }

  lemma StatesShown(rule: Rule, a: char, b: char) returns (q: nat)
    requires rule.Range? && Shows(rule, a, b)
    ensures var body := Around(rule.endsWith, a, b);
      && 2 < q < |body| && AdmittedAt(rule, body, 0)
      && BodyState(rule, body[..1]) == Partial && BodyState(rule, body[..2]) == Overrun
      && BodyState(rule, body[..q]) == Complete && BodyState(rule, body[..q + 1]) == Overrun
  {
    hide EndState, BodyState, AdmittedAt, Opens, Around;
    var body := Around(rule.endsWith, a, b);
    q := EndBehind(rule.endsWith, a, b, rule.useEscape);
    OpensFirst(rule, body);
    BodyOpens(rule, a, b);
    BodyEnds(rule, body[..q]);
    BodyEnds(rule, body[..q + 1]);
  }

  /** The rule breaks off on the newline, is completed by the end, and breaks off again behind it. */
  lemma RepeatsOn(rule: Rule, a: char, b: char, rest: Text)
    requires rule.Range? && Shows(rule, a, b) && Twice(rule, a, b) <= rest
    ensures 2 <= Breaks(rule, rest, |Twice(rule, a, b)|)
  {
    hide BodyState, StateAfter, Breaks, AdmittedAt, Shows, Around;
    var s, body := |rule.startsWith|, Around(rule.endsWith, a, b);
    var q := StatesShown(rule, a, b);
    StatesAlong(rule, rest, body, s + 1);
    StatesAlong(rule, rest, body, s + 2);
    StatesAlong(rule, rest, body, s + q);
    StatesAlong(rule, rest, body, s + q + 1);
    BreaksTwo(rule, rest, s + 2, s + q + 1, s + |body|);
  }

  /** A rule breaks off at most once on every input exactly if it cannot repeat. */
  lemma BreaksOnceIff(rule: Rule)
    requires SolidRule(rule)
    ensures (forall rest: Text, n: nat | n <= |rest| :: Breaks(rule, rest, n) <= 1) <==> !CanRepeat(rule)
  {
    hide Breaks;
    if CanRepeat(rule) {
      var a :| Opens(rule, a) && [a] != rule.endsWith;
      var b := SomeNewline(rule, a);
      RepeatsOn(rule, a, b, Twice(rule, a, b));
    } else {
      forall rest: Text, n: nat | n <= |rest| ensures Breaks(rule, rest, n) <= 1 {
        BreaksOnce(rule, rest, n);
      }
    }
  }

  // ---- beside another rule ----

  lemma {:induction false} StopFirst(rules: seq<Rule>, rest: Text, from: nat, n: nat)
    requires from <= |rest| + 1 && from <= n < StopAt(rules, rest, from)
    ensures n <= |rest| && !Stopped(rules, rest, n) && !Overfull(rules, rest, n)
    decreases n - from
  {
    hide Stopped, Overfull;
    if from < n { StopFirst(rules, rest, from + 1, n); }
  }

  /** An exact rule that is the whole input goes on to its end and breaks off at the NUL behind it. */
  lemma {:induction false} WholeInput(text: Text, tokenType: nat, n: nat)
    requires text != [] && n <= |text| + 1
    ensures var rule, rest := Exact(text, tokenType), Rest(text, 0);
      StateAfter(rule, rest, n) == if n < |text| then Partial else if n == |text| then Complete else Overrun
  {
    var rest := Rest(text, 0);
    if n != 0 {
      WholeInput(text, tokenType, n - 1);
      if n <= |text| {
        assert rest[..n] == text[..n];
        assert text[..|text|] == text;
      } else {
        assert rest[..n] == text + [NUL];
        assert (text + [NUL])[..|text|] == text;
      }
    }
  }

  /** Beside an exact rule that keeps the token alive, a rule that repeats uses up the slots. */
  lemma RunsOut(rule: Rule, a: char, b: char, tokenType: nat)
    requires rule.Range? && Shows(rule, a, b)
    ensures var text := Twice(rule, a, b); var rules := [rule, Exact(text, tokenType)];
      SolidTable(rules) && Scanned(rules, text, 0) == OutOfSlots
  {
    hide StateAfter, StateOf, Twice, Shows, Breaks;
    TwiceSome(rule, a, b);
    var text := Twice(rule, a, b);
    var other := Exact(text, tokenType);
    var rules, rest := [rule, other], Rest(text, 0);
    var all := |text| + 1;
    RepeatsOn(rule, a, b, rest);
    BreaksGrow(rule, rest, |text|, all);
    WholeInput(text, tokenType, |text|);
    WholeInput(text, tokenType, all);
    assert BreaksAt(other, rest, all);
    BreakCounts(other, rest, all);
    TwoRules(rules, rest, all);
    assert Overfull(rules, rest, all);
    var n := StopAt(rules, rest, 1);
    if all < n { StopFirst(rules, rest, 1, all); }
    if n < all {
      WholeInput(text, tokenType, n);
      assert StateAfter(rules[1], rest, n) in {Partial, Complete};
    }
  }

  lemma TwiceSome(rule: Rule, a: char, b: char)
    requires rule.Range? && Shows(rule, a, b)
    ensures Twice(rule, a, b) != [] && Twice(rule, a, b) <= Rest(Twice(rule, a, b), 0)
    ensures |Rest(Twice(rule, a, b), 0)| == |Twice(rule, a, b)| + 1
  {
  }

  lemma TwoRules(rules: seq<Rule>, rest: Text, n: nat)
    requires |rules| == 2 && n <= |rest|
    ensures Records(rules, rest, n) == Breaks(rules[0], rest, n) + Breaks(rules[1], rest, n)
  {
    hide Breaks;
    RecordsByRule(rules, rest, n);
    assert BreaksAmong(rules, rest, n, 1) == Breaks(rules[0], rest, n);
  }

  /** A rule has a slot for every completion beside every exact rule, on every input, exactly if it cannot repeat. */
  lemma SafeBesideIff(rule: Rule, tokenType: nat)
    requires SolidRule(rule)
    ensures (forall text: Text, str: Text | text != [] :: RunBeside(rule, text, tokenType, str) != OutOfSlots)
      <==> !CanRepeat(rule)
  {
    hide Scanned;
    if CanRepeat(rule) {
      var a :| Opens(rule, a) && [a] != rule.endsWith;
      var b := SomeNewline(rule, a);
      RunsOut(rule, a, b, tokenType);
      TwiceSome(rule, a, b);
      var text := Twice(rule, a, b);
      assert RunBeside(rule, text, tokenType, text) == OutOfSlots;
    } else {
      forall text: Text, str: Text | text != [] ensures RunBeside(rule, text, tokenType, str) != OutOfSlots {
        ScanFits([rule, Exact(text, tokenType)], str, 0);
      }
    }
  }

  function RunBeside(rule: Rule, text: Text, tokenType: nat, str: Text): Outcome
    requires SolidRule(rule) && text != []
  {
    Scanned([rule, Exact(text, tokenType)], str, 0)
  }

  /** A table and an input that use up the slots: three completions for two rules. */
  lemma RunsOutHere()
    ensures var rules := [Range("b", "a", "z", false, 1), Exact("ab\nzb", 2)];
      SolidTable(rules) && Scanned(rules, "ab\nzb", 0) == OutOfSlots
  {
    var rule := Range("b", "a", "z", false, 1);
    assert Twice(rule, 'b', '\n') == "ab\nzb";
    RunsOut(rule, 'b', '\n', 2);
  }
}
