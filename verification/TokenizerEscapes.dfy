/**
 Escaped ends of range rules. The test for the end looks one character back and starts over behind
 an end that it takes for escaped, while the test of the characters tracks escapes properly. Here
 is when the two agree about where the range ends.
 */
module TokenizerEscapes {
  import opened Common
  import opened StringSearch
  import opened Tokenizer

  /** A range rule that has an end. */
  predicate Closes(rule: Rule) {
    rule.Range? && rule.endsWith != []
  }

  predicate EndsAt(rule: Rule, body: Text, p: nat)
    requires Closes(rule)
  {
    MatchesAt(body, p, rule.endsWith)
  }

  /** The first end, from a position on, that no backslash escapes. */
  function FreeEnd(rule: Rule, body: Text, from: nat): (p: int)
    requires Closes(rule)
    ensures p != NOT_FOUND ==> from <= p && EndsAt(rule, body, p) && !EscapedAt(rule, body, p)
    ensures forall q: nat | from <= q && (p == NOT_FOUND || q < p) && EndsAt(rule, body, q) :: EscapedAt(rule, body, q)
    decreases |body| - from
  {
    var p := NextMatch(body, rule.endsWith, from);
    if p == NOT_FOUND || !EscapedAt(rule, body, p) then p else FreeEnd(rule, body, p + 1)
  }

  /** The end that the code takes, when it last started over at `from`. */
  function TakenEnd(rule: Rule, body: Text, from: nat): (p: int)
    requires Closes(rule)
    ensures p != NOT_FOUND ==> from <= p && EndsAt(rule, body, p)
    decreases |body| - from
  {
    var p := NextMatch(body, rule.endsWith, from);
    if p != NOT_FOUND && rule.useEscape && p > from + 1 && body[p - 1] == '\\' then TakenEnd(rule, body, p + 1) else p
  }

  /** What an end at this position says about a body. */
  function StateOfEnd(rule: Rule, body: Text, p: int): RuleState
    requires Closes(rule)
  {
    if p == NOT_FOUND then Partial else if p + |rule.endsWith| == |body| then Complete else Overrun
  }

  lemma {:induction false} TakenState(rule: Rule, body: Text, from: nat)
    requires Closes(rule) && from <= |body|
    ensures EndState(rule.endsWith, body[from..], rule.useEscape) == StateOfEnd(rule, body, TakenEnd(rule, body, from))
    decreases |body| - from
  {
    hide NextMatch, MatchesAt, EndState, TakenEnd;
    var rest := body[from..];
    NextMatchShift(body, rule.endsWith, from);
    EndStateStep(rule.endsWith, rest, rule.useEscape);
    TakenStep(rule, body, from);
    var i := NextMatch(rest, rule.endsWith, 0);
    if i != NOT_FOUND && rule.useEscape && i > 1 && rest[i - 1] == '\\' {
      TakenState(rule, body, from + i + 1);
      assert rest[i + 1..] == body[from + i + 1..];
    }
  }

  lemma EndStateStep(end: Text, seen: Text, useEscape: bool)
    requires end != []
    ensures var i := NextMatch(seen, end, 0);
      EndState(end, seen, useEscape) ==
        if i == NOT_FOUND then Partial
        else if useEscape && i > 1 && seen[i - 1] == '\\' then EndState(end, seen[i + 1..], useEscape)
        else if i + |end| == |seen| then Complete
        else Overrun
  {
    hide NextMatch, MatchesAt;
  }

  lemma TakenStep(rule: Rule, body: Text, from: nat)
    requires Closes(rule)
    ensures var p := NextMatch(body, rule.endsWith, from);
      TakenEnd(rule, body, from) ==
        if p != NOT_FOUND && rule.useEscape && p > from + 1 && body[p - 1] == '\\' then TakenEnd(rule, body, p + 1)
        else p
  {
    hide NextMatch, MatchesAt;
  }

  /**
   An end is noticed to be escaped if a backslash stands before it, and neither the start of the
   body nor another end lies fewer than two characters back.
   */
  predicate Noticed(rule: Rule, body: Text, p: nat)
    requires Closes(rule) && p <= |body|
  {
    rule.useEscape && 1 < p && body[p - 1] == '\\' && !EndsAt(rule, body, p - 1) && !EndsAt(rule, body, p - 2)
  }

  /** The end taken is the first one that is not noticed to be escaped. */
  lemma {:induction false} TakenMeans(rule: Rule, body: Text, from: nat)
    requires Closes(rule) && (from == 0 || EndsAt(rule, body, from - 1))
    ensures var p := TakenEnd(rule, body, from);
      && (p != NOT_FOUND ==> !Noticed(rule, body, p))
      && (forall q: nat | from <= q && (p == NOT_FOUND || q < p) && EndsAt(rule, body, q) :: Noticed(rule, body, q))
    decreases |body| - from
  {
    hide NextMatch, MatchesAt;
    var p := NextMatch(body, rule.endsWith, from);
    if p != NOT_FOUND {
      assert Noticed(rule, body, p) <==> rule.useEscape && p > from + 1 && body[p - 1] == '\\';
      if Noticed(rule, body, p) { TakenMeans(rule, body, p + 1); }
    }
  }

  /** Every end up to the first free one is noticed to be escaped exactly if it is. */
  ghost predicate JudgedRightly(rule: Rule, body: Text)
    requires Closes(rule)
  {
    var free := FreeEnd(rule, body, 0);
    forall p: nat | (free == NOT_FOUND || p <= free) && EndsAt(rule, body, p) ::
      Noticed(rule, body, p) <==> EscapedAt(rule, body, p)
  }

  /** The code takes the first free end exactly if it judges the ends up to there rightly. */
  lemma TakenIsFreeIff(rule: Rule, body: Text)
    requires Closes(rule)
    ensures TakenEnd(rule, body, 0) == FreeEnd(rule, body, 0) <==> JudgedRightly(rule, body)
  {
    hide EndsAt, Noticed, EscapedAt;
    TakenMeans(rule, body, 0);
  }

  // ---- starts of a body ----

  lemma {:induction false} EscapedInStart(rule: Rule, body: Text, n: nat, k: nat)
    requires rule.Range? && k <= n <= |body|
    ensures EscapedAt(rule, body[..n], k) == EscapedAt(rule, body, k)
    decreases k
  {
    if 0 < k { EscapedInStart(rule, body, n, k - 1); }
  }

  lemma EndsInStart(rule: Rule, body: Text, n: nat, p: nat)
    requires Closes(rule) && n <= |body|
    ensures EndsAt(rule, body[..n], p) <==> EndsAt(rule, body, p) && p + |rule.endsWith| <= n
  {
    if p + |rule.endsWith| <= n {
      assert body[..n][p..p + |rule.endsWith|] == body[p..p + |rule.endsWith|];
    }
  }

  /** Where an end lies that fits into the first n characters. */
  function Within(rule: Rule, n: nat, p: int): int
    requires Closes(rule)
  {
    if p != NOT_FOUND && p + |rule.endsWith| <= n then p else NOT_FOUND
  }

  lemma FreeInStart(rule: Rule, body: Text, n: nat)
    requires Closes(rule) && n <= |body|
    ensures FreeEnd(rule, body[..n], 0) == Within(rule, n, FreeEnd(rule, body, 0))
  {
    hide EndsAt, EscapedAt, FreeEnd;
    var f, g := FreeEnd(rule, body, 0), FreeEnd(rule, body[..n], 0);
    forall p: nat ensures EndsAt(rule, body[..n], p) <==> EndsAt(rule, body, p) && p + |rule.endsWith| <= n {
      EndsInStart(rule, body, n, p);
    }
    forall p: nat | p <= n ensures EscapedAt(rule, body[..n], p) == EscapedAt(rule, body, p) {
      EscapedInStart(rule, body, n, p);
    }
  }

  lemma NoticedInStart(rule: Rule, body: Text, n: nat, p: nat)
    requires Closes(rule) && n <= |body| && EndsAt(rule, body[..n], p)
    ensures p <= n && Noticed(rule, body[..n], p) == Noticed(rule, body, p)
  {
    EndsInStart(rule, body, n, p);
    if 1 < p {
      EndsInStart(rule, body, n, p - 1);
      EndsInStart(rule, body, n, p - 2);
    }
  }

  lemma TakenInStart(rule: Rule, body: Text, n: nat)
    requires Closes(rule) && n <= |body|
    ensures TakenEnd(rule, body[..n], 0) == Within(rule, n, TakenEnd(rule, body, 0))
  {
    hide EndsAt, Noticed, TakenEnd;
    TakenMeans(rule, body, 0);
    TakenMeans(rule, body[..n], 0);
    forall p: nat ensures EndsAt(rule, body[..n], p) <==> EndsAt(rule, body, p) && p + |rule.endsWith| <= n {
      EndsInStart(rule, body, n, p);
    }
    forall p: nat | EndsAt(rule, body[..n], p)
      ensures p <= n && Noticed(rule, body[..n], p) == Noticed(rule, body, p)
    {
      NoticedInStart(rule, body, n, p);
    }
  }

  /** On every start of the body, the end is partial, complete or overrun as the first free end says. */
  ghost predicate EndsRightly(rule: Rule, body: Text)
    requires Closes(rule)
  {
    forall n: nat | n <= |body| ::
      EndState(rule.endsWith, body[..n], rule.useEscape) == StateOfEnd(rule, body[..n], FreeEnd(rule, body[..n], 0))
  }

  lemma StartState(rule: Rule, body: Text, n: nat)
    requires Closes(rule) && n <= |body|
    ensures EndState(rule.endsWith, body[..n], rule.useEscape)
      == StateOfEnd(rule, body[..n], Within(rule, n, TakenEnd(rule, body, 0)))
    ensures FreeEnd(rule, body[..n], 0) == Within(rule, n, FreeEnd(rule, body, 0))
  {
    hide EndState, TakenEnd, FreeEnd;
    assert body[..n][0..] == body[..n];
    TakenState(rule, body[..n], 0);
    TakenInStart(rule, body, n);
    FreeInStart(rule, body, n);
  }

  /** A body read character by character ends where it should exactly if its ends are judged rightly. */
  lemma EndsRightlyIff(rule: Rule, body: Text)
    requires Closes(rule)
    ensures EndsRightly(rule, body) <==> JudgedRightly(rule, body)
  {
    hide EndState, TakenEnd, FreeEnd, JudgedRightly;
    var taken, free := TakenEnd(rule, body, 0), FreeEnd(rule, body, 0);
    TakenIsFreeIff(rule, body);
    forall n: nat | n <= |body|
      ensures EndState(rule.endsWith, body[..n], rule.useEscape)
        == StateOfEnd(rule, body[..n], FreeEnd(rule, body[..n], 0))
        <==> StateOfEnd(rule, body[..n], Within(rule, n, taken)) == StateOfEnd(rule, body[..n], Within(rule, n, free))
    {
      StartState(rule, body, n);
    }
    if taken != free {
      var first := if taken == NOT_FOUND || (free != NOT_FOUND && free < taken) then free else taken;
      var n := first + |rule.endsWith|;
      assert StateOfEnd(rule, body[..n], first) == Complete;
    }
  }

  // ---- which rules are right on every input ----

  /** A body that begins with a backslash and the end, or with a newline in between. */
  function Misleading(end: Text): Text {
    (if forall k | 0 <= k < |end| :: end[k] == '\\' then "\\\n" else "\\") + end
  }

  /** Its end is escaped, and the code does not notice. */
  lemma MisleadingEnd(rule: Rule)
    requires Closes(rule) && rule.useEscape && rule.endsWith != ['\\']
    ensures !JudgedRightly(rule, Misleading(rule.endsWith))
  {
    hide FreeEnd, Misleading, MatchesAt, EscapedAt, Noticed;
    var end, body := rule.endsWith, Misleading(rule.endsWith);
    var p := |body| - |end|;
    EscapedUnnoticed(rule);
    forall q: nat | q < p ensures !EndsAt(rule, body, q) { OnlyEnd(end, q); }
    EndsInside(rule, body);
    assert FreeEnd(rule, body, 0) == NOT_FOUND;
  }

  lemma EscapedUnnoticed(rule: Rule)
    requires Closes(rule) && rule.useEscape && rule.endsWith != ['\\']
    ensures var body := Misleading(rule.endsWith); var p := |body| - |rule.endsWith|;
      0 <= p && EndsAt(rule, body, p) && EscapedAt(rule, body, p) && !Noticed(rule, body, p)
  {
    var end, body := rule.endsWith, Misleading(rule.endsWith);
    var p := |body| - |end|;
    assert body[p..p + |end|] == end;
    assert EscapedAt(rule, body, 1);
  }

  lemma EndsInside(rule: Rule, body: Text)
    requires Closes(rule)
    ensures forall q: nat | EndsAt(rule, body, q) :: q + |rule.endsWith| <= |body|
  {
  }

  lemma OnlyEnd(end: Text, q: nat)
    requires end != [] && end != ['\\'] && q < |Misleading(end)| - |end|
    ensures !MatchesAt(Misleading(end), q, end)
  {
    var body := Misleading(end);
    if k :| 0 <= k < |end| && end[k] != '\\' {
      if MatchesAt(body, 0, end) { AllBackslashes(end, k); }
    } else {
      assert body[1] == '\n' && end[1 - q] == '\\';
      assert body[q..q + |end|][1 - q] == body[1];
    }
  }

  /** What is its own start behind a backslash consists of backslashes. */
  lemma {:induction false} AllBackslashes(end: Text, k: nat)
    requires k < |end| && MatchesAt("\\" + end, 0, end)
    ensures end[k] == '\\'
  {
    var body := "\\" + end;
    assert body[0..|end|][k] == end[k];
    if 0 < k { AllBackslashes(end, k - 1); }
  }

  /** A lone backslash as the end is never escaped before it has ended the range. */
  lemma BackslashEnd(rule: Rule, body: Text)
    requires Closes(rule) && rule.endsWith == ['\\']
    ensures JudgedRightly(rule, body)
  {
    hide EscapedAt, NextMatch;
    var p := NextMatch(body, rule.endsWith, 0);
    if p != NOT_FOUND {
      forall k: nat | k < p ensures body[k] != '\\' {
        assert !MatchesAt(body, k, rule.endsWith);
        assert body[k..k + 1] == [body[k]];
      }
      NotEscaped(rule, body, p);
    }
  }

  lemma {:induction false} NotEscaped(rule: Rule, body: Text, p: nat)
    requires rule.Range? && p <= |body| && forall k: nat | k < p :: body[k] != '\\'
    ensures !EscapedAt(rule, body, p)
    decreases p
  {
    if 0 < p { NotEscaped(rule, body, p - 1); }
  }

  lemma {:induction false} NeverEscaped(rule: Rule, body: Text, p: nat)
    requires rule.Range? && !rule.useEscape && p <= |body|
    ensures !EscapedAt(rule, body, p)
    decreases p
  {
    if 0 < p { NeverEscaped(rule, body, p - 1); }
  }

  /** Without escapes every end is judged rightly, and the first one is free. */
  lemma WithoutEscapes(rule: Rule, body: Text)
    requires Closes(rule) && !rule.useEscape
    ensures JudgedRightly(rule, body) && FreeEnd(rule, body, 0) == NextMatch(body, rule.endsWith, 0)
  {
    hide EscapedAt, NextMatch;
    forall p: nat | p <= |body| ensures !EscapedAt(rule, body, p) { NeverEscaped(rule, body, p); }
  }

  /** Ranges end where they should on every input exactly if there are no escapes, or the end is a backslash. */
  lemma AlwaysRightIff(rule: Rule)
    requires Closes(rule)
    ensures (forall body: Text :: EndsRightly(rule, body)) <==> !rule.useEscape || rule.endsWith == ['\\']
  {
    hide EndsRightly, JudgedRightly;
    if !rule.useEscape || rule.endsWith == ['\\'] {
      forall body: Text ensures EndsRightly(rule, body) {
        EndsRightlyIff(rule, body);
        if rule.useEscape { BackslashEnd(rule, body); } else { WithoutEscapes(rule, body); }
      }
    } else {
      MisleadingEnd(rule);
      EndsRightlyIff(rule, Misleading(rule.endsWith));
    }
  }

  // ---- what is complete ----

  /** A text between the delimiters in which the first end that is not escaped is the one at the end. */
  ghost predicate Encloses(rule: Rule, body: Text, seen: Text)
    requires Closes(rule)
  {
    seen == rule.startsWith + (body + rule.endsWith) && FreeEnd(rule, body + rule.endsWith, 0) == |body|
  }

  /** A range is complete exactly on a delimited text, if the ends in it are judged rightly. */
  lemma CompleteIff(rule: Rule, seen: Text)
    requires Closes(rule)
    requires rule.startsWith <= seen ==> JudgedRightly(rule, seen[|rule.startsWith|..])
    ensures RangeState(rule, seen) == Complete <==> exists body :: Encloses(rule, body, seen)
  {
    hide FreeEnd, TakenEnd, JudgedRightly, EndState, RangeState, EndsAt;
    var n := |rule.startsWith|;
    CompleteBody(rule, seen);
    if rule.startsWith <= seen {
      var rest := seen[n..];
      assert rest[0..] == rest;
      TakenState(rule, rest, 0);
      TakenIsFreeIff(rule, rest);
      if RangeState(rule, seen) == Complete {
        var i := FreeEnd(rule, rest, 0);
        EndPart(rule, rest, i);
        assert rule.startsWith + rest == seen;
        assert Encloses(rule, rest[..i], seen);
      }
    }
    if body :| Encloses(rule, body, seen) {
      assert seen[n..] == body + rule.endsWith;
      assert seen[..n] == rule.startsWith;
    }
  }

  lemma EndPart(rule: Rule, body: Text, p: nat)
    requires Closes(rule) && EndsAt(rule, body, p) && p + |rule.endsWith| == |body|
    ensures body[..p] + rule.endsWith == body
  {
  }

  lemma CompleteBody(rule: Rule, seen: Text)
    requires Closes(rule)
    ensures RangeState(rule, seen) == Complete <==>
      && rule.startsWith <= seen
      && EndState(rule.endsWith, seen[|rule.startsWith|..], rule.useEscape) == Complete
  {
    hide EndState;
    EndOfNothing(rule);
    if rule.startsWith == seen { assert seen[|rule.startsWith|..] == []; }
  }

  lemma EndOfNothing(rule: Rule)
    requires Closes(rule)
    ensures EndState(rule.endsWith, [], rule.useEscape) == Partial
  {
  }

  // ---- at an input ----

  const QUOTED: Rule := Range("", "\"", "\"", true, 1)

  /** An escaped quote right behind the opening ends the token. */
  lemma EscapedEndTaken()
    ensures RangeState(QUOTED, "\"\\\"") == Complete && FreeEnd(QUOTED, "\\\"", 0) == NOT_FOUND
  {
    var body := "\\\"";
    assert "\"\\\""[1..] == body && "\"\\\""[..1] == "\"";
    assert body[0..1][0] == '\\' && body[1..2] == "\"";
    assert NextMatch(body, "\"", 0) == 1;
  }

  /** The quote behind an escaped backslash is passed over. */
  lemma FreeEndPassed()
    ensures RangeState(QUOTED, "\"a\\\\\"") != Complete && FreeEnd(QUOTED, "a\\\\\"", 0) == 3
  {
    var body := "a\\\\\"";
    assert "\"a\\\\\""[1..] == body && "\"a\\\\\""[..1] == "\"";
    assert body[0..1][0] == 'a' && body[1..2][0] == '\\' && body[2..3][0] == '\\' && body[3..4] == "\"";
    assert MatchesAt(body, 3, "\"") && !MatchesAt(body, 2, "\"") && !MatchesAt(body, 1, "\"");
    assert NextMatch(body, "\"", 0) == 3;
    assert body[4..] == "";
  }
}
