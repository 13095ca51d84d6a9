/**
 The rules of the tokenizer: what an exact rule and a range rule say about the characters seen
 since the start of a token.
 */
module Tokenizer {
  import opened Common
  import opened StringSearch

  const NUL: char := '\0'
  /** The token type whose tokens are recognised and dropped. */
  const TYPE_IGNORE: nat := 0xFFFF_FFFF_FFFF_FFFF

  datatype RuleState = Invalid | Partial | Complete | Overrun

  datatype Rule =
    | Exact(text: Text, tokenType: nat)
    | Range(text: Text, startsWith: Text, endsWith: Text, useEscape: bool, tokenType: nat)

  /** Where a token starts in the input, how many characters its text has, and its type. */
  datatype Token = Token(start: nat, length: nat, tokenType: nat)

  /** OutOfSlots stands for a completion with no slot left for it, where the source has no answer. */
  datatype Outcome = Ok(tokens: seq<Token>) | AmbiguousToken | NoRuleFound | OutOfSlots

  predicate IsWhiteSpace(c: char) {
    c == ' ' || c == '\n' || c == '\r' || c == '\t' || c == '\U{000C}'
  }

  predicate IsNewline(c: char) {
    c == '\n' || c == '\r'
  }

  // ---- testing one rule ----

  /** How a text compares with the characters seen so far. */
  function ExactState(text: Text, seen: Text): RuleState {
    if text == [] then Overrun
    else if seen == text then Complete
    else if seen <= text then Partial
    else if text <= seen then Overrun
    else Invalid
  }

  /** checkString; `index` and the matched length start at zero in both of its uses. */
  method CheckString(text: Text, seen: Text) returns (state: RuleState, index: nat, validLength: nat)
    ensures state == ExactState(text, seen)
    ensures index <= |seen| && validLength <= |seen| && (state == Overrun ==> index == validLength == |text|)
  {
    index, validLength := 0, 0;
    if text != [] {
      while index < |seen|
        invariant index <= |seen| && index <= |text| && seen[..index] == text[..index]
      {
        if |text| <= index {
          assert text == seen[..|text|];
          return Overrun, index, |text|;
        }
        if seen[index] != text[index] {
          return Invalid, index, validLength;
        }
        index := index + 1;
      }
      assert seen[..index] == seen;
      if index < |text| {
        return Partial, index, validLength;
      }
      assert text[..index] == text;
      return Complete, index, |text|;
    }
    return Overrun, 0, 0;
  }

  /**
   What the leftmost end says that is not escaped: nothing yet, that it is the last thing seen,
   or that something follows it. An end right behind the first character is never escaped.
   */
  function EndState(end: Text, seen: Text, useEscape: bool): (state: RuleState)
    ensures state != Invalid && (state == Overrun ==> 0 < |end| < |seen|)
    decreases |seen|
  {
    var i := NextMatch(seen, end, 0);
    if end == [] || i == NOT_FOUND then Partial
    else if useEscape && i > 1 && seen[i - 1] == '\\' then EndState(end, seen[i + 1..], useEscape)
    else if i + |end| == |seen| then Complete
    else Overrun
  }

  /** What is complete ends with the end, and any further character overruns it. */
  lemma {:induction false} EndIsLast(end: Text, seen: Text, more: Text, useEscape: bool)
    ensures EndState(end, seen, useEscape) == Complete ==> |end| <= |seen| && seen[|seen| - |end|..] == end
    ensures EndState(end, seen, useEscape) != Partial && more != [] ==> EndState(end, seen + more, useEscape) == Overrun
    decreases |seen|
  {
    hide NextMatch;
    var i := NextMatch(seen, end, 0);
    if end != [] && i != NOT_FOUND {
      NextMatchLonger(seen, end, more, 0);
      if useEscape && i > 1 && seen[i - 1] == '\\' {
        EndIsLast(end, seen[i + 1..], more, useEscape);
        assert (seen + more)[i + 1..] == seen[i + 1..] + more;
        if EndState(end, seen, useEscape) == Complete { TailOfTail(seen, i + 1, |end|); }
      }
    }
  }

  lemma TailOfTail(s: Text, from: nat, n: nat)
    requires from + n <= |s|
    ensures s[from..][|s| - from - n..] == s[|s| - n..]
  {
  }

  /** checkEndsWith; an end that the input only starts at its tail counts as none. */
  method CheckEndsWith(end: Text, seen: Text, useEscape: bool) returns (state: RuleState)
    ensures state == EndState(end, seen, useEscape)
    decreases |seen|
  {
    hide NextMatch, MatchesAt;
    if end != [] {
      var offset := FindFirst(seen, end);
      HitOrTail(seen, end, offset);
      if offset == NOT_FOUND { return Partial; }
      if useEscape && offset > 1 {
        if seen[offset - 1] == '\\' {
          state := CheckEndsWith(end, seen[offset + 1..], useEscape);
          NoRoom(seen[offset + 1..], end);
          return;
        }
      }
      if offset == |seen| - |end| { return Complete; }
      if offset < |seen| - |end| { return Overrun; }
    }
    return Partial;
  }

  lemma HitOrTail(seen: Text, end: Text, offset: int)
    requires end != [] && IsFirstHit(seen, end, offset)
    ensures NextMatch(seen, end, 0) == if offset + |end| <= |seen| then offset else NOT_FOUND
    ensures offset == NOT_FOUND || 0 <= offset < |seen|
  {
    hide NextMatch;
    if NextMatch(seen, end, 0) != NOT_FOUND {
      FirstHitIsNext(seen, end, offset);
    } else if offset != NOT_FOUND && offset + |end| <= |seen| {
      HitIsMatch(seen, offset, end);
    }
  }

  lemma NoRoom(seen: Text, end: Text)
    ensures |seen| < |end| ==> NextMatch(seen, end, 0) == NOT_FOUND
  {
  }

  /** Whether the character before position k of the body escapes the one there. */
  predicate EscapedAt(rule: Rule, body: Text, k: nat)
    requires rule.Range? && k <= |body|
    decreases k
  {
    0 < k &&
    if IsNewline(body[k - 1]) then EscapedAt(rule, body, k - 1)
    else rule.useEscape && body[k - 1] == '\\' && !EscapedAt(rule, body, k - 1)
  }

  /** Whether the rule admits the character at position k of the body. */
  predicate AdmittedAt(rule: Rule, body: Text, k: nat)
    requires rule.Range? && k < |body|
  {
    rule.text == [] ||
    (!IsNewline(body[k]) &&
     (body[k] in rule.text || EscapedAt(rule, body, k) || (rule.useEscape && body[k] == '\\')))
  }

  /** What a range rule says about the characters behind its start. */
  function BodyState(rule: Rule, body: Text): RuleState
    requires rule.Range?
  {
    var end := EndState(rule.endsWith, body, rule.useEscape);
    if body == [] then Partial
    else if end != Partial then end
    else if forall k | 0 <= k < |body| :: AdmittedAt(rule, body, k) then Partial
    else if AdmittedAt(rule, body, 0) then Overrun
    else Invalid
  }

  /** What a range rule says about the characters seen so far. */
  function RangeState(rule: Rule, seen: Text): RuleState
    requires rule.Range?
  {
    var begin := ExactState(rule.startsWith, seen);
    if begin == Complete then Partial
    else if begin != Overrun then begin
    else BodyState(rule, seen[|rule.startsWith|..])
  }

  /** testRangeRule; it asks for the end of the same body again before every character. */
  method TestRangeRule(rule: Rule, seen: Text) returns (state: RuleState)
    requires rule.Range?
    ensures state == RangeState(rule, seen)
  {
    hide EndState;
    var index, validLength;
    state, index, validLength := CheckString(rule.startsWith, seen);
    if state == Complete { return Partial; }
    if state != Overrun { return; }
    ghost var body := seen[|rule.startsWith|..];
    var varLength := 0;
    var escaped := false;
    while index < |seen|
      invariant index == |rule.startsWith| + varLength <= |seen|
      invariant escaped == EscapedAt(rule, body, varLength)
      invariant forall k | 0 <= k < varLength :: AdmittedAt(rule, body, k)
      invariant 0 < varLength ==> EndState(rule.endsWith, body, rule.useEscape) == Partial
    {
      state := CheckEndsWith(rule.endsWith, seen[validLength..], rule.useEscape);
      if state != Partial { return; }
      var chr := seen[index];
      assert chr == body[varLength];
      var validChar := rule.text == [];
      if !IsNewline(chr) {
        if rule.useEscape && !escaped && chr == '\\' {
          escaped := true;
          validChar := true;
        } else {
          for i := 0 to |rule.text|
            invariant validChar <==> rule.text == [] || chr in rule.text[..i]
          {
            if rule.text[i] == chr {
              validChar := true;
              break;
            }
          }
          if escaped {
            validChar := true;
            escaped := false;
          }
        }
      }
      if !validChar {
        assert !AdmittedAt(rule, body, varLength);
        return if varLength > 0 then Overrun else Invalid;
      }
      varLength := varLength + 1;
      index := index + 1;
    }
    return Partial;
  }

  predicate SolidRule(rule: Rule) {
    rule.Exact? ==> rule.text != []
  }

  function StateOf(rule: Rule, seen: Text): RuleState {
    if rule.Exact? then ExactState(rule.text, seen) else RangeState(rule, seen)
  }

  /** No rule overruns on the first character of a token. */
  lemma FirstCharFits(rule: Rule, seen: Text)
    requires SolidRule(rule) && |seen| == 1
    ensures StateOf(rule, seen) != Overrun
  {
  }

  method TestRule(rule: Rule, seen: Text) returns (state: RuleState)
    requires SolidRule(rule)
    ensures state == StateOf(rule, seen)
  {
    match rule
    case Exact(text, _) =>
      var index, validLength;
      state, index, validLength := CheckString(text, seen);
    case Range(_, _, _, _, _) =>
      state := TestRangeRule(rule, seen);
  }

  predicate SolidTable(rules: seq<Rule>) {
    forall i | 0 <= i < |rules| :: SolidRule(rules[i])
  }

  // ---- input and output ----

  /** The input from a position on, with the NUL behind it. */
  function Rest(str: Text, start: nat): Text
    requires start <= |str|
  {
    (str + [NUL])[start..]
  }

  function Emitted(tokens: seq<Token>, token: Token): seq<Token> {
    if token.tokenType == TYPE_IGNORE then tokens else tokens + [token]
  }

  function Before(tokens: seq<Token>, then_: Outcome): Outcome {
    if then_.Ok? then Ok(tokens + then_.tokens) else then_
  }

  lemma BeforeNothing(o: Outcome)
    ensures Before([], o) == o
  {
    if o.Ok? { assert [] + o.tokens == o.tokens; }
  }
}
