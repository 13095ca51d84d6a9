/**
 Finding, counting, replacing and splitting in length-terminated strings.

 Two matchers are at work. `FindCount` scans once and starts the pattern again at the next
 character after a mismatch, so it may miss occurrences. `FindFirst` tries every start from
 the left, but accepts a truncated match at the very end. `Replace` and `Split` size their
 output with the first and fill it with the second.
 */
module StringSearch {
  import opened Common

  const NOT_FOUND := -1

  // ---- occurrences ----

  predicate MatchesAt(s: Text, i: nat, p: Text) {
    i + |p| <= |s| && s[i..i + |p|] == p
  }

  /** The pattern stands between what is in front of position i and what is behind it. */
  lemma MatchesAtMeans(s: Text, i: nat, p: Text)
    ensures MatchesAt(s, i, p) <==> exists a: Text, b: Text :: |a| == i && s == a + p + b
  {
    if MatchesAt(s, i, p) {
      assert s == s[..i] + p + s[i + |p|..];
    }
  }

  /** The leftmost occurrence at or after `from`. */
  function NextMatch(s: Text, p: Text, from: nat): (i: int)
    ensures i == NOT_FOUND || (from <= i && i + |p| <= |s| && MatchesAt(s, i, p))
    ensures i == NOT_FOUND ==> forall j: nat | from <= j :: !MatchesAt(s, j, p)
    ensures i != NOT_FOUND ==> forall j: nat | from <= j < i :: !MatchesAt(s, j, p)
    decreases |s| - from
  {
    if |s| < from + |p| then NOT_FOUND
    else if MatchesAt(s, from, p) then from
    else NextMatch(s, p, from + 1)
  }

  /** How many occurrences the leftmost greedy choice finds at or after `from`. */
  function GreedyCount(s: Text, p: Text, from: nat): nat
    requires p != []
    decreases |s| - from
  {
    var i := NextMatch(s, p, from);
    if i == NOT_FOUND then 0 else 1 + GreedyCount(s, p, i + |p|)
  }

  /** An occurrence right at the start is taken. */
  lemma GreedyTakes(s: Text, p: Text, from: nat)
    requires p != [] && MatchesAt(s, from, p)
    ensures GreedyCount(s, p, from) == 1 + GreedyCount(s, p, from + |p|)
  {
  }

  lemma GreedyNone(s: Text, p: Text, from: nat)
    requires p != [] && |s| < from + |p|
    ensures GreedyCount(s, p, from) == 0
  {
  }

  lemma GreedyStep(s: Text, p: Text, a: nat, b: nat)
    requires p != [] && NextMatch(s, p, a) == NextMatch(s, p, b)
    ensures GreedyCount(s, p, a) == GreedyCount(s, p, b)
  {
  }

  lemma LongerPrefix(s: Text, p: Text, i: nat, k: nat)
    requires i < |s| && k < |p| && k <= i && s[i - k..i] == p[..k] && s[i] == p[k]
    ensures s[i - k..i + 1] == p[..k + 1]
    ensures k + 1 == |p| ==> MatchesAt(s, i - k, p)
  {
    assert s[i - k..i + 1] == s[i - k..i] + [s[i]];
    assert p[..k + 1] == p[..k] + [p[k]];
  }

  /** Starting later never finds more. */
  lemma {:induction false} GreedyMonotone(s: Text, p: Text, a: nat, b: nat)
    requires p != [] && a <= b
    ensures GreedyCount(s, p, b) <= GreedyCount(s, p, a)
    decreases |s| - a
  {
    hide NextMatch, MatchesAt;
    var i, j := NextMatch(s, p, a), NextMatch(s, p, b);
    if j != NOT_FOUND {
      assert i != NOT_FOUND && i <= j;
      GreedyMonotone(s, p, i + |p|, j + |p|);
    }
  }

  ghost predicate DisjointMatches(s: Text, p: Text, at: seq<nat>, from: nat) {
    && (forall k | 0 <= k < |at| :: from <= at[k] && MatchesAt(s, at[k], p))
    && (forall j, k | 0 <= j < k < |at| :: at[j] + |p| <= at[k])
  }

  /** The leftmost greedy choice is optimal: no list of disjoint occurrences is longer. */
  lemma {:induction false} GreedyIsOptimal(s: Text, p: Text, at: seq<nat>, from: nat)
    requires p != [] && DisjointMatches(s, p, at, from)
    ensures |at| <= GreedyCount(s, p, from)
    decreases |at|
  {
    hide NextMatch, MatchesAt;
    if at != [] {
      var i := NextMatch(s, p, from);
      assert MatchesAt(s, at[0], p);
      GreedyIsOptimal(s, p, at[1..], at[0] + |p|);
      GreedyMonotone(s, p, i + |p|, at[0] + |p|);
    }
  }

  // ---- the scanning counter ----

  /** Matches the scan completes from position i on, with k characters of p already matched. */
  function Scan(s: Text, p: Text, i: nat, k: nat): nat
    requires i <= |s| && k < |p|
    decreases |s| - i
  {
    if i == |s| then 0
    else if s[i] != p[k] then Scan(s, p, i + 1, 0)
    else if k + 1 == |p| then 1 + Scan(s, p, i + 1, 0)
    else Scan(s, p, i + 1, k + 1)
  }

  function CountOf(s: Text, p: Text): nat
    requires p != []
  {
    if |s| < |p| then 0 else Scan(s, p, 0, 0)
  }

  /** avStringFindCount; an empty pattern is read out of bounds unless the string is empty. */
  method FindCount(s: Text, p: Text) returns (count: nat)
    requires p != [] || s == []
    ensures p == [] ==> count == 0
    ensures p != [] ==> count == CountOf(s, p)
  {
    var offset := 0;
    if |s| < |p| { return 0; }
    count := 0;
    for i := 0 to |s|
      invariant p == [] ==> count == 0
      invariant p != [] ==> offset < |p| && count + Scan(s, p, i, offset) == Scan(s, p, 0, 0)
    {
      if s[i] == p[offset] {
        offset := offset + 1;
        if offset == |p| {
          count := count + 1;
          offset := 0;
        }
      } else {
        offset := 0;
      }
    }
  }

  /** The exchange argument: the scan never completes more matches than the greedy choice. */
  lemma {:induction false} ScanAtMostGreedy(s: Text, p: Text, i: nat, k: nat)
    requires i <= |s| && k < |p| && k <= i && s[i - k..i] == p[..k]
    ensures Scan(s, p, i, k) <= GreedyCount(s, p, i - k)
    decreases |s| - i
  {
    hide NextMatch, MatchesAt, GreedyCount;
    if i < |s| {
      if s[i] != p[k] {
        assert s[i + 1..i + 1] == p[..0];
        ScanAtMostGreedy(s, p, i + 1, 0);
        GreedyMonotone(s, p, i - k, i + 1);
      } else {
        LongerPrefix(s, p, i, k);
        if k + 1 == |p| {
          GreedyTakes(s, p, i - k);
          ScanAtMostGreedy(s, p, i + 1, 0);
        } else {
          ScanAtMostGreedy(s, p, i + 1, k + 1);
        }
      }
    }
  }

  lemma CountAtMostGreedy(s: Text, p: Text)
    requires p != []
    ensures CountOf(s, p) <= GreedyCount(s, p, 0)
  {
    if |p| <= |s| { ScanAtMostGreedy(s, p, 0, 0); }
  }

  // ---- the scanning counter, string by string ----

  /** What is in front of position i no longer matters once nothing is matched. */
  lemma {:induction false} ScanBehind(a: Text, t: Text, p: Text, i: nat, k: nat)
    requires i <= |t| && k < |p|
    ensures Scan(a + t, p, |a| + i, k) == Scan(t, p, i, k)
    decreases |t| - i
  {
    if i < |t| {
      assert (a + t)[|a| + i] == t[i];
      ScanBehind(a, t, p, i + 1, 0);
      if k + 1 < |p| { ScanBehind(a, t, p, i + 1, k + 1); }
    }
  }

  /** A start of the pattern is read character by character. */
  lemma {:induction false} ScanStart(p: Text, n: nat, t: Text, i: nat)
    requires i <= n < |p|
    ensures Scan(p[..n] + t, p, i, i) == Scan(p[..n] + t, p, n, n)
    decreases n - i
  {
    if i < n { ScanStart(p, n, t, i + 1); }
  }

  lemma CountIsScan(s: Text, p: Text)
    requires p != []
    ensures CountOf(s, p) == Scan(s, p, 0, 0)
  {
    if |s| < |p| { ScanShort(s, p, 0, 0); }
  }

  /** A string that begins with the pattern has one match, and those of the rest. */
  lemma CountWhole(p: Text, t: Text)
    requires p != []
    ensures CountOf(p + t, p) == 1 + CountOf(t, p)
  {
    var n := |p| - 1;
    assert p + t == p[..n] + ([p[n]] + t);
    CountIsScan(p + t, p);
    CountIsScan(t, p);
    ScanStart(p, n, [p[n]] + t, 0);
    assert (p + t)[n] == p[n];
    ScanBehind(p, t, p, 0, 0);
  }

  /** A start of the pattern that goes on wrongly is lost, with the character at which it does. */
  lemma CountBroken(p: Text, k: nat, c: char, t: Text)
    requires k < |p| && c != p[k]
    ensures CountOf(p[..k] + [c] + t, p) == CountOf(t, p)
  {
    var s := p[..k] + [c] + t;
    assert s == p[..k] + ([c] + t);
    CountIsScan(s, p);
    CountIsScan(t, p);
    ScanStart(p, k, [c] + t, 0);
    assert s[k] == c;
    ScanBehind(p[..k] + [c], t, p, 0, 0);
  }

  /** A start of the pattern alone is no match. */
  lemma CountStart(p: Text, k: nat)
    requires k < |p|
    ensures CountOf(p[..k], p) == 0
  {
  }

  /** One occurrence behind a start that goes wrong, and one that is lost in such a start. */
  lemma CountsHere()
    ensures CountOf("acab", "ab") == 1 && CountOf("aab", "ab") == 0
  {
    CountBroken("ab", 1, 'c', "ab");
    assert "ab"[..1] + ['c'] + "ab" == "acab";
    CountWhole("ab", "");
    assert "ab" + "" == "ab";
    CountStart("ab", 0);
    assert "ab"[..0] == "";
    CountBroken("ab", 1, 'a', "b");
    assert "ab"[..1] + ['a'] + "b" == "aab";
    CountBroken("ab", 0, 'b', "");
    assert "ab"[..0] + ['b'] + "" == "b";
  }

  // ---- when the scanning counter is exact ----

  predicate Uniform(p: Text) {
    forall k | 0 <= k < |p| :: p[k] == p[0]
  }

  lemma {:induction false} NextMatchSkips(s: Text, p: Text, a: nat, b: nat)
    requires a <= b && forall j: nat | a <= j < b :: !MatchesAt(s, j, p)
    ensures NextMatch(s, p, a) == NextMatch(s, p, b)
  {
  }

  /** No occurrence of a uniform pattern covers a position with another character. */
  lemma NoMatchAcross(s: Text, p: Text, i: nat, k: nat)
    requires Uniform(p) && k < |p| && k <= i < |s| && s[i] != p[k]
    ensures forall j: nat | i - k <= j < i + 1 :: !MatchesAt(s, j, p)
  {
  }

  /** For a pattern of one repeated character nothing is lost by starting again. */
  lemma {:induction false} ScanIsGreedy(s: Text, p: Text, i: nat, k: nat)
    requires Uniform(p)
    requires i <= |s| && k < |p| && k <= i && s[i - k..i] == p[..k]
    ensures Scan(s, p, i, k) == GreedyCount(s, p, i - k)
    decreases |s| - i
  {
    hide NextMatch, MatchesAt, GreedyCount;
    if i < |s| {
      if s[i] != p[k] {
        assert s[i + 1..i + 1] == p[..0];
        ScanIsGreedy(s, p, i + 1, 0);
        NoMatchAcross(s, p, i, k);
        NextMatchSkips(s, p, i - k, i + 1);
        GreedyStep(s, p, i - k, i + 1);
      } else {
        LongerPrefix(s, p, i, k);
        if k + 1 == |p| {
          GreedyTakes(s, p, i - k);
          ScanIsGreedy(s, p, i + 1, 0);
        } else {
          ScanIsGreedy(s, p, i + 1, k + 1);
        }
      }
    } else {
      GreedyNone(s, p, i - k);
    }
  }

  /** Too few characters left to complete the pattern. */
  lemma {:induction false} ScanShort(s: Text, p: Text, i: nat, k: nat)
    requires i <= |s| && k < |p| && |s| - i + k < |p|
    ensures Scan(s, p, i, k) == 0
    decreases |s| - i
  {
    if i < |s| {
      if s[i] != p[k] { ScanShort(s, p, i + 1, 0); } else { ScanShort(s, p, i + 1, k + 1); }
    }
  }

  /** The pattern with its first character doubled up: it occurs, and the scan runs over it. */
  function Stumble(p: Text): Text
    requires p != []
  {
    [p[0]] + p
  }

  /** The scan reaches the first character that differs from p[0] with one character too many. */
  lemma {:induction false} ScanRun(p: Text, m: nat, i: nat)
    requires i <= m < |p| && forall k | 0 <= k < m :: p[k] == p[0]
    ensures Scan(Stumble(p), p, 0, 0) == Scan(Stumble(p), p, i, i)
  {
    if 0 < i { ScanRun(p, m, i - 1); }
  }

  lemma {:induction false} ScanStumbles(p: Text, m: nat)
    requires 0 < m < |p| && p[m] != p[0] && forall k | 0 <= k < m :: p[k] == p[0]
    ensures CountOf(Stumble(p), p) == 0 && GreedyCount(Stumble(p), p, 0) == 1
  {
    var s := Stumble(p);
    ScanRun(p, m, m);
    assert s[m] == p[m - 1] && s[m + 1] == p[m];
    ScanShort(s, p, m + 2, 0);
    assert s[1..1 + |p|] == p;
    assert s[0..|p|][m] == s[m];
    assert NextMatch(s, p, 0) == 1;
  }

  /** The count is right for every string exactly when the pattern repeats one character. */
  lemma CountExactIff(p: Text)
    requires p != []
    ensures (forall s: Text :: CountOf(s, p) == GreedyCount(s, p, 0)) <==> Uniform(p)
  {
    if Uniform(p) {
      forall s: Text ensures CountOf(s, p) == GreedyCount(s, p, 0) {
        if |p| <= |s| { ScanIsGreedy(s, p, 0, 0); }
      }
    } else {
      var m := FirstOther(p);
      ScanStumbles(p, m);
    }
  }

  lemma FirstOther(p: Text) returns (m: nat)
    requires p != [] && !Uniform(p)
    ensures 0 < m < |p| && p[m] != p[0] && forall k | 0 <= k < m :: p[k] == p[0]
  {
    m := 0;
    while p[m] == p[0]
      invariant m < |p| && forall k | 0 <= k < m :: p[k] == p[0]
      decreases |p| - m
    {
      assert m + 1 < |p| by {
        if m + 1 == |p| { assert Uniform(p); }
      }
      m := m + 1;
    }
  }

  // ---- the leftmost matcher ----

  /** What the matcher accepts at position i: all of the pattern that the string has room for. */
  predicate HitAt(s: Text, i: nat, p: Text) {
    i < |s| && s[i..Min(|s|, i + |p|)] == p[..Min(|s|, i + |p|) - i]
  }

  ghost predicate IsFirstHit(s: Text, p: Text, offset: int) {
    if |s| < |p| then offset == NOT_FOUND
    else if offset == NOT_FOUND then forall i: nat :: !HitAt(s, i, p)
    else 0 <= offset && HitAt(s, offset, p) && forall i: nat | i < offset :: !HitAt(s, i, p)
  }

  method FindFirst(s: Text, p: Text) returns (offset: int)
    ensures IsFirstHit(s, p, offset)
  {
    hide HitAt;
    if |s| < |p| { return NOT_FOUND; }
    for i := 0 to |s|
      invariant forall h: nat | h < i :: !HitAt(s, h, p)
    {
      var match_ := true;
      var j := i;
      while j < Min(|s|, i + |p|)
        invariant i <= j <= Min(|s|, i + |p|)
        invariant match_ && Agrees(s, i, p, j)
      {
        if s[j] != p[j - i] {
          NoHit(s, i, p, j);
          match_ := false;
          break;
        }
        j := j + 1;
      }
      if match_ {
        AgreesIsHit(s, i, p);
        return i;
      }
    }
    NoHitBehind(s, p);
    return NOT_FOUND;
  }

  /** The characters from i up to j are those the pattern begins with. */
  ghost predicate Agrees(s: Text, i: nat, p: Text, j: nat) {
    i <= j <= Min(|s|, i + |p|) && forall k | i <= k < j :: s[k] == p[k - i]
  }

  lemma AgreesIsHit(s: Text, i: nat, p: Text)
    requires i < |s| && Agrees(s, i, p, Min(|s|, i + |p|))
    ensures HitAt(s, i, p)
  {
  }

  lemma NoHit(s: Text, i: nat, p: Text, j: nat)
    requires i <= j < Min(|s|, i + |p|) && s[j] != p[j - i]
    ensures !HitAt(s, i, p)
  {
    assert s[i..Min(|s|, i + |p|)][j - i] == s[j];
  }

  lemma NoHitBehind(s: Text, p: Text)
    ensures forall h: nat | |s| <= h :: !HitAt(s, h, p)
  {
  }

  /** A start of the pattern that the string ends with. */
  predicate TruncatedAtEnd(s: Text, p: Text) {
    exists n: nat | n < |p| && n <= |s| :: 0 < n && s[|s| - n..] == p[..n]
  }

  lemma HitIsMatch(s: Text, i: nat, p: Text)
    requires p != [] && i + |p| <= |s|
    ensures HitAt(s, i, p) <==> MatchesAt(s, i, p)
  {
  }

  /** When the pattern occurs the answer is its leftmost occurrence. */
  lemma FirstHitIsNext(s: Text, p: Text, offset: int)
    requires p != [] && IsFirstHit(s, p, offset) && NextMatch(s, p, 0) != NOT_FOUND
    ensures offset == NextMatch(s, p, 0)
  {
    var i := NextMatch(s, p, 0);
    HitIsMatch(s, i, p);
    if offset < i { HitIsMatch(s, offset, p); }
  }

  /**
   FindFirst tells the leftmost occurrence, or that there is none, exactly unless the pattern
   does not occur and the string, long enough for it, ends with a start of it.
   */
  lemma FirstHitExactIff(s: Text, p: Text, offset: int)
    requires p != [] && IsFirstHit(s, p, offset)
    ensures offset == NextMatch(s, p, 0) <==>
      (|s| < |p| || NextMatch(s, p, 0) != NOT_FOUND || !TruncatedAtEnd(s, p))
  {
    hide NextMatch, MatchesAt, HitAt, TruncatedAtEnd;
    if NextMatch(s, p, 0) != NOT_FOUND {
      FirstHitIsNext(s, p, offset);
    } else if |p| <= |s| {
      TailHits(s, p);
      if offset != NOT_FOUND {
        HitInside(s, offset, p);
        if offset + |p| <= |s| { HitIsMatch(s, offset, p); }
      }
    }
  }

  lemma HitInside(s: Text, i: nat, p: Text)
    requires HitAt(s, i, p)
    ensures i < |s|
  {
  }

  /** The matcher accepts a position without room for the pattern exactly if the tail starts it. */
  lemma TailHits(s: Text, p: Text)
    ensures TruncatedAtEnd(s, p) <==> exists i: nat :: |s| < i + |p| && HitAt(s, i, p)
  {
    if i: nat :| |s| < i + |p| && HitAt(s, i, p) {
      var n := |s| - i;
      assert s[|s| - n..] == p[..n];
    }
    if n: nat :| n < |p| && n <= |s| && 0 < n && s[|s| - n..] == p[..n] {
      var i := |s| - n;
      assert s[i..Min(|s|, i + |p|)] == s[i..];
      assert HitAt(s, i, p);
    }
  }

  /** Where the pattern is missing, the answer is the longest start of it that the string ends with. */
  lemma FirstHitTail(s: Text, p: Text, offset: int)
    requires |p| <= |s| && IsFirstHit(s, p, offset) && offset != NOT_FOUND && NextMatch(s, p, 0) == NOT_FOUND
    ensures 0 <= offset < |s| && s[offset..] <= p
    ensures forall i: nat | i < offset :: !(s[i..] <= p)
  {
    hide MatchesAt, HitAt, NextMatch;
    HitInString(s, offset, p);
    MissIsTail(s, offset, p);
    forall i: nat | i < offset ensures !(s[i..] <= p) { MissIsTail(s, i, p); }
  }

  lemma HitInString(s: Text, i: nat, p: Text)
    requires HitAt(s, i, p)
    ensures i < |s|
  {
  }

  /** Where there is no occurrence, the matcher accepts the tail exactly if the pattern starts with it. */
  lemma MissIsTail(s: Text, i: nat, p: Text)
    requires i < |s| && !MatchesAt(s, i, p)
    ensures HitAt(s, i, p) <==> s[i..] <= p
  {
    var end := Min(|s|, i + |p|);
    if i + |p| < |s| {
      assert |p| < |s[i..]|;
    } else {
      assert s[i..end] == s[i..];
    }
  }

  /** A string without the pattern in which FindFirst finds it. */
  lemma FirstHitOvershoots()
    ensures IsFirstHit("xa", "ab", 1) && NextMatch("xa", "ab", 0) == NOT_FOUND
  {
    assert "xa"[1..2] == "ab"[..1];
    assert "xa"[0..2][0] == 'x' && "ab"[..2][0] == 'a';
  }

  /** Searching the rest of a string finds the same occurrence, counted from there. */
  lemma {:induction false} NextMatchShift(s: Text, p: Text, from: nat)
    requires from <= |s|
    ensures var i := NextMatch(s[from..], p, 0);
      NextMatch(s, p, from) == if i == NOT_FOUND then NOT_FOUND else from + i
  {
    var rest := s[from..];
    forall j: nat ensures MatchesAt(rest, j, p) <==> MatchesAt(s, from + j, p) {
      if j + |p| <= |rest| { assert rest[j..j + |p|] == s[from + j..from + j + |p|]; }
    }
    hide MatchesAt, NextMatch;
    var i, f := NextMatch(rest, p, 0), NextMatch(s, p, from);
    if i != NOT_FOUND { assert MatchesAt(s, from + i, p); }
    if f != NOT_FOUND { assert MatchesAt(rest, f - from, p); }
  }

  /** An occurrence found stays the leftmost one when the string goes on. */
  lemma {:induction false} NextMatchLonger(s: Text, p: Text, more: Text, from: nat)
    requires NextMatch(s, p, from) != NOT_FOUND
    ensures NextMatch(s + more, p, from) == NextMatch(s, p, from)
    decreases |s| - from
  {
    var i := NextMatch(s, p, from);
    MatchInFront(s, p, more, from);
    if i != from { NextMatchLonger(s, p, more, from + 1); }
  }

  lemma MatchInFront(s: Text, p: Text, more: Text, i: nat)
    requires i + |p| <= |s|
    ensures MatchesAt(s + more, i, p) <==> MatchesAt(s, i, p)
  {
    assert (s + more)[i..i + |p|] == s[i..i + |p|];
  }
}
