/**
 Path normalisation on the POSIX side: cut the path into segments, reduce them on a stack,
 print the stack. Slashes and backslashes both separate; only a leading slash makes a path
 absolute.
 */
module Paths {
  import opened Common

  const SEPARATOR := '/'

  predicate IsSeparator(c: char) {
    c == '/' || c == '\\'
  }

  predicate IsAbsolute(path: Text) {
    path != [] && path[0] == '/'
  }

  // ---- segments ----

  function SkipSeparators(s: Text, i: nat): (j: nat)
    requires i <= |s|
    ensures i <= j <= |s| && (j < |s| ==> !IsSeparator(s[j]))
    ensures forall k | i <= k < j :: IsSeparator(s[k])
    decreases |s| - i
  {
    if i < |s| && IsSeparator(s[i]) then SkipSeparators(s, i + 1) else i
  }

  function SegmentEnd(s: Text, i: nat): (j: nat)
    requires i <= |s|
    ensures i <= j <= |s| && (j < |s| ==> IsSeparator(s[j]))
    ensures forall k | i <= k < j :: !IsSeparator(s[k])
    decreases |s| - i
  {
    if i < |s| && !IsSeparator(s[i]) then SegmentEnd(s, i + 1) else i
  }

  /** The longest stretches without a separator, from position i on. */
  function SegmentsFrom(s: Text, i: nat): seq<Text>
    requires i <= |s|
    decreases |s| - i
  {
    var start := SkipSeparators(s, i);
    var end := SegmentEnd(s, start);
    if start == end then [] else [s[start..end]] + SegmentsFrom(s, end)
  }

  function Segments(s: Text): seq<Text> {
    SegmentsFrom(s, 0)
  }

  predicate Clean(segment: Text) {
    segment != [] && forall k | 0 <= k < |segment| :: !IsSeparator(segment[k])
  }

  ghost predicate AllClean(segments: seq<Text>) {
    forall k | 0 <= k < |segments| :: Clean(segments[k])
  }

  lemma {:induction false} SegmentsClean(s: Text, i: nat)
    requires i <= |s|
    ensures AllClean(SegmentsFrom(s, i))
    decreases |s| - i
  {
    var start := SkipSeparators(s, i);
    var end := SegmentEnd(s, start);
    if start != end { SegmentsClean(s, end); }
  }

  /** Slashes and backslashes in front are passed over, and no other character separates. */
  lemma SegmentsSeparator(c: char, s: Text)
    requires c == '/' || c == '\\'
    ensures Segments([c] + s) == Segments(s)
  {
    hide SegmentsFrom;
    SegmentsSkip([c] + s, 0, 1);
    SegmentsSuffix([c], s, 0);
  }

  /** A stretch without either, up to the end or to one of them, is the next segment. */
  lemma SegmentsWord(word: Text, s: Text)
    requires word != [] && '/' !in word && '\\' !in word
    requires s == [] || s[0] == '/' || s[0] == '\\'
    ensures Segments([]) == [] && Segments(word + s) == [word] + Segments(s)
  {
    hide SegmentsFrom;
    NothingToCut();
    SegmentFound(word + s, 0, 0, |word|);
    assert (word + s)[0..|word|] == word;
    SegmentsSuffix(word, s, 0);
  }

  lemma NothingToCut()
    ensures Segments([]) == []
  {
  }

  /** What is in front does not matter. */
  lemma {:induction false} SegmentsSuffix(a: Text, b: Text, i: nat)
    requires i <= |b|
    ensures SegmentsFrom(a + b, |a| + i) == SegmentsFrom(b, i)
    decreases |b| - i
  {
    hide SegmentsFrom, SkipSeparators, SegmentEnd;
    var start := SkipSeparators(b, i);
    var end := SegmentEnd(b, start);
    assert forall k | |a| <= k < |a + b| :: (a + b)[k] == b[k - |a|];
    assert (a + b)[|a| + start..|a| + end] == b[start..end];
    SegmentFound(b, i, start, end);
    SegmentFound(a + b, |a| + i, |a| + start, |a| + end);
    if start != end { SegmentsSuffix(a, b, end); }
  }

  // ---- the reduction ----

  /** One round of the reduction: the bottom of a relative stack may be "..". */
  function Visit(stack: seq<Text>, segment: Text, absolute: bool): seq<Text> {
    if segment == "." then stack
    else if segment == ".." then
      if stack != [] then stack[..|stack| - 1]
      else if absolute then stack
      else [segment]
    else stack + [segment]
  }

  function Reduce(stack: seq<Text>, segments: seq<Text>, absolute: bool): seq<Text>
    decreases |segments|
  {
    if segments == [] then stack else Reduce(Visit(stack, segments[0], absolute), segments[1..], absolute)
  }

  lemma {:induction false} ReduceConcat(stack: seq<Text>, a: seq<Text>, b: seq<Text>, absolute: bool)
    ensures Reduce(stack, a + b, absolute) == Reduce(Reduce(stack, a, absolute), b, absolute)
    decreases |a|
  {
    if a == [] {
      assert a + b == b;
    } else {
      ReduceConcat(Visit(stack, a[0], absolute), a[1..], b, absolute);
      assert (a + b)[1..] == a[1..] + b;
    }
  }

  // ---- printing ----

  function Slashed(stack: seq<Text>): Text {
    if stack == [] then []
    else if |stack| == 1 then stack[0]
    else stack[0] + [SEPARATOR] + Slashed(stack[1..])
  }

  function Print(stack: seq<Text>, absolute: bool): Text {
    (if absolute then [SEPARATOR] else []) + Slashed(stack)
  }

  /** One slash between segments, and one in front of an absolute path. */
  lemma PrintMeans(segment: Text, rest: seq<Text>)
    ensures Print([], false) == "" && Print([], true) == "/"
    ensures Print([segment], false) == segment && Print([segment], true) == "/" + segment
    ensures rest != [] ==> Print([segment] + rest, false) == segment + "/" + Print(rest, false)
    ensures Print([segment] + rest, true) == "/" + Print([segment] + rest, false)
  {
  }

  function Stack(path: Text): seq<Text> {
    Reduce([], Segments(path), IsAbsolute(path))
  }

  /** The normal form; the empty path is left alone. */
  function Normal(path: Text): Text {
    if path == [] then [] else Print(Stack(path), IsAbsolute(path))
  }

  /**
   What a path variable holds after normalisation where assertions are off: an empty normal form
   does not overwrite a variable that has no memory of its own.
   */
  function Normalized(path: Text, backed: bool): Text {
    if Normal(path) == [] && !backed then path else Normal(path)
  }

  /** Putting one more segment behind a printed stack. */
  lemma {:induction false} SlashedSnoc(stack: seq<Text>, segment: Text)
    ensures Slashed(stack + [segment]) == Slashed(stack) + (if stack == [] then [] else [SEPARATOR]) + segment
  {
    var more := stack + [segment];
    if 1 < |more| {
      assert more[1..] == stack[1..] + [segment];
      SlashedSnoc(stack[1..], segment);
      if |stack| == 1 { assert stack[1..] == []; }
    }
  }

  /** A printed stack ends in a separator only when it is the bare root. */
  lemma {:induction false} SlashedEnd(stack: seq<Text>)
    requires AllClean(stack)
    ensures stack == [] <==> Slashed(stack) == []
    ensures stack != [] ==> !IsSeparator(Slashed(stack)[|Slashed(stack)| - 1])
    ensures stack != [] ==> !IsSeparator(Slashed(stack)[0])
  {
    if 1 < |stack| { SlashedEnd(stack[1..]); }
  }

  /**
   avStringPathNormalize. If the normal form is empty, storing it fails the assertion that a memory
   has a capacity; this is what happens where assertions are off.
   */
  method Normalize(path: Text, backed: bool) returns (normalized: Text)
    requires |path| <= UINT32_MAX
    ensures normalized == Normalized(path, backed)
  {
    if path == [] { return path; }
    var absolute := IsAbsolute(path);
    var stack := Collect(path, absolute);
    normalized := PrintStack(stack, absolute);
    if normalized == [] && !backed { return path; }
  }

  /** The scanning loop: segments are visited as they are cut. */
  method Collect(path: Text, absolute: bool) returns (stack: seq<Text>)
    ensures stack == Reduce([], Segments(path), absolute) && AllClean(stack)
  {
    hide SkipSeparators, SegmentEnd, SegmentsFrom, Reduce;
    stack := [];
    var i: nat := 0;
    while i < |path|
      invariant i <= |path| && AllClean(stack)
      invariant Reduce([], Segments(path), absolute) == Reduce(stack, SegmentsFrom(path, i), absolute)
    {
      ghost var from := i;
      while i < |path| && IsSeparator(path[i])
        invariant from <= i <= |path| && forall k | from <= k < i :: IsSeparator(path[k])
      {
        i := i + 1;
      }
      var start := i;
      while i < |path| && !IsSeparator(path[i])
        invariant start <= i <= |path| && forall k | start <= k < i :: !IsSeparator(path[k])
      {
        i := i + 1;
      }
      SegmentFound(path, from, start, i);
      var len := i - start;
      if len == 0 { continue; }
      var segment := path[start..i];
      ghost var rest := SegmentsFrom(path, i);
      ReduceStep(stack, segment, rest, absolute);
      assert Reduce([], Segments(path), absolute) == Reduce(Visit(stack, segment, absolute), rest, absolute);
      if segment == "." { continue; }
      if segment == ".." {
        if stack != [] {
          stack := stack[..|stack| - 1];
        } else if !absolute {
          stack := stack + [segment];
          assert stack == [segment];
        }
        continue;
      }
      stack := stack + [segment];
    }
    ReduceNothing(stack, path, absolute);
  }

  /** A run of separators and a run of other characters that cannot be made longer. */
  lemma SegmentFound(s: Text, from: nat, start: nat, end: nat)
    requires from <= start <= end <= |s|
    requires forall k | from <= k < start :: IsSeparator(s[k])
    requires forall k | start <= k < end :: !IsSeparator(s[k])
    requires end < |s| ==> IsSeparator(s[end])
    requires start < |s| && IsSeparator(s[start]) ==> start < end
    ensures start == end ==> SegmentsFrom(s, from) == [] == SegmentsFrom(s, end)
    ensures start < end ==>
      SegmentsFrom(s, from) == [s[start..end]] + SegmentsFrom(s, end) && Clean(s[start..end])
  {
  }

  lemma ReduceStep(stack: seq<Text>, segment: Text, rest: seq<Text>, absolute: bool)
    ensures Reduce(stack, [segment] + rest, absolute) == Reduce(Visit(stack, segment, absolute), rest, absolute)
  {
  }

  lemma ReduceNothing(stack: seq<Text>, path: Text, absolute: bool)
    ensures Reduce(stack, SegmentsFrom(path, |path|), absolute) == stack
  {
  }

  /** The printing loop: a separator goes in front unless one is already there. */
  method PrintStack(stack: seq<Text>, absolute: bool) returns (normalized: Text)
    requires AllClean(stack)
    ensures normalized == Print(stack, absolute)
  {
    hide Slashed;
    normalized := [];
    if absolute {
      normalized := normalized + [SEPARATOR];
    }
    PrintedNothing(absolute);
    for i := 0 to |stack|
      invariant normalized == Print(stack[..i], absolute)
    {
      PrintedNext(stack, i, absolute);
      if normalized != [] && normalized[|normalized| - 1] != SEPARATOR {
        normalized := normalized + [SEPARATOR];
      }
      normalized := normalized + stack[i];
    }
    assert stack[..|stack|] == stack;
  }

  lemma PrintedNothing(absolute: bool)
    ensures Print([], absolute) == if absolute then [SEPARATOR] else []
  {
  }

  lemma PrintedNext(stack: seq<Text>, i: nat, absolute: bool)
    requires AllClean(stack) && i < |stack|
    ensures var done := Print(stack[..i], absolute);
      var gap := if done != [] && done[|done| - 1] != SEPARATOR then [SEPARATOR] else [];
      Print(stack[..i + 1], absolute) == done + gap + stack[i]
  {
    assert stack[..i + 1] == stack[..i] + [stack[i]];
    SlashedSnoc(stack[..i], stack[i]);
    SlashedEnd(stack[..i]);
    if stack[..i] == [] { PrintedNothing(absolute); }
  }

  // ---- printing and cutting are inverse ----

  /** Cutting a printed stack gives the stack back. */
  lemma {:induction false} SegmentsOfSlashed(stack: seq<Text>, before: Text)
    requires AllClean(stack)
    requires before == [] || IsSeparator(before[|before| - 1])
    ensures SegmentsFrom(before + Slashed(stack), |before|) == stack
    decreases |stack|
  {
    hide SegmentsFrom;
    if stack == [] {
      NoSegments(before);
    } else if |stack| == 1 {
      FirstSegment(before, stack[0], []);
      NoSegments(before + stack[0]);
    } else {
      var more := before + stack[0] + [SEPARATOR];
      assert before + Slashed(stack) == before + stack[0] + ([SEPARATOR] + Slashed(stack[1..]));
      assert more + Slashed(stack[1..]) == before + Slashed(stack);
      FirstSegment(before, stack[0], [SEPARATOR] + Slashed(stack[1..]));
      SegmentsOfSlashed(stack[1..], more);
      SegmentsSkip(before + Slashed(stack), |before| + |stack[0]|, |more|);
    }
  }

  lemma NoSegments(s: Text)
    ensures SegmentsFrom(s, |s|) == []
    ensures SegmentsFrom(s + [], |s|) == [] && s + [] == s
  {
  }

  lemma FirstSegment(before: Text, segment: Text, rest: Text)
    requires Clean(segment) && (rest == [] || IsSeparator(rest[0]))
    ensures var s := before + segment + rest;
      SegmentsFrom(s, |before|) == [segment] + SegmentsFrom(s, |before| + |segment|)
    ensures before + segment == before + segment + []
  {
    hide SegmentsFrom;
    var s, start, end := before + segment + rest, |before|, |before| + |segment|;
    forall k | start <= k < end ensures !IsSeparator(s[k]) { assert s[k] == segment[k - start]; }
    assert end < |s| ==> s[end] == rest[0];
    SegmentFound(s, start, start, end);
    assert s[start..end] == segment;
  }

  lemma SegmentsSkip(s: Text, i: nat, j: nat)
    requires i <= j <= |s| && forall k | i <= k < j :: IsSeparator(s[k])
    ensures SegmentsFrom(s, i) == SegmentsFrom(s, j)
  {
  }
}
