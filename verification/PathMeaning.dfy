/**
 What a path means, independently of the stack: climb some levels, then go down by names.
 The normal form of an absolute path means the same directory as the path. For a relative
 path that holds exactly when the path climbs at most one level above its start.
 */
module PathMeaning {
  import opened Common
  import opened Paths

  /** The net effect of walking segments: `up` levels out, then down into `down`. */
  datatype Net = Net(up: nat, down: seq<Text>)

  /** One walk after another: the second may climb out of what the first went into. */
  function Then(a: Net, b: Net): Net {
    if b.up <= |a.down| then Net(a.up, a.down[..|a.down| - b.up] + b.down)
    else Net(a.up + b.up - |a.down|, b.down)
  }

  function NetOfOne(segment: Text): Net {
    if segment == "." then Net(0, [])
    else if segment == ".." then Net(1, [])
    else Net(0, [segment])
  }

  function NetOf(segments: seq<Text>): Net {
    if segments == [] then Net(0, []) else Then(NetOfOne(segments[0]), NetOf(segments[1..]))
  }

  lemma ThenAssociates(a: Net, b: Net, c: Net)
    ensures Then(Then(a, b), c) == Then(a, Then(b, c))
  {
  }

  lemma NothingFirst(a: Net)
    ensures Then(Net(0, []), a) == a
  {
  }

  /** The directory an absolute walk ends in: climbing out of the root stays there. */
  function FromRoot(net: Net): seq<Text> {
    net.down
  }

  /** What the reduction leaves on a relative stack. */
  function RelativeStack(net: Net): seq<Text> {
    (if net.up % 2 == 1 then [".."] else []) + net.down
  }

  /** A step of the absolute reduction, seen as a net effect on the stack. */
  lemma {:induction false} AbsoluteReduce(stack: seq<Text>, segments: seq<Text>)
    ensures Reduce(stack, segments, true) == FromRoot(Then(Net(0, stack), NetOf(segments)))
    decreases |segments|
  {
    if segments == [] {
      assert stack[..|stack|] + [] == stack;
    } else {
      var next := Visit(stack, segments[0], true);
      AbsoluteReduce(next, segments[1..]);
      AbsoluteStep(stack, segments[0], NetOf(segments[1..]));
    }
  }

  lemma AbsoluteStep(stack: seq<Text>, segment: Text, rest: Net)
    ensures FromRoot(Then(Net(0, Visit(stack, segment, true)), rest))
      == FromRoot(Then(Net(0, stack), Then(NetOfOne(segment), rest)))
  {
  }

  /** A step of the relative reduction: climbing toggles a single ".." at the bottom. */
  lemma {:induction false} RelativeReduce(net: Net, segments: seq<Text>)
    ensures Reduce(RelativeStack(net), segments, false) == RelativeStack(Then(net, NetOf(segments)))
    decreases |segments|
  {
    if segments == [] {
      assert net.down[..|net.down|] + [] == net.down;
    } else {
      var next := Then(net, NetOfOne(segments[0]));
      RelativeStep(net, segments[0]);
      RelativeReduce(next, segments[1..]);
      ThenAssociates(net, NetOfOne(segments[0]), NetOf(segments[1..]));
    }
  }

  lemma RelativeStep(net: Net, segment: Text)
    ensures Visit(RelativeStack(net), segment, false) == RelativeStack(Then(net, NetOfOne(segment)))
  {
  }

  /** One step further: a name goes in, ".." goes back out, "." stays. */
  lemma {:induction false} NetOfMore(segments: seq<Text>, segment: Text)
    ensures NetOf([]) == Net(0, [])
    ensures var net := NetOf(segments);
      NetOf(segments + [segment]) ==
        if segment == "." then net
        else if segment != ".." then Net(net.up, net.down + [segment])
        else if net.down == [] then Net(net.up + 1, [])
        else Net(net.up, net.down[..|net.down| - 1])
    decreases |segments|
  {
    if segments == [] {
      assert [segment] == [segment] + [] && [segment][1..] == [];
    } else {
      assert segments + [segment] == [segments[0]] + (segments[1..] + [segment]);
      NetOfMore(segments[1..], segment);
      ThenAssociates(NetOfOne(segments[0]), NetOf(segments[1..]), NetOfOne(segment));
      StepThen(NetOf(segments[1..]), segment);
      StepThen(NetOf(segments), segment);
    }
  }

  lemma StepThen(net: Net, segment: Text)
    ensures Then(net, NetOfOne(segment)) ==
      if segment == "." then net
      else if segment != ".." then Net(net.up, net.down + [segment])
      else if net.down == [] then Net(net.up + 1, [])
      else Net(net.up, net.down[..|net.down| - 1])
  {
  }

  // ---- what normal forms look like ----

  ghost predicate Names(segments: seq<Text>) {
    forall k | 0 <= k < |segments| :: Clean(segments[k]) && segments[k] != "." && segments[k] != ".."
  }

  /** No "." anywhere, and ".." at most once, at the bottom of a relative path. */
  ghost predicate Canonical(stack: seq<Text>, absolute: bool) {
    Names(stack) || (!absolute && stack != [] && stack[0] == ".." && Names(stack[1..]))
  }

  lemma {:induction false} NetNames(segments: seq<Text>)
    requires AllClean(segments)
    ensures Names(NetOf(segments).down)
  {
    if segments != [] { NetNames(segments[1..]); }
  }

  lemma StackCanonical(path: Text)
    ensures Canonical(Stack(path), IsAbsolute(path)) && AllClean(Stack(path))
    ensures Stack(path) == if IsAbsolute(path) then FromRoot(NetOf(Segments(path)))
                           else RelativeStack(NetOf(Segments(path)))
  {
    hide SegmentsFrom, Reduce, NetOf;
    var net := NetOf(Segments(path));
    SegmentsClean(path, 0);
    NetNames(Segments(path));
    NothingFirst(net);
    if IsAbsolute(path) {
      AbsoluteReduce([], Segments(path));
    } else {
      RelativeReduce(Net(0, []), Segments(path));
      assert RelativeStack(Net(0, [])) == [];
      if net.up % 2 == 1 { assert RelativeStack(net)[1..] == net.down; }
    }
  }

  lemma {:induction false} NetOfNames(segments: seq<Text>)
    requires Names(segments)
    ensures NetOf(segments) == Net(0, segments)
  {
    if segments != [] {
      NetOfNames(segments[1..]);
      assert segments == [segments[0]] + segments[1..];
    }
  }

  lemma NetOfCanonical(stack: seq<Text>)
    requires Canonical(stack, false)
    ensures NetOf(stack) == if Names(stack) then Net(0, stack) else Net(1, stack[1..])
  {
  }

  // ---- cutting a normal form ----

  lemma NormalSegments(path: Text)
    requires path != [] && Normal(path) != []
    ensures IsAbsolute(Normal(path)) == IsAbsolute(path)
    ensures Segments(Normal(path)) == Stack(path)
  {
    hide SegmentsFrom, Stack, Slashed;
    StackCanonical(path);
    var stack := Stack(path);
    SlashedEnd(stack);
    if IsAbsolute(path) {
      SegmentsOfSlashed(stack, [SEPARATOR]);
      SegmentsSkip(Normal(path), 0, 1);
    } else {
      SegmentsOfSlashed(stack, []);
      assert [] + Slashed(stack) == Slashed(stack);
    }
  }

  // ---- the main results ----

  /** For an absolute path: the normal form is the print of the directory the path denotes. */
  lemma AbsoluteNormal(path: Text)
    requires IsAbsolute(path)
    ensures Normal(path) == Print(FromRoot(NetOf(Segments(path))), true)
    ensures FromRoot(NetOf(Segments(Normal(path)))) == FromRoot(NetOf(Segments(path)))
    ensures Names(Segments(Normal(path)))
  {
    hide SegmentsFrom, Slashed, NetOf, Stack;
    StackCanonical(path);
    NormalSegments(path);
    NetOfNames(Stack(path));
  }

  /** Two absolute paths normalise alike exactly when they denote the same directory. */
  lemma AbsoluteNormalEqualIff(a: Text, b: Text)
    requires IsAbsolute(a) && IsAbsolute(b)
    ensures Normal(a) == Normal(b) <==> FromRoot(NetOf(Segments(a))) == FromRoot(NetOf(Segments(b)))
  {
    hide SegmentsFrom, Slashed, NetOf, Normal;
    AbsoluteNormal(a);
    AbsoluteNormal(b);
  }

  /** Normalising twice is normalising once. */
  lemma NormalIdempotent(path: Text)
    ensures Normal(Normal(path)) == Normal(path)
  {
    if path != [] && Normal(path) != [] {
      NormalSegments(path);
      StackCanonical(path);
      CanonicalStays(Stack(path), IsAbsolute(path));
    }
  }

  lemma CanonicalStays(stack: seq<Text>, absolute: bool)
    requires Canonical(stack, absolute)
    ensures Reduce([], stack, absolute) == stack
  {
    hide NetOf, Reduce;
    if absolute {
      NetOfNames(stack);
      AbsoluteReduce([], stack);
      NothingFirst(NetOf(stack));
    } else {
      NetOfCanonical(stack);
      assert RelativeStack(Net(0, [])) == [];
      RelativeReduce(Net(0, []), stack);
      NothingFirst(NetOf(stack));
      if !Names(stack) { assert [".."] + stack[1..] == stack; }
    }
  }

  lemma NothingCut()
    ensures Segments([]) == [] && NetOf([]) == Net(0, []) && Normal([]) == []
  {
  }

  /** The normal form is empty exactly for relative paths that go nowhere, or out an even number of levels. */
  lemma EmptyNormalIff(path: Text)
    ensures Normal(path) == [] <==>
      !IsAbsolute(path) && NetOf(Segments(path)).down == [] && NetOf(Segments(path)).up % 2 == 0
  {
    hide SegmentsFrom, Slashed, NetOf, Stack, Reduce;
    NothingCut();
    StackCanonical(path);
    SlashedEnd(Stack(path));
  }

  /** Normalisation leaves a path as it was, instead of empty, exactly if the variable has no memory. */
  lemma NormalizedIff(path: Text, backed: bool)
    ensures Normalized(path, backed) == Normal(path) || Normalized(path, backed) == path
    ensures Normalized(path, backed) == Normal(path) <==>
      || backed || path == [] || IsAbsolute(path)
      || NetOf(Segments(path)).down != [] || NetOf(Segments(path)).up % 2 == 1
  {
    hide SegmentsFrom, NetOf, Normal;
    NothingCut();
    EmptyNormalIff(path);
  }

  /** For a relative path: the normal form means the same exactly when at most one level is climbed. */
  lemma RelativeMeaningIff(path: Text)
    requires !IsAbsolute(path)
    ensures NetOf(Segments(Normal(path))) == NetOf(Segments(path)) <==> NetOf(Segments(path)).up <= 1
  {
    hide SegmentsFrom, Slashed, NetOf, Stack, Reduce, Canonical, Normal;
    var net := NetOf(Segments(path));
    NothingCut();
    EmptyNormalIff(path);
    if Normal(path) == [] { return; }
    NormalSegments(path);
    StackCanonical(path);
    SegmentsClean(path, 0);
    NetNames(Segments(path));
    NetOfCanonical(Stack(path));
    if net.up % 2 == 1 {
      assert Stack(path)[0] == ".." && Stack(path)[1..] == net.down;
    } else {
      assert Stack(path) == net.down;
    }
  }

  /** Two levels up are lost altogether. */
  lemma RelativeMeaningLost()
    ensures Segments("../../a") == ["..", "..", "a"]
    ensures NetOf(["..", "..", "a"]) == Net(2, ["a"]) && Normal("../../a") == "a"
  {
    hide SegmentsFrom, Reduce, NetOf;
    ThreeSegments();
    TwoUp();
  }

  /** A literal "a/.." stays what it is. */
  lemma NormalizedHere()
    ensures Normal("a/..") == [] && Normalized("a/..", false) == "a/.."
  {
    hide SkipSeparators, SegmentEnd, SegmentsFrom;
    var s := "a/..";
    SegmentFound(s, 0, 0, 1);
    SegmentFound(s, 1, 2, 4);
    SegmentFound(s, 4, 4, 4);
    assert s[0..1] == "a" && s[2..4] == "..";
    InAndOut();
  }

  /** Separators of both kinds, a dot and a level climbed back, and a base that does not matter. */
  lemma PathsHere()
    ensures Normal("/a//.\\b/../c/") == "/a/c" && Resolved("/a/b", "/c") == "/c" && Resolved("/a/b", "c") == "/a/c"
  {
    hide SegmentsFrom, Reduce, NetOf, LastSlash, Stack, Slashed;
    NormalHere();
    RootedHere();
    BesideHere();
  }

  lemma NormalHere()
    ensures Normal("/a//.\\b/../c/") == "/a/c"
  {
    hide SegmentsFrom, NetOf, Slashed, Reduce;
    var s := "/a//.\\b/../c/";
    SegmentsSeparator('/', "a//.\\b/../c/");
    SegmentsWord("a", "//.\\b/../c/");
    SegmentsSeparator('/', "/.\\b/../c/");
    SegmentsSeparator('/', ".\\b/../c/");
    SegmentsWord(".", "\\b/../c/");
    SegmentsSeparator('\\', "b/../c/");
    SegmentsWord("b", "/../c/");
    SegmentsSeparator('/', "../c/");
    SegmentsWord("..", "/c/");
    SegmentsSeparator('/', "c/");
    SegmentsWord("c", "/");
    SegmentsSeparator('/', "");
    assert ['/'] + "a//.\\b/../c/" == s && "a" + "//.\\b/../c/" == "a//.\\b/../c/";
    assert ['/'] + "/.\\b/../c/" == "//.\\b/../c/" && ['/'] + ".\\b/../c/" == "/.\\b/../c/";
    assert "." + "\\b/../c/" == ".\\b/../c/" && ['\\'] + "b/../c/" == "\\b/../c/" && "b" + "/../c/" == "b/../c/";
    assert ['/'] + "../c/" == "/../c/" && ".." + "/c/" == "../c/" && ['/'] + "c/" == "/c/";
    assert "c" + "/" == "c/" && ['/'] + "" == "/";
    assert Segments(s) == ["a", ".", "b", "..", "c"];
    AbsoluteNormal(s);
    NetOfFive();
    PrintMeans("a", ["c"]);
    PrintMeans("c", []);
    assert ["a"] + ["c"] == ["a", "c"];
  }

  lemma NetOfFive()
    ensures NetOf(["a", ".", "b", "..", "c"]) == Net(0, ["a", "c"])
  {
    hide NetOf;
    NetOfMore([], "a");
    NetOfMore(["a"], ".");
    NetOfMore(["a", "."], "b");
    NetOfMore(["a", ".", "b"], "..");
    NetOfMore(["a", ".", "b", ".."], "c");
    assert [] + ["a"] == ["a"] && ["a"] + ["."] == ["a", "."] && ["a", "."] + ["b"] == ["a", ".", "b"];
    assert ["a", ".", "b"] + [".."] == ["a", ".", "b", ".."];
    assert ["a", ".", "b", ".."] + ["c"] == ["a", ".", "b", "..", "c"];
  }

  lemma RootedHere()
    ensures Resolved("/a/b", "/c") == "/c"
  {
    hide SegmentsFrom, NetOf, Slashed, Resolved;
    SegmentsSeparator('/', "c");
    SegmentsWord("c", "");
    assert ['/'] + "c" == "/c" && "c" + "" == "c" && [] + ["c"] == ["c"];
    NetOfMore([], "c");
    ResolveAbsolute("/a/b", "/c");
    PrintMeans("c", []);
    assert "/" + "c" == "/c" && IsAbsolute("/c");
    assert Segments("/c") == ["c"];
    assert NetOf(["c"]) == Net(0, ["c"]);
  }

  lemma BesideHere()
    ensures Resolved("/a/b", "c") == "/a/c"
  {
    hide SegmentsFrom, NetOf, Slashed, Resolved, LastSlash, Then;
    var directory := DirectoryOf("/a/b");
    DirectoryMeans("/a/b");
    assert directory == "/a/";
    SegmentsSeparator('/', "a/");
    SegmentsWord("a", "/");
    SegmentsSeparator('/', "");
    assert ['/'] + "a/" == "/a/" && "a" + "/" == "a/" && ['/'] + "" == "/";
    SegmentsWord("c", "");
    assert "c" + "" == "c" && [] + ["a"] == ["a"] && [] + ["c"] == ["c"];
    NetOfMore([], "a");
    NetOfMore([], "c");
    ResolveContinues("/a/b", "c");
    StepThen(Net(0, ["a"]), "c");
    assert NetOfOne("c") == Net(0, ["c"]) && ["a"] + ["c"] == ["a", "c"];
    PrintMeans("a", ["c"]);
    PrintMeans("c", []);
  }

  lemma InAndOut()
    ensures Reduce([], ["a", ".."], false) == []
  {
  }

  lemma ThreeSegments()
    ensures Segments("../../a") == ["..", "..", "a"]
  {
    hide SkipSeparators, SegmentEnd, SegmentsFrom;
    var s := "../../a";
    SegmentFound(s, 0, 0, 2);
    SegmentFound(s, 2, 3, 5);
    SegmentFound(s, 5, 6, 7);
    SegmentFound(s, 7, 7, 7);
    assert s[0..2] == ".." && s[3..5] == ".." && s[6..7] == "a";
  }

  lemma TwoUp()
    ensures NetOf(["..", "..", "a"]) == Net(2, ["a"])
    ensures Reduce([], ["..", "..", "a"], false) == ["a"]
  {
  }

  // ---- resolving one path against another ----

  /** The last slash; a backslash does not count on this side. */
  function LastSlash(s: Text): (i: int)
    ensures -1 <= i < |s| && (0 <= i ==> s[i] == '/') && forall k | i < k < |s| :: s[k] != '/'
  {
    if s == [] then -1 else if s[|s| - 1] == '/' then |s| - 1 else LastSlash(s[..|s| - 1])
  }

  method FindLastSlash(s: Text) returns (at: int)
    ensures at == LastSlash(s)
  {
    var i := |s|;
    while 0 < i
      invariant 0 <= i <= |s| && LastSlash(s) == LastSlash(s[..i])
    {
      if s[i - 1] == '/' { return i - 1; }
      assert s[..i][..i - 1] == s[..i - 1];
      i := i - 1;
    }
    return -1;
  }

  /** The directory part of a file path, with its slash. */
  function DirectoryOf(base: Text): Text {
    base[..LastSlash(base) + 1]
  }

  /** It ends with the last slash, if there is one. */
  lemma DirectoryMeans(base: Text)
    ensures var directory := DirectoryOf(base);
      && directory <= base && '/' !in base[|directory|..]
      && (directory == [] || directory[|directory| - 1] == '/')
  {
  }

  function Resolved(base: Text, relative: Text): Text {
    if IsAbsolute(relative) then Normal(relative) else Normal(DirectoryOf(base) + relative)
  }

  /** avStringPathResolveRelative into a variable without text; it clones a path before it normalises it. */
  method ResolveRelative(base: Text, relative: Text) returns (resolved: Text)
    requires |base| + |relative| <= UINT32_MAX
    ensures resolved == Resolved(base, relative)
  {
    if IsAbsolute(relative) {
      resolved := Normalize(relative, true);
      return;
    }
    var combined: Text := [];
    var lastSlash := FindLastSlash(base);
    if lastSlash >= 0 {
      var dirOnly := base[..lastSlash + 1];
      combined := dirOnly + relative;
    } else {
      combined := relative;
      assert DirectoryOf(base) + relative == relative;
    }
    resolved := Normalize(combined, true);
  }

  /** A separator at the seam keeps the segments of both sides apart. */
  lemma {:induction false} SegmentsAcross(a: Text, b: Text, i: nat)
    requires i <= |a| && a != [] && IsSeparator(a[|a| - 1])
    ensures SegmentsFrom(a + b, i) == SegmentsFrom(a, i) + SegmentsFrom(a + b, |a|)
    decreases |a| - i
  {
    hide SegmentsFrom, SkipSeparators, SegmentEnd;
    var start := SkipSeparators(a, i);
    assert forall k | 0 <= k < |a| :: (a + b)[k] == a[k];
    if start == |a| {
      SegmentFound(a, i, start, start);
      SegmentsSkip(a + b, i, |a|);
      assert [] + SegmentsFrom(a + b, |a|) == SegmentsFrom(a + b, |a|);
    } else {
      var end := SegmentEnd(a, start);
      assert start < end < |a|;
      assert a[start..end] == (a + b)[start..end];
      SegmentFound(a, i, start, end);
      SegmentFound(a + b, i, start, end);
      SegmentsAcross(a, b, end);
      assert [a[start..end]] + (SegmentsFrom(a, end) + SegmentsFrom(a + b, |a|))
        == [a[start..end]] + SegmentsFrom(a, end) + SegmentsFrom(a + b, |a|);
    }
  }

  lemma SegmentsJoined(a: Text, b: Text)
    requires a != [] && IsSeparator(a[|a| - 1])
    ensures Segments(a + b) == Segments(a) + Segments(b)
  {
    SegmentsAcross(a, b, 0);
    SegmentsSuffix(a, b, 0);
  }

  /** Against any base an absolute path is the directory it denotes by itself. */
  lemma ResolveAbsolute(base: Text, relative: Text)
    requires IsAbsolute(relative)
    ensures Resolved(base, relative) == Print(FromRoot(NetOf(Segments(relative))), true)
  {
    hide SegmentsFrom, NetOf, Stack, Slashed, LastSlash;
    AbsoluteNormal(relative);
  }

  /** Resolving goes on from the directory of the base, absolute or relative. */
  lemma ResolveContinues(base: Text, relative: Text)
    requires !IsAbsolute(relative)
    ensures var directory := Reduce([], Segments(DirectoryOf(base)), IsAbsolute(base));
      Resolved(base, relative) == Print(Reduce(directory, Segments(relative), IsAbsolute(base)), IsAbsolute(base))
    ensures var there, walk := NetOf(Segments(DirectoryOf(base))), NetOf(Segments(relative));
      Resolved(base, relative) ==
        if IsAbsolute(base) then Print(FromRoot(Then(Net(0, FromRoot(there)), walk)), true)
        else Print(RelativeStack(Then(there, walk)), false)
  {
    hide SegmentsFrom, Reduce, NetOf, Slashed, LastSlash, Then, RelativeStack, Resolved, Print, DirectoryOf;
    ResolvedStack(base, relative);
    ReduceConcat([], Segments(DirectoryOf(base)), Segments(relative), IsAbsolute(base));
    ReduceBoth(Segments(DirectoryOf(base)), Segments(relative), IsAbsolute(base));
  }

  lemma ReduceBoth(a: seq<Text>, b: seq<Text>, absolute: bool)
    ensures Reduce(Reduce([], a, absolute), b, absolute) ==
      if absolute then FromRoot(Then(Net(0, FromRoot(NetOf(a))), NetOf(b)))
      else RelativeStack(Then(NetOf(a), NetOf(b)))
  {
    hide Reduce, NetOf;
    NothingFirst(NetOf(a));
    if absolute {
      AbsoluteReduce([], a);
      AbsoluteReduce(Reduce([], a, true), b);
    } else {
      RelativeReduce(Net(0, []), a);
      assert RelativeStack(Net(0, [])) == [];
      hide Then;
      RelativeReduce(NetOf(a), b);
    }
  }

  /** What is printed is the stack of the segments of both, one after the other. */
  lemma ResolvedStack(base: Text, relative: Text)
    requires !IsAbsolute(relative)
    ensures var segments := Segments(DirectoryOf(base)) + Segments(relative);
      Resolved(base, relative) == Print(Reduce([], segments, IsAbsolute(base)), IsAbsolute(base))
  {
    hide SegmentsFrom, NetOf, LastSlash;
    var dir := DirectoryOf(base);
    NothingCut();
    if dir == [] {
      assert [] + relative == relative && [] + Segments(relative) == Segments(relative);
    } else {
      assert dir[0] == base[0] && dir[|dir| - 1] == '/';
      SegmentsJoined(dir, relative);
    }
  }
}
