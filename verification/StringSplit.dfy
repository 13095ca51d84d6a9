/**
 Replace, Split and SplitOnChar, all proved against one cut of a string at its leftmost
 occurrences of a separator. Joining the pieces with the separator gives the string back;
 joining them with something else is Replace.
 */
module StringSplit {
  import opened Common
  import opened StringSearch

  // ---- cutting and joining ----

  /** The pieces around the first n greedy occurrences of p at or after `from`. */
  function Pieces(s: Text, p: Text, n: nat, from: nat): (r: seq<Text>)
    requires p != [] && from <= |s|
    ensures 1 <= |r| <= n + 1
    decreases n
  {
    var i := NextMatch(s, p, from);
    if n == 0 || i == NOT_FOUND then [s[from..]]
    else [s[from..i]] + Pieces(s, p, n - 1, i + |p|)
  }

  function Join(pieces: seq<Text>, sep: Text): Text
    requires pieces != []
  {
    if |pieces| == 1 then pieces[0] else pieces[0] + sep + Join(pieces[1..], sep)
  }

  function TotalLength(pieces: seq<Text>): nat {
    if pieces == [] then 0 else |pieces[0]| + TotalLength(pieces[1..])
  }

  /** Cutting and joining with the same separator is the identity. */
  lemma {:induction false} JoinPieces(s: Text, p: Text, n: nat, from: nat)
    requires p != [] && from <= |s|
    ensures Join(Pieces(s, p, n, from), p) == s[from..]
    decreases n
  {
    hide NextMatch, Join;
    var i := NextMatch(s, p, from);
    if n == 0 || i == NOT_FOUND {
      JoinOne(s[from..], p);
    } else {
      JoinPieces(s, p, n - 1, i + |p|);
      JoinNext(s[from..i], Pieces(s, p, n - 1, i + |p|), p);
      assert s[i..i + |p|] == p;
      assert s[from..] == s[from..i] + s[i..i + |p|] + s[i + |p|..];
    }
  }

  lemma JoinOne(piece: Text, sep: Text)
    ensures Join([piece], sep) == piece
  {
  }

  /** As many pieces as occurrences asked for and one more, when that many are there. */
  lemma {:induction false} PiecesCount(s: Text, p: Text, n: nat, from: nat)
    requires p != [] && from <= |s| && n <= GreedyCount(s, p, from)
    ensures |Pieces(s, p, n, from)| == n + 1
    decreases n
  {
    hide NextMatch;
    if n != 0 { PiecesCount(s, p, n - 1, NextMatch(s, p, from) + |p|); }
  }

  lemma {:induction false} JoinLength(pieces: seq<Text>, sep: Text, cuts: nat)
    requires |pieces| == cuts + 1
    ensures |Join(pieces, sep)| == TotalLength(pieces) + cuts * |sep|
  {
    if 0 < cuts {
      JoinLength(pieces[1..], sep, cuts - 1);
      Distribute(cuts - 1, |sep|);
    } else {
      assert pieces[1..] == [];
    }
  }

  lemma Distribute(a: int, b: int)
    ensures a * b + b == (a + 1) * b
  {
  }

  ghost predicate Free(s: Text, p: Text) {
    forall j: nat :: !MatchesAt(s, j, p)
  }

  /** A stretch that ends where the next occurrence starts has no occurrence inside. */
  lemma FreeBefore(s: Text, p: Text, from: nat, to: nat)
    requires from <= to <= |s| && forall j: nat | from <= j < to :: !MatchesAt(s, j, p)
    requires p != []
    ensures Free(s[from..to], p)
  {
    var part := s[from..to];
    forall j: nat ensures !MatchesAt(part, j, p) {
      if j + |p| <= |part| {
        SliceOfSlice(s, from, to, j, j + |p|);
        assert !MatchesAt(s, from + j, p);
      }
    }
  }

  ghost predicate FreeButLast(pieces: seq<Text>, p: Text) {
    forall k | 0 <= k < |pieces| - 1 :: Free(pieces[k], p)
  }

  /** No piece but the last contains the separator, and none at all when every cut was made. */
  lemma {:induction false} PiecesFree(s: Text, p: Text, n: nat, from: nat)
    requires p != [] && from <= |s|
    ensures FreeButLast(Pieces(s, p, n, from), p)
    ensures GreedyCount(s, p, from) <= n ==>
      Free(Pieces(s, p, n, from)[|Pieces(s, p, n, from)| - 1], p)
    decreases n
  {
    hide NextMatch, MatchesAt;
    var i := NextMatch(s, p, from);
    if n != 0 && i != NOT_FOUND {
      FreeBefore(s, p, from, i);
      PiecesFree(s, p, n - 1, i + |p|);
      var rest := Pieces(s, p, n - 1, i + |p|);
      var r := Pieces(s, p, n, from);
      assert r == [s[from..i]] + rest;
      forall k | 0 <= k < |r| - 1 ensures Free(r[k], p) {
        if 0 < k { assert r[k] == rest[k - 1]; }
      }
      assert r[|r| - 1] == rest[|rest| - 1];
    } else if i == NOT_FOUND {
      FreeBefore(s, p, from, |s|);
      assert s[from..|s|] == s[from..];
    }
  }

  // ---- storing into string memory ----

  /** avStringMemoryStore: the part of `length` characters that fits behind `offset`. */
  method Store(s: Text, offset: nat, length: nat, memory: array<char>)
    requires memory.Length != 0
    modifies memory
    ensures memory[..] == Stored(old(memory[..]), s, offset, length)
  {
    if memory.Length <= offset { return; }
    if |s| == 0 { return; }
    hide Stored, Room;
    ghost var was := memory[..];
    StoredBetween(was, s, offset, length);
    var n := if length == FULL_LENGTH then |s| else length;
    n := Min(memory.Length, n + offset) - offset;
    n := Min(n, |s|);
    CopyInto(memory, offset, s, n);
  }

  /** memcpy into an array. */
  method CopyInto(memory: array<char>, offset: nat, s: Text, n: nat)
    requires n <= |s| && offset + n <= memory.Length
    modifies memory
    ensures memory[..] == old(memory[..])[..offset] + s[..n] + old(memory[..])[offset + n..]
  {
    forall i | 0 <= i < n {
      memory[offset + i] := s[i];
    }
    WrittenBetween(old(memory[..]), memory[..], s, offset, n);
  }

  lemma StoredBetween(was: Text, s: Text, offset: nat, length: nat)
    requires offset < |was| && s != []
    ensures var n := Min(if length == FULL_LENGTH then |s| else length, Min(|was| - offset, |s|));
      offset + n <= |was| && Stored(was, s, offset, length) == was[..offset] + s[..n] + was[offset + n..]
  {
  }

  /** Character by character: the text between what was in front and what was behind. */
  lemma WrittenBetween(was: Text, now: Text, s: Text, offset: nat, n: nat)
    requires |now| == |was| && offset + n <= |was| && n <= |s|
    requires forall i | 0 <= i < |was| :: now[i] == if offset <= i < offset + n then s[i - offset] else was[i]
    ensures now == was[..offset] + s[..n] + was[offset + n..]
  {
  }

  /** How many characters of a text of length n a store writes. */
  function Room(capacity: nat, n: nat, offset: nat, length: nat): (room: nat)
    ensures room <= n
  {
    if capacity <= offset then 0
    else Min(if length == FULL_LENGTH then n else length, Min(capacity - offset, n))
  }

  function Stored(memory: Text, s: Text, offset: nat, length: nat): (r: Text)
    ensures |r| == |memory|
  {
    if |memory| <= offset || s == [] then memory
    else
      var room := Room(|memory|, |s|, offset, length);
      memory[..offset] + s[..room] + memory[offset + room..]
  }

  /** Character by character: the store stops at the end of the memory, of the string or of the length. */
  lemma StoredAt(memory: Text, s: Text, offset: nat, length: nat, i: nat)
    requires i < |memory|
    ensures Stored(memory, s, offset, length)[i] ==
      if offset <= i && i - offset < |s| && (length == 0xFFFF_FFFF_FFFF_FFFE || i - offset < length) then s[i - offset]
      else memory[i]
  {
  }

  /** A store that fits writes exactly its characters. */
  lemma StoredFits(memory: Text, s: Text, offset: nat, length: nat)
    requires length <= |s| && offset + length <= |memory| && length != FULL_LENGTH
    ensures Stored(memory, s, offset, length) == memory[..offset] + s[..length] + memory[offset + length..]
  {
  }

  // ---- Replace ----

  /** The string with its first `CountOf` greedy occurrences of p replaced. */
  function Replaced(s: Text, p: Text, r: Text): Text
    requires p != []
  {
    Join(Pieces(s, p, CountOf(s, p), 0), r)
  }

  lemma ReplacedLength(s: Text, p: Text, r: Text)
    requires p != []
    ensures CountOf(s, p) * |p| <= |s|
    ensures |Replaced(s, p, r)| == |s| - CountOf(s, p) * |p| + CountOf(s, p) * |r|
  {
    CountAtMostGreedy(s, p);
    JoinedLength(s, p, r, CountOf(s, p));
  }

  lemma JoinedLength(s: Text, p: Text, r: Text, n: nat)
    requires p != [] && n <= GreedyCount(s, p, 0)
    ensures n * |p| <= |s| && |Join(Pieces(s, p, n, 0), r)| == |s| - n * |p| + n * |r|
  {
    hide Pieces, Join, GreedyCount, TotalLength;
    PiecesCount(s, p, n, 0);
    var pieces := Pieces(s, p, n, 0);
    JoinPieces(s, p, n, 0);
    assert s[0..] == s;
    JoinLength(pieces, p, n);
    JoinLength(pieces, r, n);
  }

  /**
   One round of Replace and of Split: the matcher, run on the rest of the string, finds a true
   occurrence inside it, the one the cut is made at.
   */
  lemma NextPiece(s: Text, p: Text, n: nat, from: nat, offset: int)
    requires p != [] && from <= |s| && 0 < n <= GreedyCount(s, p, from)
    requires IsFirstHit(s[from..], p, offset)
    ensures 0 <= offset && from + offset + |p| <= |s| && MatchesAt(s[from..], offset, p)
    ensures n - 1 <= GreedyCount(s, p, from + offset + |p|)
    ensures Pieces(s, p, n, from) == [s[from..from + offset]] + Pieces(s, p, n - 1, from + offset + |p|)
  {
    hide NextMatch;
    NextMatchShift(s, p, from);
    FirstHitIsNext(s[from..], p, offset);
  }

  lemma Regroup(a: Text, b: Text, c: Text, d: Text)
    ensures a + (b + c + d) == a + b + c + d
  {
  }

  lemma JoinNext(piece: Text, rest: seq<Text>, r: Text)
    requires rest != []
    ensures Join([piece] + rest, r) == piece + r + Join(rest, r)
  {
  }

  /** One store of the replacement loop: the written part grows by exactly those characters. */
  method StoreNext(s: Text, from: nat, length: nat, memory: array<char>)
    requires memory.Length != 0 && length <= |s| < FULL_LENGTH && from + length <= memory.Length
    modifies memory
    ensures memory[..from + length] == old(memory[..from]) + s[..length]
  {
    Store(s, from, length, memory);
    StoredFits(old(memory[..]), s, from, length);
    assert memory[..from + length] == memory[..][..from + length];
    assert old(memory[..from]) == old(memory[..])[..from];
  }

  /** What is written, with n replacements to go and `from` characters of the string behind. */
  ghost predicate ReplacesLeft(s: Text, p: Text, r: Text, n: nat, from: nat, written: Text)
    requires p != []
  {
    && from <= |s| && n <= GreedyCount(s, p, from)
    && Replaced(s, p, r) == written + Join(Pieces(s, p, n, from), r)
  }

  lemma ReplaceStart(s: Text, p: Text, r: Text)
    requires p != []
    ensures ReplacesLeft(s, p, r, CountOf(s, p), 0, [])
  {
    CountAtMostGreedy(s, p);
    assert [] + Replaced(s, p, r) == Replaced(s, p, r);
  }

  lemma ReplaceRound(s: Text, p: Text, r: Text, n: nat, from: nat, written: Text, hit: int)
    requires p != [] && 0 < n && ReplacesLeft(s, p, r, n, from, written) && IsFirstHit(s[from..], p, hit)
    ensures 0 <= hit <= |s| - from && MatchesAt(s[from..], hit, p)
    ensures from + hit + |p| <= |s|
    ensures ReplacesLeft(s, p, r, n - 1, from + hit + |p|, written + s[from..][..hit] + r)
    ensures |written| + hit + |r| <= |Replaced(s, p, r)|
  {
    hide Pieces, Replaced, GreedyCount, Join, IsFirstHit, MatchesAt;
    NextPiece(s, p, n, from, hit);
    var rest := Pieces(s, p, n - 1, from + hit + |p|);
    JoinNext(s[from..from + hit], rest, r);
    assert s[from..from + hit] == s[from..][..hit];
    Regroup(written, s[from..][..hit], r, Join(rest, r));
  }

  lemma ReplaceEnd(s: Text, p: Text, r: Text, from: nat, written: Text)
    requires p != [] && ReplacesLeft(s, p, r, 0, from, written)
    ensures from <= |s| && Replaced(s, p, r) == written + s[from..]
  {
  }

  /**
   avStringReplace up to its last step. Every round finds a true occurrence, and the memory of
   the computed length is filled exactly.
   */
  method Replace(s: Text, p: Text, r: Text) returns (count: nat, memory: array<char>)
    requires p != [] && s != [] && Replaced(s, p, r) != []
    requires |s| < FULL_LENGTH && |r| < FULL_LENGTH
    ensures count == CountOf(s, p)
    ensures fresh(memory) && memory[..] == Replaced(s, p, r)
  {
    hide Stored, CountOf, IsFirstHit, MatchesAt, Replaced, ReplacesLeft;
    count := FindCount(s, p);
    ReplacedLength(s, p, r);
    if count == 0 {
      NothingReplaced(s, p, r);
      memory := new char[|s|](_ => '\0');
      Store(s, 0, FULL_LENGTH, memory);
      StoredWhole(s, memory.Length);
      return;
    }
    var remainingLength := |s| - count * |p|;
    var newLength := remainingLength + count * |r|;
    memory := new char[newLength](_ => '\0');
    ReplaceStart(s, p, r);
    assert memory[..0] == [];
    var writeIndex: nat, readIndex: nat, countReplaced: nat := 0, 0, 0;
    while countReplaced != count
      invariant countReplaced <= count && readIndex <= |s| && writeIndex <= newLength
      invariant ReplacesLeft(s, p, r, count - countReplaced, readIndex, memory[..writeIndex])
      decreases count - countReplaced
    {
      var remaining := s[readIndex..];
      var offset := FindFirst(remaining, p);
      ReplaceRound(s, p, r, count - countReplaced, readIndex, memory[..writeIndex], offset);
      StoreNext(remaining, writeIndex, offset, memory);
      readIndex := readIndex + offset;
      writeIndex := writeIndex + offset;
      StoreNext(r, writeIndex, |r|, memory);
      assert r[..|r|] == r;
      readIndex := readIndex + |p|;
      writeIndex := writeIndex + |r|;
      countReplaced := countReplaced + 1;
    }
    var remaining := s[readIndex..];
    ReplaceEnd(s, p, r, readIndex, memory[..writeIndex]);
    StoreNext(remaining, writeIndex, |remaining|, memory);
    assert remaining[..|remaining|] == remaining;
    assert memory[..writeIndex + |remaining|] == memory[..];
  }

  lemma NothingReplaced(s: Text, p: Text, r: Text)
    requires p != [] && CountOf(s, p) == 0
    ensures Replaced(s, p, r) == s
  {
  }

  lemma StoredWhole(s: Text, n: nat)
    requires n == |s|
    ensures forall m: Text | |m| == n :: Stored(m, s, 0, FULL_LENGTH) == s
  {
  }

  // ---- Split ----

  lemma CopyInside(s: Text, offset: nat, length: nat)
    requires offset + length <= |s| < FULL_LENGTH
    ensures Section(s, offset, length) == s[offset..offset + length]
  {
  }

  lemma CopyAll(s: Text)
    ensures Section(s, 0, FULL_LENGTH) == s && s[0..] == s
  {
  }

  function Blanks(n: nat): (r: seq<Text>)
    ensures |r| == n
  {
    seq(n, _ => "")
  }

  lemma BlanksStep(n: nat)
    requires 0 < n
    ensures Blanks(n) == [""] + Blanks(n - 1)
  {
  }

  /** What the separator cuts out of the string. */
  function SplitParts(s: Text, p: Text): seq<Text> {
    if p == [] then Blanks(|s|) + [s] else Pieces(s, p, CountOf(s, p), 0)
  }

  /** The parts still to come when n cuts are left and `offset` characters are behind. */
  function PartsLeft(s: Text, p: Text, n: nat, offset: nat): seq<Text>
    requires offset <= |s|
  {
    if p == [] then Blanks(n) + [s] else Pieces(s, p, n, offset)
  }

  ghost predicate CutsLeft(s: Text, p: Text, n: nat, offset: nat) {
    offset <= |s| && if p == [] then offset == 0 else n <= GreedyCount(s, p, offset)
  }

  lemma SplitStart(s: Text, p: Text)
    requires s != []
    ensures var n := if p == [] then |s| else CountOf(s, p);
      CutsLeft(s, p, n, 0) && SplitParts(s, p) == PartsLeft(s, p, n, 0)
  {
    if p != [] { CountAtMostGreedy(s, p); }
  }

  lemma SplitRound(s: Text, p: Text, n: nat, offset: nat, hit: int)
    requires s != [] && 0 < n && CutsLeft(s, p, n, offset) && IsFirstHit(s[offset..], p, hit)
    ensures 0 <= hit && offset + hit + |p| <= |s| && CutsLeft(s, p, n - 1, offset + hit + |p|)
    ensures PartsLeft(s, p, n, offset) == [s[offset..offset + hit]] + PartsLeft(s, p, n - 1, offset + hit + |p|)
  {
    hide GreedyCount, Pieces, Blanks;
    if p == [] {
      assert HitAt(s[offset..], 0, p);
      BlanksStep(n);
    } else {
      NextPiece(s, p, n, offset, hit);
    }
  }

  lemma SplitEnd(s: Text, p: Text, offset: nat)
    requires CutsLeft(s, p, 0, offset)
    ensures PartsLeft(s, p, 0, offset) == [s[offset..]]
  {
  }

  /** avStringSplit; the answer is the number of parts. */
  method Split(s: Text, p: Text) returns (n: nat, parts: array<Text>)
    requires s != [] && |s| < UINT32_MAX
    ensures fresh(parts) && parts[..] == SplitParts(s, p)
    ensures n == parts.Length
  {
    hide CutsLeft, PartsLeft, IsFirstHit, SplitParts, CountOf, Section, Splitting;
    var splitCount := |s|;
    if p != [] {
      splitCount := FindCount(s, p);
    }
    parts := new Text[splitCount + 1](_ => "");
    SplitStart(s, p);
    if splitCount == 0 {
      SplitEnd(s, p, 0);
      CopyAll(s);
      parts[0] := Section(s, 0, FULL_LENGTH);
      assert parts[..] == [s];
      return 1, parts;
    }
    var offset: nat, index: nat, count: nat := 0, 0, 0;
    SplittingStart(s, p, parts[..], splitCount);
    while count != splitCount
      invariant count == index <= splitCount && offset <= |s|
      invariant Splitting(s, p, parts[..], splitCount, index, offset)
      decreases splitCount - count
    {
      var sectionLength := FindFirst(s[offset..], p);
      SplittingRound(s, p, parts[..], splitCount, index, offset, sectionLength);
      CopyInside(s, offset, sectionLength);
      parts[index] := Section(s, offset, sectionLength);
      index := index + 1;
      offset := offset + sectionLength + |p|;
      count := count + 1;
    }
    SplittingEnd(s, p, parts[..], splitCount, offset);
    CopyInside(s, offset, |s| - offset);
    parts[index] := Section(s, offset, |s| - offset);
    n := splitCount + 1;
  }

  /** The slots before `index` are filled, and the parts from `offset` on are still to come. */
  ghost predicate Splitting(s: Text, p: Text, parts: seq<Text>, n: nat, index: nat, offset: nat) {
    && index <= n < |parts| && CutsLeft(s, p, n - index, offset) && offset <= |s|
    && SplitParts(s, p) == parts[..index] + PartsLeft(s, p, n - index, offset)
  }

  lemma SplittingStart(s: Text, p: Text, parts: seq<Text>, n: nat)
    requires n < |parts| && CutsLeft(s, p, n, 0) && SplitParts(s, p) == PartsLeft(s, p, n, 0)
    ensures Splitting(s, p, parts, n, 0, 0)
  {
    hide CutsLeft, PartsLeft, SplitParts;
  }

  lemma SplittingRound(s: Text, p: Text, parts: seq<Text>, n: nat, index: nat, offset: nat, hit: int)
    requires s != [] && index < n && Splitting(s, p, parts, n, index, offset) && offset <= |s|
    requires IsFirstHit(s[offset..], p, hit)
    ensures 0 <= hit && offset + hit + |p| <= |s| && index < |parts|
    ensures Splitting(s, p, parts[index := s[offset..offset + hit]], n, index + 1, offset + hit + |p|)
  {
    hide CutsLeft, PartsLeft, SplitParts, IsFirstHit;
    SplitRound(s, p, n - index, offset, hit);
    var part, rest := s[offset..offset + hit], PartsLeft(s, p, n - index - 1, offset + hit + |p|);
    assert parts[index := part][..index + 1] == parts[..index] + [part];
    assert parts[..index] + ([part] + rest) == (parts[..index] + [part]) + rest;
  }

  lemma SplittingEnd(s: Text, p: Text, parts: seq<Text>, n: nat, offset: nat)
    requires Splitting(s, p, parts, n, n, offset) && offset <= |s| && |parts| == n + 1
    ensures parts[n := s[offset..|s|]] == SplitParts(s, p)
  {
    hide CutsLeft, PartsLeft, SplitParts;
    SplitEnd(s, p, offset);
    assert s[offset..|s|] == s[offset..];
  }

  /** The separator put between the parts gives the string back, the empty separator included. */
  lemma SplitRoundTrip(s: Text, p: Text)
    requires s != []
    ensures SplitParts(s, p) != [] && Join(SplitParts(s, p), p) == s
    ensures p != [] ==> |SplitParts(s, p)| == CountOf(s, p) + 1
    ensures p != [] ==> FreeButLast(SplitParts(s, p), p)
  {
    if p == [] {
      JoinBlank(|s|, s);
    } else {
      CountAtMostGreedy(s, p);
      PiecesCount(s, p, CountOf(s, p), 0);
      JoinPieces(s, p, CountOf(s, p), 0);
      PiecesFree(s, p, CountOf(s, p), 0);
      assert s[0..] == s;
    }
  }

  lemma {:induction false} JoinBlank(n: nat, s: Text)
    ensures Join(Blanks(n) + [s], "") == s
  {
    if n != 0 {
      JoinBlank(n - 1, s);
      BlanksStep(n);
      assert (Blanks(n) + [s])[1..] == Blanks(n - 1) + [s];
    }
  }

  // ---- SplitOnChar ----

  function CharCount(s: Text, c: char): nat {
    if s == [] then 0 else (if s[0] == c then 1 else 0) + CharCount(s[1..], c)
  }

  method FindCharCount(s: Text, c: char) returns (count: nat)
    ensures count == CharCount(s, c)
  {
    count := 0;
    for i := 0 to |s|
      invariant count + CharCount(s[i..], c) == CharCount(s, c)
    {
      if s[i] == c {
        count := count + 1;
      }
    }
  }

  /** Counting a character and choosing its occurrences greedily come to the same. */
  lemma {:induction false} CharCountIsGreedy(s: Text, c: char, from: nat)
    requires from <= |s|
    ensures CharCount(s[from..], c) == GreedyCount(s, [c], from)
    decreases |s| - from
  {
    hide GreedyCount, NextMatch;
    if from < |s| {
      CharCountIsGreedy(s, c, from + 1);
      assert s[from..][1..] == s[from + 1..];
      assert s[from..from + 1] == [s[from]];
      if s[from] == c {
        GreedyTakes(s, [c], from);
      } else {
        NextMatchSkips(s, [c], from, from + 1);
        GreedyStep(s, [c], from, from + 1);
      }
    } else {
      GreedyNone(s, [c], from);
    }
  }

  lemma {:induction false} CharCountBounded(s: Text, c: char)
    ensures CharCount(s, c) <= |s|
  {
    if s != [] { CharCountBounded(s[1..], c); }
  }

  function CharParts(s: Text, c: char): seq<Text> {
    Pieces(s, [c], CharCount(s, c), 0)
  }

  /** A part starts at `start`, no separator was seen in it up to i, and n are still to come. */
  ghost predicate InPart(s: Text, c: char, n: nat, start: nat, i: nat) {
    && start <= i <= |s| && n == GreedyCount(s, [c], start)
    && forall j: nat | start <= j < i :: !MatchesAt(s, j, [c])
  }

  lemma PartStart(s: Text, c: char)
    ensures InPart(s, c, CharCount(s, c), 0, 0)
  {
    CharCountIsGreedy(s, c, 0);
    assert s[0..] == s;
  }

  lemma PartEnds(s: Text, c: char, n: nat, start: nat, i: nat)
    requires InPart(s, c, n, start, i) && i < |s| && s[i] == c
    ensures 0 < n && InPart(s, c, n - 1, i + 1, i + 1)
    ensures Pieces(s, [c], n, start) == [s[start..i]] + Pieces(s, [c], n - 1, i + 1)
  {
    hide NextMatch;
    assert s[i..i + 1] == [c];
    NextMatchSkips(s, [c], start, i);
    assert MatchesAt(s, i, [c]);
  }

  /** One less than the number of slots, but never zero. */
  function SplitAnswer(c: char, s: Text): nat {
    var splitCount := if c == '\0' then |s| else CharCount(s, c);
    if splitCount == 0 then 1 else splitCount
  }

  /**
   avStringSplitOnChar. For the NUL separator the array has room for one part a character and
   the rest of it stays empty. The answer is one less than the number of slots, or 1 when
   there is a single slot.
   */
  method SplitOnChar(c: char, s: Text) returns (n: nat, parts: array<Text>)
    requires s != [] && |s| < UINT32_MAX
    ensures fresh(parts) && parts.Length == 1 + (if c == '\0' then |s| else CharCount(s, c))
    ensures |CharParts(s, c)| <= parts.Length
    ensures parts[..] == CharParts(s, c) + Blanks(parts.Length - |CharParts(s, c)|)
    ensures n == SplitAnswer(c, s)
  {
    hide InPart, Pieces, Section, CharCount, CharParts, Blanks, Cutting;
    var splitCount := |s|;
    if c != '\0' {
      splitCount := FindCharCount(s, c);
    }
    CharCountBounded(s, c);
    parts := new Text[splitCount + 1](_ => "");
    if splitCount == 0 {
      NoCut(s, c);
      CopyAll(s);
      parts[0] := Section(s, 0, FULL_LENGTH);
      BlankTail(parts[..], 1);
      return 1, parts;
    }
    var start: nat, end: nat, index: nat := 0, 0, 0;
    CutStart(s, c, parts[..]);
    for i := 0 to |s|
      invariant start <= end == i && index < parts.Length && parts.Length == splitCount + 1
      invariant Cutting(s, c, parts[..], index, start, i)
    {
      if s[i] == c {
        CutHere(s, c, parts[..], index, start, i);
        CopyPart(s, start, end);
        parts[index] := Section(s, start, end - start);
        index := index + 1;
        start := end + 1;
      } else {
        CutLater(s, c, parts[..], index, start, i);
      }
      end := end + 1;
    }
    CutEnd(s, c, parts[..], index, start);
    CopyPart(s, start, end);
    parts[index] := Section(s, start, end - start);
    index := index + 1;
    n := splitCount;
  }

  /** The slots before `index` are filled, and the part that starts at `start` has been read up to i. */
  ghost predicate Cutting(s: Text, c: char, parts: seq<Text>, index: nat, start: nat, i: nat) {
    && index <= CharCount(s, c) < |parts|
    && InPart(s, c, CharCount(s, c) - index, start, i)
    && CharParts(s, c) == parts[..index] + Pieces(s, [c], CharCount(s, c) - index, start)
    && forall k | index <= k < |parts| :: parts[k] == ""
  }

  lemma CutStart(s: Text, c: char, parts: seq<Text>)
    requires CharCount(s, c) < |parts| && forall k | 0 <= k < |parts| :: parts[k] == ""
    ensures Cutting(s, c, parts, 0, 0, 0)
  {
    hide InPart, Pieces, CharCount;
    PartStart(s, c);
    assert [] + CharParts(s, c) == CharParts(s, c);
  }

  lemma CutHere(s: Text, c: char, parts: seq<Text>, index: nat, start: nat, i: nat)
    requires Cutting(s, c, parts, index, start, i) && i < |s| && s[i] == c
    ensures start <= i && index + 1 < |parts|
    ensures Cutting(s, c, parts[index := s[start..i]], index + 1, i + 1, i + 1)
  {
    hide Pieces, CharCount, CharParts;
    var left := CharCount(s, c) - index;
    PartEnds(s, c, left, start, i);
    assert parts[index := s[start..i]][..index + 1] == parts[..index] + [s[start..i]];
    assert parts[..index] + ([s[start..i]] + Pieces(s, [c], left - 1, i + 1)) ==
      (parts[..index] + [s[start..i]]) + Pieces(s, [c], left - 1, i + 1);
  }

  lemma CutLater(s: Text, c: char, parts: seq<Text>, index: nat, start: nat, i: nat)
    requires Cutting(s, c, parts, index, start, i) && i < |s| && s[i] != c
    ensures Cutting(s, c, parts, index, start, i + 1)
  {
  }

  lemma CutEnd(s: Text, c: char, parts: seq<Text>, index: nat, start: nat)
    requires Cutting(s, c, parts, index, start, |s|) && start <= |s|
    ensures index < |parts| && |CharParts(s, c)| == index + 1
    ensures parts[index := s[start..]] == CharParts(s, c) + Blanks(|parts| - index - 1)
  {
  }

  lemma BlankTail(parts: seq<Text>, used: nat)
    requires used <= |parts| && forall k | used <= k < |parts| :: parts[k] == ""
    ensures parts == parts[..used] + Blanks(|parts| - used)
  {
  }

  lemma CopyPart(s: Text, start: nat, end: nat)
    requires start <= end <= |s| < FULL_LENGTH
    ensures Section(s, start, end - start) == s[start..end]
    ensures s[start..|s|] == s[start..]
  {
  }

  lemma NoCut(s: Text, c: char)
    requires CharCount(s, c) == 0
    ensures CharParts(s, c) == [s]
  {
  }

  /** The parts join back to the string, and no part at all contains the separator. */
  lemma SplitOnCharRoundTrip(s: Text, c: char)
    ensures Join(CharParts(s, c), [c]) == s
    ensures |CharParts(s, c)| == CharCount(s, c) + 1
    ensures forall k | 0 <= k < |CharParts(s, c)| :: c !in CharParts(s, c)[k]
  {
    hide Pieces, Join, GreedyCount, CharCount;
    var parts := CharParts(s, c);
    CharCountIsGreedy(s, c, 0);
    assert s[0..] == s;
    JoinPieces(s, [c], CharCount(s, c), 0);
    PiecesCount(s, [c], CharCount(s, c), 0);
    PiecesFree(s, [c], CharCount(s, c), 0);
    forall k | 0 <= k < |parts| ensures c !in parts[k] {
      FreeOfChar(parts[k], c);
    }
  }

  lemma FreeOfChar(s: Text, c: char)
    requires Free(s, [c])
    ensures c !in s
  {
    forall j | 0 <= j < |s| ensures s[j] != c {
      assert !MatchesAt(s, j, [c]);
      assert s[j..j + 1] == [s[j]];
    }
  }

  // ---- what Replace does ----

  /** The string with every leftmost greedy occurrence of p replaced. */
  function AllReplaced(s: Text, p: Text, r: Text): Text
    requires p != []
  {
    Join(Pieces(s, p, GreedyCount(s, p, 0), 0), r)
  }

  /** A separator that no piece contains is found again exactly between the pieces. */
  lemma {:induction false} PiecesOfJoin(before: Text, pieces: seq<Text>, c: char)
    requires pieces != [] && forall k | 0 <= k < |pieces| :: c !in pieces[k]
    ensures var t := before + Join(pieces, [c]);
      && GreedyCount(t, [c], |before|) == |pieces| - 1
      && Pieces(t, [c], |pieces| - 1, |before|) == pieces
    decreases |pieces|
  {
    hide NextMatch, MatchesAt, GreedyCount, Pieces;
    var t := before + Join(pieces, [c]);
    if |pieces| == 1 {
      LastPiece(before, pieces[0], c);
    } else {
      PiecesOfJoin(before + pieces[0] + [c], pieces[1..], c);
      assert t == before + pieces[0] + [c] + Join(pieces[1..], [c]);
      FirstPiece(before, pieces[0], Join(pieces[1..], [c]), c, |pieces| - 2);
    }
  }

  lemma NoneInside(t: Text, c: char, from: nat, to: nat)
    requires from <= to <= |t| && c !in t[from..to]
    ensures forall j: nat | from <= j < to :: !MatchesAt(t, j, [c])
  {
    forall j: nat | from <= j < to ensures !MatchesAt(t, j, [c]) {
      assert t[j] == t[from..to][j - from];
    }
  }

  lemma LastPiece(before: Text, piece: Text, c: char)
    requires c !in piece
    ensures GreedyCount(before + piece, [c], |before|) == 0 && Pieces(before + piece, [c], 0, |before|) == [piece]
  {
    var t := before + piece;
    assert t[|before|..|t|] == piece;
    NoneInside(t, c, |before|, |t|);
    NextMatchSkips(t, [c], |before|, |t|);
    GreedyStep(t, [c], |before|, |t|);
    GreedyNone(t, [c], |t|);
  }

  lemma FirstPiece(before: Text, piece: Text, rest: Text, c: char, n: nat)
    requires c !in piece
    ensures var t := before + piece + [c] + rest; var at := |before| + |piece|;
      && GreedyCount(t, [c], |before|) == 1 + GreedyCount(t, [c], at + 1)
      && Pieces(t, [c], n + 1, |before|) == [piece] + Pieces(t, [c], n, at + 1)
  {
    hide NextMatch, MatchesAt;
    var t, at := before + piece + [c] + rest, |before| + |piece|;
    assert t[|before|..at] == piece;
    assert MatchesAt(t, at, [c]) by { HereIs(t, at, c); }
    NoneInside(t, c, |before|, at);
    NextMatchSkips(t, [c], |before|, at);
    GreedyTakes(t, [c], at);
    GreedyStep(t, [c], |before|, at);
    NextHere(t, [c], at);
  }

  lemma HereIs(t: Text, at: nat, c: char)
    requires at < |t| && t[at] == c
    ensures MatchesAt(t, at, [c])
  {
  }

  lemma NextHere(t: Text, p: Text, at: nat)
    requires MatchesAt(t, at, p)
    ensures NextMatch(t, p, at) == at
  {
  }

  lemma {:induction false} PiecesWithin(s: Text, p: Text, n: nat, from: nat, k: nat, c: char)
    requires p != [] && from <= |s| && c !in s && k < |Pieces(s, p, n, from)|
    ensures c !in Pieces(s, p, n, from)[k]
    decreases n
  {
    hide NextMatch;
    var i := NextMatch(s, p, from);
    if n != 0 && i != NOT_FOUND && 0 < k { PiecesWithin(s, p, n - 1, i + |p|, k - 1, c); }
  }

  /** Replacing a pattern by a character that the string does not contain is undone by replacing it back. */
  lemma ReplaceUndone(s: Text, p: Text, c: char)
    requires p != [] && c !in s
    ensures Replaced(Replaced(s, p, [c]), [c], p) == s
  {
    hide Pieces, Join, CountOf, Uniform;
    var pieces := Pieces(s, p, CountOf(s, p), 0);
    forall k | 0 <= k < |pieces| ensures c !in pieces[k] { PiecesWithin(s, p, CountOf(s, p), 0, k, c); }
    PiecesOfJoin([], pieces, c);
    var t := Join(pieces, [c]);
    assert [] + t == t;
    SingleUniform(c);
    CountExactIff([c]);
    JoinPieces(s, p, CountOf(s, p), 0);
    assert s[0..] == s;
  }

  lemma SingleUniform(c: char)
    ensures Uniform([c])
  {
  }

  // ---- Replace and Split, piece by piece ----

  /** Nothing stands further left than |a|: the pattern behind `a` is the leftmost one. */
  ghost predicate Leftmost(a: Text, p: Text, t: Text) {
    forall j: nat | j < |a| :: !MatchesAt(a + p + t, j, p)
  }

  /** What is in front of the position that cutting starts at does not matter. */
  lemma {:induction false} PiecesBehind(a: Text, t: Text, p: Text, n: nat, from: nat)
    requires p != [] && from <= |t|
    ensures Pieces(a + t, p, n, |a| + from) == Pieces(t, p, n, from)
    decreases n
  {
    hide NextMatch, MatchesAt;
    assert (a + t)[|a|..] == t;
    var s := a + t;
    assert s[|a| + from..] == t[from..];
    NextMatchShift(s, p, |a| + from);
    NextMatchShift(t, p, from);
    var i := NextMatch(t, p, from);
    if n != 0 && i != NOT_FOUND {
      assert s[|a| + from..|a| + i] == t[from..i];
      PiecesBehind(a, t, p, n - 1, i + |p|);
    }
  }

  /** The first cut is made at the leftmost occurrence, and the rest is cut by itself. */
  lemma PiecesFirst(a: Text, p: Text, t: Text, n: nat)
    requires p != [] && 0 < n && Leftmost(a, p, t)
    ensures Pieces(a + p + t, p, n, 0) == [a] + Pieces(t, p, n - 1, 0)
  {
    hide NextMatch;
    var s := a + p + t;
    assert s[|a|..|a| + |p|] == p;
    assert MatchesAt(s, |a|, p);
    assert s[0..|a|] == a;
    PiecesBehind(a + p, t, p, n - 1, 0);
  }

  /** With nothing counted the string stays as it is, and is the only part. */
  lemma UncutParts(s: Text, p: Text, r: Text)
    requires p != [] && CountOf(s, p) == 0
    ensures Replaced(s, p, r) == s && SplitParts(s, p) == [s]
  {
    assert s[0..] == s;
  }

  /**
   With something counted, what is in front of the leftmost occurrence is kept and is the first part,
   the replacement follows, and the rest is treated likewise with one less to go.
   */
  lemma ReplacedFirst(a: Text, p: Text, t: Text, r: Text)
    requires p != [] && 0 < CountOf(a + p + t, p) && Leftmost(a, p, t)
    ensures var left := Pieces(t, p, CountOf(a + p + t, p) - 1, 0);
      && Replaced(a + p + t, p, r) == a + r + Join(left, r)
      && SplitParts(a + p + t, p) == [a] + left
  {
    hide CountOf, Pieces, Join;
    PiecesFirst(a, p, t, CountOf(a + p + t, p));
    JoinNext(a, Pieces(t, p, CountOf(a + p + t, p) - 1, 0), r);
  }

  /** The empty separator cuts off an empty part for every character and then the whole string. */
  lemma SplitByNothing(s: Text)
    ensures var parts := SplitParts(s, []);
      |parts| == |s| + 1 && parts[|s|] == s && forall k | 0 <= k < |s| :: parts[k] == ""
  {
  }

  /** An occurrence behind a wrong start is found; one that is lost in a wrong start is left alone. */
  lemma ReplaceHere()
    ensures Replaced("acab", "ab", "x") == "acx" && SplitParts("acab", "ab") == ["ac", ""]
    ensures Replaced("aab", "ab", "x") == "aab" && SplitParts("aab", "ab") == ["aab"]
  {
    hide CountOf, Replaced, SplitParts, Join;
    CountsHere();
    assert "ac" + "ab" + "" == "acab";
    assert "acab"[0..2][1] == 'c' && "acab"[1..3][0] == 'c';
    ReplacedFirst("ac", "ab", "", "x");
    UncutParts("aab", "ab", "x");
    JoinOne("", "x");
  }

  /** Replace replaces every occurrence, in every string and by every replacement, exactly for uniform patterns. */
  lemma ReplacesAllIff(p: Text)
    requires p != []
    ensures Uniform(p) <==> forall s: Text, r: Text :: Replaced(s, p, r) == AllReplaced(s, p, r)
  {
    hide Uniform, CountOf, GreedyCount, Pieces, Join;
    CountExactIff(p);
    if !Uniform(p) {
      var s: Text :| CountOf(s, p) != GreedyCount(s, p, 0);
      ReplacedLength(s, p, []);
      JoinedLength(s, p, [], GreedyCount(s, p, 0));
      DifferentProducts(CountOf(s, p), GreedyCount(s, p, 0), |p|);
      assert Replaced(s, p, []) != AllReplaced(s, p, []);
    }
  }

  lemma DifferentProducts(a: nat, b: nat, d: nat)
    requires a != b && 0 < d
    ensures a * d != b * d
  {
  }

  // ---- the answer of SplitOnChar ----

  /** It is the number of parts exactly if the separator is missing or, for NUL, all but one of the characters. */
  lemma SplitAnswerIff(s: Text, c: char)
    requires s != []
    ensures SplitAnswer(c, s) == |CharParts(s, c)| <==> if c == '\0' then CharCount(s, c) == |s| - 1 else c !in s
    ensures c != '\0' && c in s ==> SplitAnswer(c, s) == |CharParts(s, c)| - 1
    ensures c != '\0' && c !in s ==> SplitAnswer(c, s) == 1
    ensures c == '\0' ==> SplitAnswer(c, s) == |s|
  {
    hide Pieces, CharParts;
    SplitOnCharRoundTrip(s, c);
    CharCountIn(s, c);
  }

  lemma {:induction false} CharCountIn(s: Text, c: char)
    ensures 0 < CharCount(s, c) <==> c in s
  {
    if s != [] { CharCountIn(s[1..], c); }
  }

  /** One part and two parts get the same answer. */
  lemma SplitAnswerHere()
    ensures SplitAnswer(',', "a") == 1 && |CharParts("a", ',')| == 1
    ensures SplitAnswer(',', "a,b") == 1 && |CharParts("a,b", ',')| == 2
  {
    hide CharParts;
    SplitOnCharRoundTrip("a", ',');
    SplitOnCharRoundTrip("a,b", ',');
    CountHere();
  }

  lemma CountHere()
    ensures CharCount("a", ',') == 0 && CharCount("a,b", ',') == 1
  {
    assert "a,b"[1..] == ",b" && ",b"[1..] == "b" && "b"[1..] == "" && "a"[1..] == "";
  }
}
