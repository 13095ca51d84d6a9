/**
 Reference-counted string memory. A world is the string variables of a program together with the
 memories they may be backed by; every operation is a step from one world to the next.
 */
module StringMemory {
  import opened Common

  type MemoryId = nat

  datatype AvString =
    | Literal(text: Text)
    | Backed(memory: MemoryId, offset: nat, len: nat)

  datatype Memory = Memory(data: Text, referenceCount: nat, heapAllocated: bool)

  type Memories = map<MemoryId, Memory>

  datatype World = World(strings: seq<AvString>, memories: Memories)

  /** What a freed string variable holds. */
  const EMPTY: AvString := Literal("")

  // ---- counting handles ----

  function On(s: AvString, m: MemoryId): nat {
    if s.Backed? && s.memory == m then 1 else 0
  }

  function HandlesOn(strings: seq<AvString>, m: MemoryId): nat {
    if strings == [] then 0 else On(strings[0], m) + HandlesOn(strings[1..], m)
  }

  lemma {:induction false} HandlesAfter(strings: seq<AvString>, i: nat, s: AvString, m: MemoryId)
    requires i < |strings|
    ensures HandlesOn(strings[i := s], m) + On(strings[i], m) == HandlesOn(strings, m) + On(s, m)
  {
    if i == 0 {
      assert strings[0 := s][1..] == strings[1..];
    } else {
      HandlesAfter(strings[1..], i - 1, s, m);
      assert strings[i := s][1..] == strings[1..][i - 1 := s];
    }
  }

  lemma {:induction false} HandleCounts(strings: seq<AvString>, i: nat, m: MemoryId)
    requires i < |strings|
    ensures On(strings[i], m) <= HandlesOn(strings, m)
  {
    if 0 < i { HandleCounts(strings[1..], i - 1, m); }
  }

  lemma {:induction false} SomeHandle(strings: seq<AvString>, m: MemoryId)
    ensures HandlesOn(strings, m) == 0 <==> forall i | 0 <= i < |strings| :: On(strings[i], m) == 0
  {
    if strings != [] {
      SomeHandle(strings[1..], m);
      assert forall i | 1 <= i < |strings| :: strings[i] == strings[1..][i - 1];
      assert forall i | 0 <= i < |strings| - 1 :: strings[1..][i] == strings[i + 1];
    }
  }

  // ---- sound worlds ----

  /** A backed string lies inside a memory that still holds data. */
  predicate SoundString(memories: Memories, s: AvString) {
    s.Backed? ==> s.memory in memories && s.offset < |memories[s.memory].data| &&
                  s.offset + s.len <= |memories[s.memory].data|
  }

  predicate CountRight(w: World, m: MemoryId)
    requires m in w.memories
  {
    w.memories[m].referenceCount == HandlesOn(w.strings, m)
  }

  /** Every reference count is the number of variables backed by that memory, and none dangles. */
  predicate Conserved(w: World) {
    && (forall m | m in w.memories :: CountRight(w, m) && |w.memories[m].data| < FULL_LENGTH)
    && (forall i | 0 <= i < |w.strings| :: SoundString(w.memories, w.strings[i]))
  }

  /** No memory on the heap is without a variable that could still free it. */
  predicate NoOrphans(w: World) {
    forall m | m in w.memories :: w.memories[m].heapAllocated ==> 0 < w.memories[m].referenceCount
  }

  function TextOf(memories: Memories, s: AvString): Text
    requires SoundString(memories, s)
  {
    if s.Literal? then s.text else memories[s.memory].data[s.offset..s.offset + s.len]
  }

  /** A constant reads as itself, and a backed string as the characters of its memory. */
  lemma TextMeans(memories: Memories, s: AvString)
    requires SoundString(memories, s)
    ensures var text := TextOf(memories, s);
      && |text| == LengthOf(s) && (s.Literal? ==> text == s.text)
      && (s.Backed? ==> forall k | 0 <= k < s.len :: text[k] == memories[s.memory].data[s.offset + k])
  {
  }

  function LengthOf(s: AvString): nat {
    if s.Literal? then |s.text| else s.len
  }

  /** The variable is as it was and reads as it did. */
  predicate ReadsAs(w: World, w': World, i: nat) {
    && i < |w.strings| == |w'.strings| && w'.strings[i] == w.strings[i]
    && SoundString(w.memories, w.strings[i]) && SoundString(w'.memories, w.strings[i])
    && TextOf(w'.memories, w.strings[i]) == TextOf(w.memories, w.strings[i])
  }

  // ---- the two elementary steps ----

  /** A variable is made to point into a memory. */
  function Bind(w: World, dst: nat, offset: nat, len: nat, m: MemoryId): World
    requires dst < |w.strings| && m in w.memories
  {
    var memory := w.memories[m];
    World(w.strings[dst := Backed(m, offset, len)],
          w.memories[m := memory.(referenceCount := memory.referenceCount + 1)])
  }

  /** A memory is given back; only memory on the heap loses its record as well. */
  function Release(memories: Memories, m: MemoryId): Memories
    requires m in memories
  {
    if memories[m].heapAllocated then memories - {m} else memories[m := Memory([], 0, false)]
  }

  function LoseReference(memories: Memories, m: MemoryId): Memories
    requires m in memories && 0 < memories[m].referenceCount
  {
    var memory := memories[m];
    if memory.referenceCount == 1 then Release(memories, m)
    else memories[m := memory.(referenceCount := memory.referenceCount - 1)]
  }

  function Unbind(w: World, str: nat): World
    requires Conserved(w) && str < |w.strings|
  {
    var s := w.strings[str];
    if s.Literal? then w
    else
      HandleCounts(w.strings, str, s.memory);
      assert CountRight(w, s.memory);
      World(w.strings[str := EMPTY], LoseReference(w.memories, s.memory))
  }

  /** Making a variable point into a memory keeps the counts right exactly if it pointed into none. */
  lemma BindConservesIff(w: World, dst: nat, offset: nat, len: nat, m: MemoryId)
    requires Conserved(w) && dst < |w.strings| && m in w.memories
    requires offset < |w.memories[m].data| && offset + len <= |w.memories[m].data|
    ensures Conserved(Bind(w, dst, offset, len, m)) <==> w.strings[dst].Literal?
  {
    hide HandlesOn;
    var s, s' := w.strings[dst], Backed(m, offset, len);
    var w' := Bind(w, dst, offset, len, m);
    forall k | k in w'.memories
      ensures CountRight(w', k) <==> On(s, k) == 0
    {
      assert CountRight(w, k);
      HandlesAfter(w.strings, dst, s', k);
    }
    if s.Backed? {
      assert s.memory in w'.memories && !CountRight(w', s.memory);
    }
  }

  /** Freeing a variable keeps the counts right and gives storage back exactly with the last handle. */
  lemma UnbindConserves(w: World, str: nat)
    requires Conserved(w) && str < |w.strings|
    ensures Conserved(Unbind(w, str))
    ensures NoOrphans(w) ==> NoOrphans(Unbind(w, str))
  {
    hide HandlesOn;
    var s, w' := w.strings[str], Unbind(w, str);
    if s.Backed? {
      forall k | k in w'.memories ensures CountRight(w', k) {
        assert CountRight(w, k);
        HandlesAfter(w.strings, str, EMPTY, k);
      }
      HandlesAfter(w.strings, str, EMPTY, s.memory);
      SomeHandle(w'.strings, s.memory);
      assert CountRight(w, s.memory);
      forall i | 0 <= i < |w'.strings| ensures SoundString(w'.memories, w'.strings[i]) {
        assert On(w'.strings[i], s.memory) == 0 || w.memories[s.memory].referenceCount > 1;
        assert i != str ==> SoundString(w.memories, w.strings[i]);
      }
    }
  }

  predicate HoldsData(memories: Memories, m: MemoryId) {
    m in memories && memories[m].data != []
  }

  /** Storage is given back exactly when the last variable backed by it lets go. */
  lemma ReleasedWithLastHandle(w: World, str: nat)
    requires Conserved(w) && str < |w.strings| && w.strings[str].Backed?
    ensures var m := w.strings[str].memory;
      HoldsData(Unbind(w, str).memories, m) <==> 0 < HandlesOn(Unbind(w, str).strings, m)
  {
    hide HandlesOn;
    var m := w.strings[str].memory;
    HandlesAfter(w.strings, str, EMPTY, m);
    assert CountRight(w, m);
  }

  /** No other variable notices. */
  lemma UnbindKeepsTexts(w: World, str: nat, i: nat)
    requires Conserved(w) && str < |w.strings| && i < |w.strings| && i != str
    ensures Conserved(Unbind(w, str)) && ReadsAs(w, Unbind(w, str), i)
  {
    hide HandlesOn;
    UnbindConserves(w, str);
    assert SoundString(Unbind(w, str).memories, Unbind(w, str).strings[i]);
  }

  // ---- strings made from memories and strings ----

  function Capped(available: nat, offset: nat, length: nat): (n: nat)
    requires offset <= available
    ensures n == if offset + length <= available then length else available - offset
  {
    (if available <= length + offset then available else length + offset) - offset
  }

  function FromMemory(w: World, dst: nat, offset: nat, length: nat, m: MemoryId): World
    requires dst < |w.strings| && m in w.memories
  {
    var capacity := |w.memories[m].data|;
    if w.strings[dst].Backed? && w.strings[dst].memory != m then w
    else if offset >= capacity then w
    else Bind(w, dst, offset, Capped(capacity, offset, if length == FULL_LENGTH then capacity else length), m)
  }

  /** The counts stay right unless a variable already backed by this memory is bound to it again. */
  lemma FromMemoryConservesIff(w: World, dst: nat, offset: nat, length: nat, m: MemoryId)
    requires Conserved(w) && dst < |w.strings| && m in w.memories
    ensures Conserved(FromMemory(w, dst, offset, length, m)) <==>
      !(On(w.strings[dst], m) == 1 && offset < |w.memories[m].data|)
  {
    hide HandlesOn, Conserved, Bind;
    var capacity := |w.memories[m].data|;
    if offset < capacity {
      BindConservesIff(w, dst, offset, Capped(capacity, offset, if length == FULL_LENGTH then capacity else length), m);
    }
  }

  /** The only variable of a memory bound to it again: one variable, two references. */
  lemma FromMemoryLoses()
    ensures var w := World([Backed(0, 0, 2)], map[0 := Memory("ab", 1, true)]);
      Conserved(w) && !Conserved(FromMemory(w, 0, 0, FULL_LENGTH, 0))
  {
    BackedOnce();
    FromMemoryConservesIff(World([Backed(0, 0, 2)], map[0 := Memory("ab", 1, true)]), 0, 0, FULL_LENGTH, 0);
  }

  lemma BackedOnce()
    ensures Conserved(World([Backed(0, 0, 2)], map[0 := Memory("ab", 1, true)]))
  {
    assert HandlesOn([Backed(0, 0, 2)], 0) == 1;
  }

  function CopySection(w: World, dst: nat, offset: nat, length: nat, src: AvString): World
    requires dst < |w.strings| && SoundString(w.memories, src)
  {
    if offset >= LengthOf(src) then w
    else
      var len := Capped(LengthOf(src), offset, if length == FULL_LENGTH then LengthOf(src) else length);
      if src.Backed? then FromMemory(w, dst, src.offset + offset, len, src.memory)
      else World(w.strings[dst := Literal(src.text[offset..offset + len])], w.memories)
  }

  /** Copying loses a count exactly if it overwrites a variable that is still backed. */
  lemma CopySectionConservesIff(w: World, dst: nat, offset: nat, length: nat, src: AvString)
    requires Conserved(w) && dst < |w.strings| && SoundString(w.memories, src)
    ensures Conserved(CopySection(w, dst, offset, length, src)) <==>
      (offset >= LengthOf(src) || w.strings[dst].Literal? ||
       (src.Backed? && w.strings[dst].memory != src.memory))
  {
    hide HandlesOn;
    if offset < LengthOf(src) {
      var len := Capped(LengthOf(src), offset, if length == FULL_LENGTH then LengthOf(src) else length);
      if src.Backed? {
        FromMemoryConservesIff(w, dst, src.offset + offset, len, src.memory);
      } else {
        OverwriteConservesIff(w, dst, src.text[offset..offset + len]);
      }
    }
  }

  /** A constant copied over the only variable of a memory: no variable is left, and one reference. */
  lemma CopySectionLoses()
    ensures var w := World([Backed(0, 0, 2)], map[0 := Memory("ab", 1, true)]);
      Conserved(w) && !Conserved(CopySection(w, 0, 0, FULL_LENGTH, Literal("c")))
  {
    BackedOnce();
    CopySectionConservesIff(World([Backed(0, 0, 2)], map[0 := Memory("ab", 1, true)]), 0, 0, FULL_LENGTH, Literal("c"));
  }

  lemma OverwriteConservesIff(w: World, dst: nat, text: Text)
    requires Conserved(w) && dst < |w.strings|
    ensures Conserved(World(w.strings[dst := Literal(text)], w.memories)) <==> w.strings[dst].Literal?
  {
    hide HandlesOn;
    var w' := World(w.strings[dst := Literal(text)], w.memories);
    forall k | k in w'.memories ensures CountRight(w', k) <==> On(w.strings[dst], k) == 0 {
      assert CountRight(w, k);
      HandlesAfter(w.strings, dst, Literal(text), k);
    }
    assert SoundString(w.memories, w.strings[dst]);
    if w.strings[dst].Backed? {
      assert !CountRight(w', w.strings[dst].memory);
    }
  }

  /** A copy into a free variable reads as the section. */
  lemma CopySectionReads(w: World, dst: nat, offset: nat, length: nat, src: AvString)
    requires Conserved(w) && dst < |w.strings| && SoundString(w.memories, src) && w.strings[dst].Literal?
    requires offset < LengthOf(src) && length <= FULL_LENGTH
    ensures var w' := CopySection(w, dst, offset, length, src);
      && SoundString(w'.memories, w'.strings[dst])
      && TextOf(w'.memories, w'.strings[dst]) == Section(TextOf(w.memories, src), offset, length)
  {
    hide HandlesOn, Conserved, FromMemory, Section;
    if src.Literal? {
      SectionCapped(src.text, offset, length);
    } else {
      DataFits(w, src.memory);
      var data := w.memories[src.memory].data;
      var len := Capped(src.len, offset, if length == FULL_LENGTH then src.len else length);
      FromMemoryReads(w, dst, src.offset + offset, len, src.memory);
      SectionOfSlice(data, src.offset, src.len, offset, length);
    }
  }

  lemma FromMemoryReads(w: World, dst: nat, offset: nat, length: nat, m: MemoryId)
    requires dst < |w.strings| && w.strings[dst].Literal? && m in w.memories
    requires offset < |w.memories[m].data| && length <= FULL_LENGTH
    ensures var w' := FromMemory(w, dst, offset, length, m);
      && SoundString(w'.memories, w'.strings[dst])
      && TextOf(w'.memories, w'.strings[dst]) == Section(w.memories[m].data, offset, length)
  {
  }

  lemma SectionCapped(text: Text, offset: nat, length: nat)
    requires offset <= |text|
    ensures Section(text, offset, length) ==
      text[offset..offset + Capped(|text|, offset, if length == FULL_LENGTH then |text| else length)]
  {
  }

  lemma SectionOfSlice(data: Text, from: nat, n: nat, offset: nat, length: nat)
    requires from + n <= |data| < FULL_LENGTH && offset < n
    ensures Section(data[from..from + n], offset, length) ==
      Section(data, from + offset, Capped(n, offset, if length == FULL_LENGTH then n else length))
  {
    hide Section;
    var len := Capped(n, offset, if length == FULL_LENGTH then n else length);
    SectionCapped(data[from..from + n], offset, length);
    SectionCapped(data, from + offset, len);
    SliceOfSlice(data, from, from + n, offset, offset + len);
  }

  lemma SoundAt(w: World, i: nat)
    requires Conserved(w) && i < |w.strings|
    ensures SoundString(w.memories, w.strings[i])
  {
  }

  lemma DataFits(w: World, m: MemoryId)
    requires Conserved(w) && m in w.memories
    ensures |w.memories[m].data| < FULL_LENGTH && CountRight(w, m)
  {
  }

  /** Every other variable reads as before. */
  lemma CopySectionKeepsTexts(w: World, dst: nat, offset: nat, length: nat, src: AvString, i: nat)
    requires Conserved(w) && dst < |w.strings| && SoundString(w.memories, src) && i < |w.strings| && i != dst
    ensures ReadsAs(w, CopySection(w, dst, offset, length, src), i)
  {
  }

  // ---- strings in memory of their own ----

  /** The text goes into new memory on the heap, and only then is the variable's old memory let go. */
  function Adopt(w: World, dst: nat, text: Text, m: MemoryId): World
    requires Conserved(w) && dst < |w.strings| && m !in w.memories && |text| < FULL_LENGTH
  {
    var filled := World(w.strings, w.memories[m := Memory(text, 0, true)]);
    AllocateConserves(w, text, m);
    UnbindConserves(filled, dst);
    var free := Unbind(filled, dst);
    assert m in free.memories;
    FromMemory(free, dst, 0, FULL_LENGTH, m)
  }

  lemma AllocateConserves(w: World, text: Text, m: MemoryId)
    requires Conserved(w) && m !in w.memories && |text| < FULL_LENGTH
    ensures Conserved(World(w.strings, w.memories[m := Memory(text, 0, true)]))
  {
    hide HandlesOn;
    var w' := World(w.strings, w.memories[m := Memory(text, 0, true)]);
    forall i: nat | i < |w.strings| ensures On(w.strings[i], m) == 0 && SoundString(w'.memories, w'.strings[i]) {
      assert SoundString(w.memories, w.strings[i]);
    }
    SomeHandle(w.strings, m);
    forall k | k in w'.memories ensures CountRight(w', k) && |w'.memories[k].data| < FULL_LENGTH {
      if k != m { assert CountRight(w, k); }
    }
  }

  /** The variable reads as the text and is the only handle on its memory; the counts stay right. */
  lemma AdoptMeans(w: World, dst: nat, text: Text, m: MemoryId)
    requires Conserved(w) && dst < |w.strings| && m !in w.memories && 0 < |text| < FULL_LENGTH
    ensures var w' := Adopt(w, dst, text, m);
      && Conserved(w')
      && (NoOrphans(w) ==> NoOrphans(w'))
      && |w'.strings| == |w.strings| && w'.strings[dst] == Backed(m, 0, |text|)
      && TextOf(w'.memories, w'.strings[dst]) == text
      && w'.memories[m] == Memory(text, 1, true)
  {
    hide HandlesOn, Conserved, FromMemory, Unbind, Bind;
    var filled := World(w.strings, w.memories[m := Memory(text, 0, true)]);
    AllocateConserves(w, text, m);
    UnbindConserves(filled, dst);
    var free := Unbind(filled, dst);
    NewMemoryStays(w, dst, text, m);
    FromMemoryConservesIff(free, dst, 0, FULL_LENGTH, m);
    FromMemoryReads(free, dst, 0, FULL_LENGTH, m);
    BoundAlone(free, dst, m);
    assert text[0..] == text;
    if NoOrphans(w) {
      AdoptLeavesNoOrphan(w, dst, text, m);
    }
  }

  lemma NewMemoryStays(w: World, dst: nat, text: Text, m: MemoryId)
    requires Conserved(w) && dst < |w.strings| && m !in w.memories
    requires Conserved(World(w.strings, w.memories[m := Memory(text, 0, true)]))
    ensures var free := Unbind(World(w.strings, w.memories[m := Memory(text, 0, true)]), dst);
      && m in free.memories && free.memories[m] == Memory(text, 0, true)
      && |free.strings| == |w.strings| && free.strings[dst].Literal?
      && (forall i | 0 <= i < |w.strings| && i != dst :: free.strings[i] == w.strings[i])
  {
  }

  lemma BoundAlone(w: World, dst: nat, m: MemoryId)
    requires dst < |w.strings| && w.strings[dst].Literal? && m in w.memories && 0 < |w.memories[m].data| < FULL_LENGTH
    ensures var w' := FromMemory(w, dst, 0, FULL_LENGTH, m);
      && w'.strings == w.strings[dst := Backed(m, 0, |w.memories[m].data|)]
      && w'.memories == w.memories[m := w.memories[m].(referenceCount := w.memories[m].referenceCount + 1)]
  {
  }

  lemma AdoptLeavesNoOrphan(w: World, dst: nat, text: Text, m: MemoryId)
    requires Conserved(w) && dst < |w.strings| && m !in w.memories && 0 < |text| < FULL_LENGTH && NoOrphans(w)
    ensures NoOrphans(Adopt(w, dst, text, m))
  {
  }

  /** Every other variable reads as before. */
  lemma AdoptKeepsTexts(w: World, dst: nat, text: Text, m: MemoryId, i: nat)
    requires Conserved(w) && dst < |w.strings| && m !in w.memories && 0 < |text| < FULL_LENGTH
    requires i < |w.strings| && i != dst
    ensures ReadsAs(w, Adopt(w, dst, text, m), i)
  {
    hide HandlesOn, Unbind;
    var filled := World(w.strings, w.memories[m := Memory(text, 0, true)]);
    AllocateConserves(w, text, m);
    UnbindConserves(filled, dst);
    assert SoundString(w.memories, w.strings[i]);
    UnbindKeepsTexts(filled, dst, i);
    NewMemoryStays(w, dst, text, m);
  }

  function Clone(w: World, dst: nat, src: AvString, m: MemoryId): World
    requires Conserved(w) && dst < |w.strings| && m !in w.memories
    requires SoundString(w.memories, src) && LengthOf(src) < FULL_LENGTH
  {
    Adopt(w, dst, TextOf(w.memories, src), m)
  }

  /** What can be moved: another variable, or a literal onto itself. */
  predicate Movable(w: World, dst: nat, src: nat)
    requires dst < |w.strings|
  {
    dst != src || w.strings[dst].Literal?
  }

  lemma SourceStays(w: World, dst: nat, src: nat)
    requires Conserved(w) && dst < |w.strings| && src < |w.strings| && Movable(w, dst, src)
    ensures Conserved(Unbind(w, dst)) && ReadsAs(w, Unbind(w, dst), src)
  {
    hide HandlesOn;
    if dst == src {
      SoundAt(w, src);
    } else {
      UnbindKeepsTexts(w, dst, src);
    }
  }

  function Move(w: World, dst: nat, src: nat, m: MemoryId): World
    requires Conserved(w) && dst < |w.strings| && src < |w.strings| && Movable(w, dst, src)
    requires m !in Unbind(w, dst).memories && 0 < LengthOf(w.strings[src]) < FULL_LENGTH
  {
    SourceStays(w, dst, src);
    var cloned := Clone(Unbind(w, dst), dst, w.strings[src], m);
    AdoptMeans(Unbind(w, dst), dst, TextOf(Unbind(w, dst).memories, w.strings[src]), m);
    Unbind(cloned, src)
  }

  /** Moving lets go of the source, and carries the text over exactly if that is another variable. */
  lemma MoveMeans(w: World, dst: nat, src: nat, m: MemoryId)
    requires Conserved(w) && dst < |w.strings| && src < |w.strings| && Movable(w, dst, src)
    requires m !in Unbind(w, dst).memories && 0 < LengthOf(w.strings[src]) < FULL_LENGTH
    ensures var w' := Move(w, dst, src, m);
      && Conserved(w')
      && (NoOrphans(w) ==> NoOrphans(w'))
      && |w'.strings| == |w.strings| && w'.strings[src].Literal?
      && SoundString(w'.memories, w'.strings[dst]) && SoundString(w.memories, w.strings[src])
      && (TextOf(w'.memories, w'.strings[dst]) == TextOf(w.memories, w.strings[src]) <==> dst != src)
  {
    hide HandlesOn, Adopt;
    SourceStays(w, dst, src);
    var text := TextOf(Unbind(w, dst).memories, w.strings[src]);
    var cloned := Clone(Unbind(w, dst), dst, w.strings[src], m);
    AdoptMeans(Unbind(w, dst), dst, text, m);
    UnbindConserves(cloned, src);
    if dst != src {
      AdoptKeepsTexts(Unbind(w, dst), dst, text, m, src);
      UnbindKeepsTexts(cloned, src, dst);
    }
  }

  function Appended(w: World, dst: nat, src: AvString): Text
    requires Conserved(w) && dst < |w.strings| && SoundString(w.memories, src)
  {
    TextOf(w.memories, w.strings[dst]) + TextOf(w.memories, src)
  }

  // ---- what each operation makes its variable read as ----

  /** A variable that can be read, and what it reads as. */
  predicate Shows(w: World, i: nat, text: Text) {
    i < |w.strings| && SoundString(w.memories, w.strings[i]) && TextOf(w.memories, w.strings[i]) == text
  }

  /** The text of the destination, and behind it the text of the source. */
  lemma AppendReads(w: World, dst: nat, src: nat, m: MemoryId, a: Text, b: Text)
    requires Conserved(w) && CanStep(w, AppendOp(dst, src, m)) && Shows(w, dst, a) && Shows(w, src, b)
    ensures Shows(Step(w, AppendOp(dst, src, m)), dst, a + b)
  {
    hide HandlesOn, Conserved, Adopt;
    AdoptMeans(w, dst, Appended(w, dst, w.strings[src]), m);
    AdoptedSound(w, dst, Appended(w, dst, w.strings[src]), m);
  }

  lemma AdoptedSound(w: World, dst: nat, text: Text, m: MemoryId)
    requires Conserved(w) && dst < |w.strings| && m !in w.memories && 0 < |text| < FULL_LENGTH
    ensures Shows(Adopt(w, dst, text, m), dst, text)
  {
    hide HandlesOn, Adopt;
    AdoptMeans(w, dst, text, m);
    SoundAt(Adopt(w, dst, text, m), dst);
  }

  lemma AppendCharReads(w: World, dst: nat, c: char, m: MemoryId, a: Text)
    requires Conserved(w) && CanStep(w, AppendCharOp(dst, c, m)) && Shows(w, dst, a)
    ensures Shows(Step(w, AppendCharOp(dst, c, m)), dst, a + [c])
  {
    hide HandlesOn, Conserved, Adopt;
    AdoptedSound(w, dst, a + [c], m);
  }

  lemma CloneReads(w: World, dst: nat, src: nat, m: MemoryId, b: Text)
    requires Conserved(w) && CanStep(w, CloneOp(dst, src, m)) && Shows(w, src, b)
    ensures Shows(Step(w, CloneOp(dst, src, m)), dst, b)
  {
    hide HandlesOn, Conserved, Adopt;
    AdoptedSound(w, dst, b, m);
  }

  /** The destination reads as the source did; the source is emptied, unless it is a constant. */
  lemma MoveReads(w: World, dst: nat, src: nat, m: MemoryId, b: Text)
    requires Conserved(w) && CanStep(w, MoveOp(dst, src, m)) && dst != src && Shows(w, src, b)
    ensures var w' := Step(w, MoveOp(dst, src, m));
      Shows(w', dst, b) && Shows(w', src, if w.strings[src].Backed? then "" else b)
  {
    hide HandlesOn, Conserved, Adopt, Unbind;
    MoveMeans(w, dst, src, m);
    MoveEmpties(w, dst, src, m);
  }

  lemma MoveEmpties(w: World, dst: nat, src: nat, m: MemoryId)
    requires Conserved(w) && CanStep(w, MoveOp(dst, src, m))
    requires dst != src
    ensures SoundString(w.memories, w.strings[src])
    ensures Shows(Move(w, dst, src, m), src, if w.strings[src].Backed? then "" else TextOf(w.memories, w.strings[src]))
  {
    hide HandlesOn, Conserved, Adopt;
    SoundAt(w, src);
    SourceStays(w, dst, src);
    AdoptMeans(Unbind(w, dst), dst, TextOf(Unbind(w, dst).memories, w.strings[src]), m);
    AdoptKeepsTexts(Unbind(w, dst), dst, TextOf(Unbind(w, dst).memories, w.strings[src]), m, src);
    var cloned := Clone(Unbind(w, dst), dst, w.strings[src], m);
    assert Move(w, dst, src, m) == Unbind(cloned, src);
  }

  /** Freeing empties the variable; the memory has one reference less or, with the last one, is given back. */
  lemma FreeMeans(w: World, str: nat)
    requires Conserved(w) && CanStep(w, FreeOp(str))
    ensures var w' := Step(w, FreeOp(str));
      match w.strings[str]
      case Literal(_) => w' == w
      case Backed(m, _, _) =>
        && w'.strings == w.strings[str := Literal("")] && m in w.memories
        && var count, data, heap := w.memories[m].referenceCount, w.memories[m].data, w.memories[m].heapAllocated;
        && w'.memories ==
          if 1 < count then w.memories[m := Memory(data, count - 1, heap)]
          else if heap then map k | k in w.memories && k != m :: w.memories[k]
          else w.memories[m := Memory([], 0, false)]
  {
    hide HandlesOn;
    if w.strings[str].Backed? {
      var m := w.strings[str].memory;
      assert CountRight(w, m);
      HandleCounts(w.strings, str, m);
      assert w.memories - {m} == map k | k in w.memories && k != m :: w.memories[k];
    }
  }

  /** A free variable takes the characters of the memory from `offset` on that are there, and counts for one. */
  lemma FromMemoryMeans(w: World, dst: nat, offset: nat, length: nat, m: MemoryId)
    requires dst < |w.strings| && m in w.memories
    ensures var w' := FromMemory(w, dst, offset, length, m); var memory := w.memories[m]; var size := |memory.data|;
      if offset >= size || (w.strings[dst].Backed? && w.strings[dst].memory != m) then w' == w
      else
        && w'.memories == w.memories[m := Memory(memory.data, memory.referenceCount + 1, memory.heapAllocated)]
        && w'.strings == w.strings[dst := w'.strings[dst]]
        && w'.strings[dst].Backed? && w'.strings[dst].memory == m && w'.strings[dst].offset == offset
        && w'.strings[dst].len ==
          if length == 0xFFFF_FFFF_FFFF_FFFE || offset + length > size then size - offset else length
  {
  }

  /** A copy of a constant is a constant, and nothing is counted. */
  lemma CopyConstantMeans(w: World, dst: nat, offset: nat, length: nat, text: Text)
    requires dst < |w.strings|
    ensures var w' := CopySection(w, dst, offset, length, Literal(text));
      && w'.memories == w.memories
      && (offset >= |text| ==> w' == w)
      && (offset < |text| ==>
            w'.strings == w.strings[dst := Literal(
              if length == 0xFFFF_FFFF_FFFF_FFFE || offset + length > |text| then text[offset..]
              else text[offset..offset + length])])
  {
    if offset < |text| && offset + length > |text| { assert text[offset..|text|] == text[offset..]; }
    if offset < |text| { assert text[offset..offset + (|text| - offset)] == text[offset..]; }
  }

  // ---- runs ----

  datatype Op =
    | FreeOp(str: nat)
    | FromMemoryOp(dst: nat, offset: nat, length: nat, m: MemoryId)
    | CopySectionOp(dst: nat, offset: nat, length: nat, src: nat)
    | CloneOp(dst: nat, src: nat, m: MemoryId)
    | AppendOp(dst: nat, src: nat, m: MemoryId)
    | AppendCharOp(dst: nat, c: char, m: MemoryId)
    | MoveOp(dst: nat, src: nat, m: MemoryId)

  predicate Names(w: World, str: nat) {
    str < |w.strings|
  }

  /** What each operation asks of its caller; `m` is the address the allocator comes up with. */
  predicate CanStep(w: World, op: Op)
    requires Conserved(w)
  {
    match op
    case FreeOp(str) => Names(w, str)
    case FromMemoryOp(dst, _, _, m) => Names(w, dst) && w.strings[dst].Literal? && m in w.memories
    case CopySectionOp(dst, _, _, src) => Names(w, dst) && Names(w, src) && w.strings[dst].Literal?
    case CloneOp(dst, src, m) =>
      Names(w, dst) && Names(w, src) && m !in w.memories && 0 < LengthOf(w.strings[src]) < FULL_LENGTH
    case AppendOp(dst, src, m) =>
      Names(w, dst) && Names(w, src) && m !in w.memories && 0 < |Appended(w, dst, w.strings[src])| < FULL_LENGTH
    case AppendCharOp(dst, c, m) => Names(w, dst) && m !in w.memories && LengthOf(w.strings[dst]) + 1 < FULL_LENGTH
    case MoveOp(dst, src, m) =>
      && Names(w, dst) && Names(w, src) && Movable(w, dst, src)
      && m !in Unbind(w, dst).memories && 0 < LengthOf(w.strings[src]) < FULL_LENGTH
  }

  function Step(w: World, op: Op): World
    requires Conserved(w) && CanStep(w, op)
  {
    match op
    case FreeOp(str) => Unbind(w, str)
    case FromMemoryOp(dst, offset, length, m) => FromMemory(w, dst, offset, length, m)
    case CopySectionOp(dst, offset, length, src) => CopySection(w, dst, offset, length, w.strings[src])
    case CloneOp(dst, src, m) => Clone(w, dst, w.strings[src], m)
    case AppendOp(dst, src, m) => Adopt(w, dst, Appended(w, dst, w.strings[src]), m)
    case AppendCharOp(dst, c, m) => Adopt(w, dst, TextOf(w.memories, w.strings[dst]) + [c], m)
    case MoveOp(dst, src, m) => Move(w, dst, src, m)
  }

  lemma StepConserves(w: World, op: Op)
    requires Conserved(w) && CanStep(w, op)
    ensures Conserved(Step(w, op))
    ensures NoOrphans(w) ==> NoOrphans(Step(w, op))
  {
    hide HandlesOn, Conserved, Adopt, Unbind, FromMemory, CopySection, NoOrphans;
    match op
    case FreeOp(str) => UnbindConserves(w, str);
    case FromMemoryOp(dst, offset, length, m) =>
      FromMemoryConservesIff(w, dst, offset, length, m);
      FromMemoryLeavesNoOrphan(w, dst, offset, length, m);
    case CopySectionOp(dst, offset, length, src) =>
      SoundAt(w, src);
      CopySectionConservesIff(w, dst, offset, length, w.strings[src]);
      CopySectionLeavesNoOrphan(w, dst, offset, length, w.strings[src]);
    case CloneOp(dst, src, m) =>
      SoundAt(w, src);
      AdoptMeans(w, dst, TextOf(w.memories, w.strings[src]), m);
    case AppendOp(dst, src, m) =>
      SoundAt(w, src);
      AdoptMeans(w, dst, Appended(w, dst, w.strings[src]), m);
    case AppendCharOp(dst, c, m) =>
      SoundAt(w, dst);
      AdoptMeans(w, dst, TextOf(w.memories, w.strings[dst]) + [c], m);
    case MoveOp(dst, src, m) => MoveMeans(w, dst, src, m);
  }

  lemma FromMemoryLeavesNoOrphan(w: World, dst: nat, offset: nat, length: nat, m: MemoryId)
    requires dst < |w.strings| && m in w.memories
    ensures NoOrphans(w) ==> NoOrphans(FromMemory(w, dst, offset, length, m))
  {
  }

  lemma CopySectionLeavesNoOrphan(w: World, dst: nat, offset: nat, length: nat, src: AvString)
    requires dst < |w.strings| && SoundString(w.memories, src)
    ensures NoOrphans(w) ==> NoOrphans(CopySection(w, dst, offset, length, src))
  {
  }

  /** The variables an operation is meant to change. */
  function Touched(op: Op): (changed: set<nat>)
    ensures op.FreeOp? ==> changed == {op.str}
    ensures !op.FreeOp? && !op.MoveOp? ==> changed == {op.dst}
    ensures op.MoveOp? ==> changed == {op.dst, op.src}
  {
    match op
    case FreeOp(str) => {str}
    case FromMemoryOp(dst, _, _, _) => {dst}
    case CopySectionOp(dst, _, _, _) => {dst}
    case CloneOp(dst, _, _) => {dst}
    case AppendOp(dst, _, _) => {dst}
    case AppendCharOp(dst, _, _) => {dst}
    case MoveOp(dst, src, _) => {dst, src}
  }

  /** No operation changes what any other variable reads as, although memories are shared. */
  lemma StepKeepsTexts(w: World, op: Op, i: nat)
    requires Conserved(w) && CanStep(w, op) && i < |w.strings| && i !in Touched(op)
    ensures ReadsAs(w, Step(w, op), i)
  {
    hide HandlesOn, Conserved, Adopt, Unbind, FromMemory, CopySection, ReadsAs;
    SoundAt(w, i);
    match op
    case FreeOp(str) =>
      UnbindKeepsTexts(w, str, i);
    case FromMemoryOp(dst, offset, length, m) => FromMemoryKeepsTexts(w, dst, offset, length, m, i);
    case CopySectionOp(dst, offset, length, src) =>
      SoundAt(w, src);
      CopySectionKeepsTexts(w, dst, offset, length, w.strings[src], i);
    case CloneOp(dst, src, m) =>
      SoundAt(w, src);
      CloneKeepsTexts(w, dst, w.strings[src], m, i);
    case AppendOp(dst, src, m) =>
      SoundAt(w, src);
      AdoptKeepsTexts(w, dst, Appended(w, dst, w.strings[src]), m, i);
    case AppendCharOp(dst, c, m) =>
      SoundAt(w, dst);
      AdoptKeepsTexts(w, dst, TextOf(w.memories, w.strings[dst]) + [c], m, i);
    case MoveOp(dst, src, m) => MoveKeepsTexts(w, dst, src, m, i);
  }

  lemma FromMemoryKeepsTexts(w: World, dst: nat, offset: nat, length: nat, m: MemoryId, i: nat)
    requires dst < |w.strings| && i < |w.strings| && i != dst && m in w.memories
    requires SoundString(w.memories, w.strings[i])
    ensures ReadsAs(w, FromMemory(w, dst, offset, length, m), i)
  {
  }

  lemma CloneKeepsTexts(w: World, dst: nat, src: AvString, m: MemoryId, i: nat)
    requires Conserved(w) && dst < |w.strings| && i < |w.strings| && i != dst && m !in w.memories
    requires SoundString(w.memories, src) && 0 < LengthOf(src) < FULL_LENGTH
    ensures ReadsAs(w, Clone(w, dst, src, m), i)
  {
    hide HandlesOn, Conserved, Adopt;
    AdoptKeepsTexts(w, dst, TextOf(w.memories, src), m, i);
  }

  lemma MoveKeepsTexts(w: World, dst: nat, src: nat, m: MemoryId, i: nat)
    requires Conserved(w) && dst < |w.strings| && src < |w.strings| && Movable(w, dst, src)
    requires m !in Unbind(w, dst).memories && 0 < LengthOf(w.strings[src]) < FULL_LENGTH
    requires i < |w.strings| && i != dst && i != src
    ensures ReadsAs(w, Move(w, dst, src, m), i)
  {
    hide HandlesOn, Conserved, Adopt, Unbind;
    SoundAt(w, src);
    SoundAt(w, i);
    SourceStays(w, dst, src);
    UnbindKeepsTexts(w, dst, i);
    var free := Unbind(w, dst);
    var text := TextOf(free.memories, w.strings[src]);
    AdoptMeans(free, dst, text, m);
    AdoptKeepsTexts(free, dst, text, m, i);
    var cloned := Clone(free, dst, w.strings[src], m);
    UnbindKeepsTexts(cloned, src, i);
    UnbindConserves(cloned, src);
    SoundAt(Unbind(cloned, src), i);
  }

  predicate CanRun(w: World, ops: seq<Op>)
    requires Conserved(w)
    decreases |ops|
  {
    ops == [] || (CanStep(w, ops[0]) && (StepConserves(w, ops[0]); CanRun(Step(w, ops[0]), ops[1..])))
  }

  function Run(w: World, ops: seq<Op>): World
    requires Conserved(w) && CanRun(w, ops)
    decreases |ops|
  {
    if ops == [] then w
    else
      StepConserves(w, ops[0]);
      Run(Step(w, ops[0]), ops[1..])
  }

  /** Over any run the counts stay right, and once every variable is let go no memory is left on the heap. */
  lemma {:induction false} RunLeaksNothing(w: World, ops: seq<Op>)
    requires Conserved(w) && NoOrphans(w) && CanRun(w, ops)
    ensures Conserved(Run(w, ops)) && NoOrphans(Run(w, ops))
    ensures (forall i | 0 <= i < |Run(w, ops).strings| :: Run(w, ops).strings[i].Literal?) ==>
      forall m | m in Run(w, ops).memories :: !Run(w, ops).memories[m].heapAllocated
    decreases |ops|
  {
    hide HandlesOn, Conserved, NoOrphans, Step, CanStep;
    if ops == [] {
      LetGo(w);
    } else {
      StepConserves(w, ops[0]);
      RunLeaksNothing(Step(w, ops[0]), ops[1..]);
    }
  }

  lemma LetGo(w: World)
    requires Conserved(w) && NoOrphans(w)
    ensures (forall i | 0 <= i < |w.strings| :: w.strings[i].Literal?) ==>
      forall m | m in w.memories :: !w.memories[m].heapAllocated
  {
    hide HandlesOn;
    forall m | m in w.memories && (forall i | 0 <= i < |w.strings| :: w.strings[i].Literal?)
      ensures !w.memories[m].heapAllocated
    {
      SomeHandle(w.strings, m);
      assert CountRight(w, m);
    }
  }
}
