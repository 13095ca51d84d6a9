/**
 The operations on string variables and their memories, updating both in place. Each one is proved
 to take the step of the same name between worlds, and none of their assertions about counts can fail.
 */
module StringHeap {
  import Addresses
  import opened Common
  import opened StringMemory
  import opened StringSearch
  import Split = StringSplit

  class StringHeap {
    var strings: seq<AvString>
    var memories: Memories

    ghost function State(): World
      reads this
    {
      World(strings, memories)
    }

    constructor (count: nat)
      ensures Conserved(State()) && NoOrphans(State())
      ensures |strings| == count && memories == map[] && forall s | s in strings :: s == EMPTY
    {
      strings := seq(count, _ => EMPTY);
      memories := map[];
    }

    method HeapAllocate(capacity: nat) returns (m: MemoryId)
      requires capacity != 0
      modifies `memories
      ensures m !in old(memories) && memories == old(memories)[m := Memory(Zeros(capacity), 0, true)]
    {
      m := Addresses.FreshAddress(memories);
      memories := memories[m := Memory(Zeros(capacity), 0, true)];
    }

    method Store(str: AvString, offset: nat, length: nat, m: MemoryId)
      requires m in memories && memories[m].data != [] && SoundString(memories, str)
      requires str.Backed? && str.memory == m ==>
        Separate(str.offset, offset, Split.Room(|memories[m].data|, str.len, offset, length))
      modifies `memories
      ensures memories == old(memories)[m :=
        old(memories[m]).(data := Split.Stored(old(memories[m].data), old(TextOf(memories, str)), offset, length))]
    {
      var memory := memories[m];
      if offset >= |memory.data| { return; }
      if LengthOf(str) == 0 { return; }
      var n := if length == FULL_LENGTH then LengthOf(str) else length;
      n := Min(|memory.data|, n + offset) - offset;
      n := Min(n, LengthOf(str));
      var data := memory.data[..offset] + TextOf(memories, str)[..n] + memory.data[offset + n..];
      memories := memories[m := memory.(data := data)];
    }

    method FreeMemory(m: MemoryId)
      requires m in memories && memories[m].referenceCount == 0
      modifies `memories
      ensures memories == if old(memories[m].data) == [] then old(memories) else Release(old(memories), m)
    {
      if memories[m].data == [] { return; }
      if memories[m].heapAllocated {
        memories := memories - {m};
      } else {
        memories := memories[m := Memory([], 0, false)];
      }
    }

    method RemoveReference(m: MemoryId)
      requires m in memories && 0 < memories[m].referenceCount && memories[m].data != []
      modifies `memories
      ensures memories == LoseReference(old(memories), m)
    {
      var memory := memories[m];
      memories := memories[m := memory.(referenceCount := memory.referenceCount - 1)];
      if memories[m].referenceCount == 0 {
        FreeMemory(m);
      }
    }

    method Free(str: nat)
      requires Conserved(State()) && str < |strings|
      modifies this
      ensures State() == Unbind(old(State()), str)
    {
      hide HandlesOn;
      if strings[str].Literal? { return; }
      var m := strings[str].memory;
      HandleCounts(strings, str, m);
      assert CountRight(State(), m);
      assert 0 < memories[m].referenceCount;
      RemoveReference(m);
      strings := strings[str := EMPTY];
    }

    method FromMemory(dst: nat, offset: nat, length: nat, m: MemoryId)
      requires dst < |strings| && m in memories
      modifies this
      ensures State() == StringMemory.FromMemory(old(State()), dst, offset, length, m)
    {
      var memory := memories[m];
      if strings[dst].Backed? && strings[dst].memory != m { return; }
      if offset >= |memory.data| { return; }
      var n := if length == FULL_LENGTH then |memory.data| else length;
      n := Min(|memory.data|, n + offset) - offset;
      memories := memories[m := memory.(referenceCount := memory.referenceCount + 1)];
      strings := strings[dst := Backed(m, offset, n)];
    }

    method CopySection(dst: nat, offset: nat, length: nat, src: AvString)
      requires dst < |strings| && SoundString(memories, src)
      modifies this
      ensures State() == StringMemory.CopySection(old(State()), dst, offset, length, src)
    {
      hide StringMemory.FromMemory;
      if offset >= LengthOf(src) { return; }
      var n := if length == FULL_LENGTH then LengthOf(src) else length;
      n := Min(LengthOf(src), n + offset) - offset;
      if src.Backed? {
        FromMemory(dst, src.offset + offset, n, src.memory);
        return;
      }
      strings := strings[dst := Literal(src.text[offset..offset + n])];
    }

    /** The variable lets its old memory go and takes the new one over. */
    method Rebind(dst: nat, m: MemoryId, ghost before: World, ghost text: Text)
      requires Conserved(before) && dst < |strings| && m !in before.memories && |text| < FULL_LENGTH
      requires State() == World(before.strings, before.memories[m := Memory(text, 0, true)])
      modifies this
      ensures State() == Adopt(before, dst, text, m)
    {
      hide HandlesOn, Conserved, StringMemory.FromMemory, Unbind;
      AllocateConserves(before, text, m);
      NewMemoryStays(before, dst, text, m);
      Free(dst);
      FromMemory(dst, 0, FULL_LENGTH, m);
    }

    method Clone(dst: nat, src: AvString) returns (m: MemoryId)
      requires Conserved(State()) && dst < |strings| && SoundString(memories, src) && 0 < LengthOf(src) < FULL_LENGTH
      modifies this
      ensures m !in old(memories) && State() == StringMemory.Clone(old(State()), dst, src, m)
      ensures Shows(State(), dst, old(TextOf(memories, src)))
    {
      hide HandlesOn, Conserved, Unbind, Split.Stored, Adopt;
      ghost var text := TextOf(memories, src);
      m := HeapAllocate(LengthOf(src));
      Store(src, 0, FULL_LENGTH, m);
      StoredAll(text);
      assert memories == old(memories)[m := Memory(text, 0, true)];
      Rebind(dst, m, old(State()), text);
      AdoptedSound(old(State()), dst, text, m);
    }

    method Append(dst: nat, src: AvString) returns (m: MemoryId)
      requires Conserved(State()) && dst < |strings| && SoundString(memories, src)
      requires 0 < LengthOf(src) + LengthOf(strings[dst]) < FULL_LENGTH
      modifies this
      ensures m !in old(memories) && State() == Adopt(old(State()), dst, Appended(old(State()), dst, src), m)
      ensures SoundString(old(memories), old(strings[dst]))
      ensures Shows(State(), dst, TextOf(old(memories), old(strings[dst])) + old(TextOf(memories, src)))
    {
      hide HandlesOn, Conserved, Unbind, Split.Stored, Adopt;
      SoundAt(State(), dst);
      ghost var head, tail := TextOf(memories, strings[dst]), TextOf(memories, src);
      m := HeapAllocate(LengthOf(strings[dst]) + LengthOf(src));
      Store(strings[dst], 0, LengthOf(strings[dst]), m);
      Store(src, LengthOf(strings[dst]), LengthOf(src), m);
      StoredTwice(head, tail);
      assert memories == old(memories)[m := Memory(head + tail, 0, true)];
      Rebind(dst, m, old(State()), head + tail);
      AdoptedSound(old(State()), dst, head + tail, m);
    }

    method AppendChar(str: nat, c: char) returns (m: MemoryId)
      requires Conserved(State()) && str < |strings| && LengthOf(strings[str]) + 1 < FULL_LENGTH
      modifies this
      ensures SoundString(old(memories), old(strings[str])) && m !in old(memories)
      ensures State() == Adopt(old(State()), str, TextOf(old(memories), old(strings[str])) + [c], m)
      ensures Shows(State(), str, TextOf(old(memories), old(strings[str])) + [c])
    {
      hide HandlesOn, Conserved, Unbind, Split.Stored, Adopt;
      SoundAt(State(), str);
      ghost var text := TextOf(memories, strings[str]);
      m := HeapAllocate(LengthOf(strings[str]) + 1);
      Store(strings[str], 0, LengthOf(strings[str]), m);
      var memory := memories[m];
      memories := memories[m := memory.(data := memory.data[LengthOf(strings[str]) := c])];
      StoredBefore(text, c);
      assert memories == old(memories)[m := Memory(text + [c], 0, true)];
      Rebind(str, m, old(State()), text + [c]);
      AdoptedSound(old(State()), str, text + [c], m);
    }

    method Move(dst: nat, src: nat) returns (m: MemoryId)
      requires Conserved(State()) && dst < |strings| && src < |strings| && Movable(State(), dst, src)
      requires 0 < LengthOf(strings[src]) < FULL_LENGTH
      modifies this
      ensures m !in Unbind(old(State()), dst).memories && State() == StringMemory.Move(old(State()), dst, src, m)
    {
      hide HandlesOn, Conserved, Unbind, Adopt;
      SoundAt(State(), src);
      SourceStays(State(), dst, src);
      SoundAt(Unbind(State(), dst), src);
      if strings[dst].Literal? {
        LiteralStays(State(), dst);
        m := Clone(dst, strings[src]);
      } else {
        Free(dst);
        m := Clone(dst, strings[src]);
      }
      ghost var free := Unbind(old(State()), dst);
      AdoptMeans(free, dst, TextOf(free.memories, free.strings[src]), m);
      Free(src);
    }

    /**
     The last step of avStringReplace. Where something was counted, the memory that was filled is bound
     to the destination without letting go of what that was backed by.
     */
    method Replace(dst: nat, src: AvString, sequence: Text, replacement: Text) returns (count: nat, m: MemoryId)
      requires Conserved(State()) && dst < |strings| && SoundString(memories, src)
      requires sequence != [] && 0 < LengthOf(src) < FULL_LENGTH && |replacement| < FULL_LENGTH
      requires 0 < |Split.Replaced(TextOf(memories, src), sequence, replacement)| < FULL_LENGTH
      modifies this
      ensures count == CountOf(old(TextOf(memories, src)), sequence) && m !in old(memories)
      ensures State() == ReplacedInto(old(State()), dst, src, sequence, replacement, m)
    {
      hide HandlesOn, Conserved, Unbind, Split.Replaced, Adopt, StringMemory.FromMemory, CountOf;
      var data;
      count, data := Split.Replace(TextOf(memories, src), sequence, replacement);
      if count == 0 {
        m := Clone(dst, src);
        return;
      }
      m := Addresses.FreshAddress(memories);
      memories := memories[m := Memory(data[..], 0, true)];
      FromMemory(dst, 0, FULL_LENGTH, m);
    }
  }

  lemma LiteralStays(w: World, str: nat)
    requires Conserved(w) && str < |w.strings| && w.strings[str].Literal?
    ensures Unbind(w, str) == w
  {
  }

  /** The world after a replacement: the source is cloned if nothing was counted. */
  function ReplacedInto(w: World, dst: nat, src: AvString, sequence: Text, replacement: Text, m: MemoryId): World
    requires Conserved(w) && dst < |w.strings| && SoundString(w.memories, src) && m !in w.memories
    requires sequence != [] && LengthOf(src) < FULL_LENGTH
  {
    var text := TextOf(w.memories, src);
    if CountOf(text, sequence) == 0 then StringMemory.Clone(w, dst, src, m)
    else
      var filled := w.memories[m := Memory(Split.Replaced(text, sequence, replacement), 0, true)];
      StringMemory.FromMemory(World(w.strings, filled), dst, 0, FULL_LENGTH, m)
  }

  /**
   The destination takes over the result, and no memory is left without a variable, exactly if it
   was not backed or nothing was counted. Otherwise it stays as it was. The counts are right anyway.
   */
  lemma ReplaceBindsIff(w: World, dst: nat, src: AvString, sequence: Text, replacement: Text, m: MemoryId)
    requires Conserved(w) && NoOrphans(w) && dst < |w.strings| && SoundString(w.memories, src) && m !in w.memories
    requires sequence != [] && 0 < LengthOf(src) < FULL_LENGTH
    requires 0 < |Split.Replaced(TextOf(w.memories, src), sequence, replacement)| < FULL_LENGTH
    ensures var w' := ReplacedInto(w, dst, src, sequence, replacement, m);
      var result := Split.Replaced(TextOf(w.memories, src), sequence, replacement);
      var free := w.strings[dst].Literal? || CountOf(TextOf(w.memories, src), sequence) == 0;
      && Conserved(w')
      && (NoOrphans(w') <==> free)
      && (w'.strings[dst] == Backed(m, 0, |result|) <==> free)
      && (free ==> TextOf(w'.memories, w'.strings[dst]) == result)
      && (!free ==> w'.strings == w.strings)
  {
    hide HandlesOn, Conserved, Split.Replaced, Adopt, CountOf;
    var text := TextOf(w.memories, src);
    if CountOf(text, sequence) == 0 {
      Split.NothingReplaced(text, sequence, replacement);
      AdoptMeans(w, dst, text, m);
      AdoptedNew(w, dst, m);
    } else {
      ReplacedBinds(w, dst, Split.Replaced(text, sequence, replacement), m);
    }
  }

  /** No variable is backed by a memory that is not there. */
  lemma AdoptedNew(w: World, dst: nat, m: MemoryId)
    requires Conserved(w) && dst < |w.strings| && m !in w.memories
    ensures w.strings[dst].Backed? ==> w.strings[dst].memory != m
  {
    SoundAt(w, dst);
  }

  lemma ReplacedBinds(w: World, dst: nat, text: Text, m: MemoryId)
    requires Conserved(w) && NoOrphans(w) && dst < |w.strings| && m !in w.memories && 0 < |text| < FULL_LENGTH
    ensures var w' := StringMemory.FromMemory(
        World(w.strings, w.memories[m := Memory(text, 0, true)]), dst, 0, FULL_LENGTH, m);
      && Conserved(w')
      && (NoOrphans(w') <==> w.strings[dst].Literal?)
      && (w.strings[dst].Literal? ==>
            w'.strings[dst] == Backed(m, 0, |text|) && TextOf(w'.memories, w'.strings[dst]) == text)
      && (w.strings[dst].Backed? ==> w'.strings == w.strings && w.strings[dst].memory != m)
  {
    hide HandlesOn, Conserved, Bind;
    var filled := World(w.strings, w.memories[m := Memory(text, 0, true)]);
    AllocateConserves(w, text, m);
    AdoptedNew(w, dst, m);
    FromMemoryConservesIff(filled, dst, 0, FULL_LENGTH, m);
    if w.strings[dst].Literal? {
      FromMemoryReads(filled, dst, 0, FULL_LENGTH, m);
      BoundAlone(filled, dst, m);
      assert text[0..] == text;
    } else {
      assert filled.memories[m].referenceCount == 0;
    }
  }

  /** A string whose replacement is to go where it came from: it stays as it was, and the result is lost. */
  lemma ReplaceLeaks()
    ensures var w := World([Backed(0, 0, 2)], map[0 := Memory("ab", 1, true)]);
      && Conserved(w) && NoOrphans(w)
      && var w' := ReplacedInto(w, 0, Backed(0, 0, 2), "a", "c", 1);
      w'.strings == w.strings && !NoOrphans(w')
  {
    var w := World([Backed(0, 0, 2)], map[0 := Memory("ab", 1, true)]);
    BackedOnce();
    CountHere();
    ReplaceBindsIff(w, 0, Backed(0, 0, 2), "a", "c", 1);
  }

  lemma CountHere()
    ensures CountOf("ab", "a") == 1 && 0 < |Split.Replaced("ab", "a", "c")| < FULL_LENGTH
  {
    hide Split.Replaced;
    Split.ReplacedLength("ab", "a", "c");
  }

  function Zeros(n: nat): (s: Text)
    ensures |s| == n && forall k | 0 <= k < n :: s[k] == '\0'
  {
    seq(n, _ => '\0')
  }

  lemma StoredAll(text: Text)
    ensures Split.Stored(Zeros(|text|), text, 0, FULL_LENGTH) == text
  {
  }

  lemma StoredTwice(head: Text, tail: Text)
    requires |head| + |tail| < FULL_LENGTH
    ensures var once := Split.Stored(Zeros(|head| + |tail|), head, 0, |head|);
      Split.Stored(once, tail, |head|, |tail|) == head + tail
  {
    hide Split.Stored;
    var blank := Zeros(|head| + |tail|);
    var once := Split.Stored(blank, head, 0, |head|);
    Split.StoredFits(blank, head, 0, |head|);
    assert once[..|head|] == head;
    Split.StoredFits(once, tail, |head|, |tail|);
    assert tail[..|tail|] == tail && once[|head| + |tail|..] == "";
  }

  lemma StoredBefore(text: Text, c: char)
    requires |text| + 1 < FULL_LENGTH
    ensures Split.Stored(Zeros(|text| + 1), text, 0, |text|)[|text| := c] == text + [c]
  {
  }
}
