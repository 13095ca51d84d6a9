/**
 The registry of live string memories that a string debug context keeps: a sparse set over two
 inverse permutations, from which a memory is removed by swapping it with the last one.
 */
module DebugRegistry {
  import opened Common

  const STRING_DEBUG_INITIAL_CAPACITY: nat := 1

  // ---- permutations that undo one another ----

  ghost predicate Inverse(a: seq<nat>, b: seq<nat>) {
    && |a| == |b|
    && (forall i | 0 <= i < |b| :: b[i] < |a| && a[b[i]] == i)
    && (forall i | 0 <= i < |a| :: a[i] < |b| && b[a[i]] == i)
  }

  lemma InverseAt(a: seq<nat>, b: seq<nat>, i: nat)
    requires Inverse(a, b) && i < |b|
    ensures b[i] < |a| && a[b[i]] == i
  {
  }

  lemma NamedBack(a: seq<nat>, b: seq<nat>, i: nat)
    requires Inverse(a, b) && i < |a|
    ensures a[i] < |b| && b[a[i]] == i
  {
  }

  /** Exchanging two places of one permutation and of the places they name in the other. */
  lemma SwapKeepsInverse(a: seq<nat>, b: seq<nat>, i: nat, j: nat)
    requires Inverse(a, b) && i < |b| && j < |b| && i != j
    ensures Inverse(a[b[j] := i][b[i] := j], b[j := b[i]][i := b[j]])
  {
  }

  // ---- the memories ----

  class MemoryRecord {
    var heapAllocated: bool
    var contextAllocationIndex: nat
    var debugContext: DebugContext?

    constructor (heapAllocated: bool)
      ensures this.heapAllocated == heapAllocated && debugContext == null
    {
      this.heapAllocated := heapAllocated;
      contextAllocationIndex := 0;
      debugContext := null;
    }
  }

  /** The first `count` slots are taken, the others are free. */
  ghost predicate Packed(memories: seq<MemoryRecord?>, count: nat) {
    && count <= |memories|
    && (forall i | 0 <= i < count :: memories[i] != null)
    && (forall i | count <= i < |memories| :: memories[i] == null)
  }

  ghost function Taken(memories: seq<MemoryRecord?>, count: nat): set<MemoryRecord?>
    requires count <= |memories|
  {
    set ref | ref in memories[..count]
  }

  lemma TakenAt(memories: seq<MemoryRecord?>, count: nat, i: nat)
    requires i < count <= |memories|
    ensures memories[i] in Taken(memories, count)
  {
  }

  lemma TakenSlot(memories: seq<MemoryRecord?>, count: nat, ref: MemoryRecord?) returns (i: nat)
    requires count <= |memories| && ref in Taken(memories, count)
    ensures i < count && memories[i] == ref
  {
    i :| i < count && memories[..count][i] == ref;
  }

  /** A memory is added behind the others. */
  lemma PutTakes(memories: seq<MemoryRecord?>, count: nat, ref: MemoryRecord)
    requires Packed(memories, count) && count < |memories|
    ensures Packed(memories[count := ref], count + 1)
    ensures Taken(memories[count := ref], count + 1) == Taken(memories, count) + {ref}
  {
    assert memories[count := ref][..count + 1] == memories[..count] + [ref];
  }

  ghost function SwapRemoved(memories: seq<MemoryRecord?>, count: nat, index: nat): seq<MemoryRecord?>
    requires index < count <= |memories|
  {
    memories[count - 1 := null][index := if index == count - 1 then null else memories[count - 1]]
  }

  ghost predicate AllDistinct(memories: seq<MemoryRecord?>, count: nat)
    requires count <= |memories|
  {
    forall i, j | 0 <= i < j < count :: memories[i] != memories[j]
  }

  /** Removing one memory by moving the last one into its slot takes nothing else away. */
  lemma SwapRemoveTakesOne(memories: seq<MemoryRecord?>, count: nat, index: nat)
    requires Packed(memories, count) && index < count && AllDistinct(memories, count)
    ensures Packed(SwapRemoved(memories, count, index), count - 1)
    ensures Taken(SwapRemoved(memories, count, index), count - 1) == Taken(memories, count) - {memories[index]}
  {
    var after := SwapRemoved(memories, count, index);
    forall ref ensures ref in Taken(after, count - 1) <==> ref in Taken(memories, count) - {memories[index]} {
      if ref in Taken(after, count - 1) {
        var i := TakenSlot(after, count - 1, ref);
        TakenAt(memories, count, if i == index then count - 1 else i);
      }
      if ref in Taken(memories, count) && ref != memories[index] {
        var i := TakenSlot(memories, count, ref);
        TakenAt(after, count - 1, if i == count - 1 then index else i);
      }
    }
  }

  // ---- the context ----

  /** Every taken slot's memory knows its id in this context. */
  ghost predicate Tagged(context: DebugContext, memories: seq<MemoryRecord?>, reference: seq<nat>, count: nat)
    requires count <= |memories| && count <= |reference|
    reads memories
  {
    forall i | 0 <= i < count && memories[i] != null ::
      memories[i].contextAllocationIndex == reference[i] && memories[i].debugContext == context
  }

  lemma TagsTellApart(context: DebugContext, index: seq<nat>, reference: seq<nat>, memories: seq<MemoryRecord?>,
                      count: nat)
    requires Inverse(index, reference) && |memories| == |reference| && Packed(memories, count)
    requires Tagged(context, memories, reference, count)
    ensures AllDistinct(memories, count)
  {
  }

  method Reallocate<T(0)>(a: array<T>, capacity: nat) returns (b: array<T>)
    requires a.Length <= capacity
    ensures fresh(b) && b.Length == capacity && b[..a.Length] == a[..]
  {
    b := new T[capacity];
    for i := 0 to a.Length
      invariant b[..i] == a[..i]
    {
      b[i] := a[i];
    }
  }

  /** The slots from `first` on are given fresh ids and no memory. */
  method FillNew(index: array<nat>, reference: array<nat>, memories: array<MemoryRecord?>, first: nat)
    requires index != reference && first <= index.Length == reference.Length == memories.Length
    modifies index, reference, memories
    ensures index[..first] == old(index[..first]) && reference[..first] == old(reference[..first])
    ensures memories[..first] == old(memories[..first])
    ensures forall k | first <= k < index.Length :: index[k] == k && reference[k] == k && memories[k] == null
  {
    for i := first to index.Length
      invariant forall k | 0 <= k < first :: index[k] == old(index[k])
      invariant forall k | 0 <= k < first :: reference[k] == old(reference[k])
      invariant forall k | 0 <= k < first :: memories[k] == old(memories[k])
      invariant forall k | first <= k < i :: index[k] == k
      invariant forall k | first <= k < i :: reference[k] == k
      invariant forall k | first <= k < i :: memories[k] == null
    {
      index[i] := i;
      reference[i] := i;
      memories[i] := null;
    }
  }

  class DebugContext {
    const prev: DebugContext?
    var memoryIndex: array<nat>
    var memoryReference: array<nat>
    var memories: array<MemoryRecord?>
    var allocationCount: nat
    var allocationCapacity: nat

    ghost predicate Shaped()
      reads this
    {
      && memoryIndex != memoryReference
      && memoryIndex.Length == memoryReference.Length == memories.Length == allocationCapacity
      && allocationCount <= allocationCapacity <= UINT32_MAX
      && 0 < allocationCapacity
    }

    ghost predicate Valid()
      reads this, memoryIndex, memoryReference, memories, memories[..]
    {
      && Shaped()
      && Inverse(memoryIndex[..], memoryReference[..])
      && Packed(memories[..], allocationCount)
      && Tagged(this, memories[..], memoryReference[..], allocationCount)
    }

    /** The memories that were added and not removed since. */
    ghost function Live(): set<MemoryRecord?>
      requires Shaped()
      reads this, memories
    {
      Taken(memories[..], allocationCount)
    }

    /** A memory not recorded yet, and a capacity that can still be doubled if it is used up. */
    ghost predicate HasRoomFor(ref: MemoryRecord)
      reads this, memoryIndex, memoryReference, memories, memories[..]
    {
      && Valid()
      && ref !in Live()
      && (allocationCount < allocationCapacity || 2 * allocationCapacity <= UINT32_MAX)
    }

    constructor (prev: DebugContext?)
      ensures Valid() && this.prev == prev && Live() == {} && allocationCapacity == 1
      ensures fresh(memoryIndex) && fresh(memoryReference) && fresh(memories)
    {
      this.prev := prev;
      allocationCount := 0;
      allocationCapacity := STRING_DEBUG_INITIAL_CAPACITY;
      memories := new MemoryRecord?[STRING_DEBUG_INITIAL_CAPACITY](_ => null);
      memoryIndex := new nat[STRING_DEBUG_INITIAL_CAPACITY](i => i);
      memoryReference := new nat[STRING_DEBUG_INITIAL_CAPACITY](i => i);
    }

    method Grow()
      requires Valid() && 2 * allocationCapacity <= UINT32_MAX
      modifies this
      ensures Valid() && allocationCapacity == 2 * old(allocationCapacity)
      ensures allocationCount == old(allocationCount) && Live() == old(Live())
      ensures fresh(memoryIndex) && fresh(memoryReference) && fresh(memories)
    {
      hide Inverse, Tagged, Packed, Taken;
      var oldCapacity := allocationCapacity;
      allocationCapacity := allocationCapacity * 2;
      memoryIndex := Reallocate(memoryIndex, allocationCapacity);
      memoryReference := Reallocate(memoryReference, allocationCapacity);
      memories := Reallocate(memories, allocationCapacity);
      FillNew(memoryIndex, memoryReference, memories, oldCapacity);
      Grown(this, old(memoryIndex[..]), old(memoryReference[..]), old(memories[..]),
        memoryIndex[..], memoryReference[..], memories[..], allocationCount);
    }

    /** Records a memory; none of the checks for corruption can fail. */
    method Add(ref: MemoryRecord) returns (corrupt: bool)
      requires HasRoomFor(ref)
      modifies this, memories, ref`contextAllocationIndex, ref`debugContext
      ensures Valid() && !corrupt
      ensures Live() == old(Live()) + {ref} && allocationCount == old(allocationCount) + 1
      ensures allocationCapacity ==
        if old(allocationCount) < old(allocationCapacity) then old(allocationCapacity) else 2 * old(allocationCapacity)
      ensures ref.debugContext == this
      ensures memoryIndex == old(memoryIndex) || fresh(memoryIndex)
      ensures memoryReference == old(memoryReference) || fresh(memoryReference)
      ensures memories == old(memories) || fresh(memories)
    {
      hide Inverse, Tagged, Packed, Taken;
      if allocationCount >= allocationCapacity {
        Grow();
      }
      Enter(ref);
      corrupt := Check();
    }

    method Enter(ref: MemoryRecord)
      requires Valid() && ref !in Live() && allocationCount < allocationCapacity
      modifies `allocationCount, memories, ref`contextAllocationIndex, ref`debugContext
      ensures Valid() && Live() == old(Live()) + {ref} && allocationCount == old(allocationCount) + 1
      ensures ref.debugContext == this
    {
      hide Inverse, Packed, Taken;
      NotTaken(memories[..], allocationCount, ref);
      PutTakes(memories[..], allocationCount, ref);
      ref.debugContext := this;
      var index := allocationCount;
      allocationCount := allocationCount + 1;
      ref.contextAllocationIndex := memoryReference[index];
      memories[index] := ref;
      assert memories[..] == old(memories[..])[index := ref];
    }

    /** The two loops that look for corruption after every addition. */
    method Check() returns (corrupt: bool)
      requires Valid()
      ensures !corrupt
    {
      hide Tagged;
      for i := 0 to allocationCount {
        if memories[i] == null {
          return true;
        }
      }
      for i := 0 to allocationCapacity {
        var id := memoryReference[i];
        assert memoryReference[..][i] == id;
        assert memoryIndex[..][id] == i;
        var index := memoryIndex[id];
        if index != i {
          return true;
        }
      }
      return false;
    }

    /** The checks fail exactly for a memory that is not recorded. */
    method Remove(ref: MemoryRecord) returns (corrupt: bool)
      requires Valid()
      modifies `allocationCount, memoryIndex, memoryReference, memories, ref`contextAllocationIndex
      ensures Valid()
      ensures corrupt <==> ref !in old(Live())
      ensures corrupt ==> Live() == old(Live()) && ref.contextAllocationIndex == old(ref.contextAllocationIndex)
      ensures !corrupt ==> Live() == old(Live()) - {ref} && ref.contextAllocationIndex == UINT32_MAX
      ensures !corrupt ==> allocationCount == old(allocationCount) - 1
    {
      hide Inverse, Tagged, Packed, Taken;
      if allocationCount == 0 {
        NothingTaken(memories[..]);
        return true;
      }
      var id := ref.contextAllocationIndex;
      FoundOnlyIfLive(this, memoryIndex[..], memoryReference[..], memories[..], allocationCount, ref);
      if id >= allocationCapacity {
        return true;
      }
      var index := memoryIndex[id];
      if index >= allocationCount {
        return true;
      }
      if memories[index] != ref {
        return true;
      }
      TagsTellApart(this, memoryIndex[..], memoryReference[..], memories[..], allocationCount);
      SwapRemoveTakesOne(memories[..], allocationCount, index);
      Leave(ref, id, index);
      return false;
    }

    /** The last slot's memory moves into the slot that falls free. */
    method Leave(ref: MemoryRecord, id: nat, index: nat)
      requires Valid() && id < allocationCapacity && memoryIndex[id] == index < allocationCount
      requires memories[index] == ref
      requires AllDistinct(memories[..], allocationCount)
      modifies `allocationCount, memoryIndex, memoryReference, memories, ref`contextAllocationIndex
      ensures Shaped() && allocationCount == old(allocationCount) - 1 && ref.contextAllocationIndex == UINT32_MAX
      ensures memories[..] == SwapRemoved(old(memories[..]), old(allocationCount), index)
      ensures Inverse(memoryIndex[..], memoryReference[..])
      ensures Tagged(this, memories[..], memoryReference[..], allocationCount)
    {
      hide Inverse;
      var lastIndex := allocationCount - 1;
      InverseAt(memoryIndex[..], memoryReference[..], memoryIndex[id]);
      InverseAt(memoryIndex[..], memoryReference[..], lastIndex);
      NamedBack(memoryIndex[..], memoryReference[..], id);
      ref.contextAllocationIndex := UINT32_MAX;
      var lastId := memoryReference[lastIndex];
      var lastRef := memories[lastIndex];
      if index == lastIndex {
        memories[index] := null;
        allocationCount := allocationCount - 1;
        assert memories[..] == SwapRemoved(old(memories[..]), old(allocationCount), index);
        return;
      }
      SwapKeepsInverse(memoryIndex[..], memoryReference[..], index, lastIndex);
      memoryReference[lastIndex] := id;
      memoryReference[index] := lastId;
      memoryIndex[lastId] := index;
      memoryIndex[id] := lastIndex;
      memories[lastIndex] := null;
      memories[index] := lastRef;
      allocationCount := allocationCount - 1;
      assert memoryReference[..] == old(memoryReference[..])[lastIndex := id][index := lastId];
      assert memoryIndex[..] == old(memoryIndex[..])[lastId := index][id := lastIndex];
      assert memories[..] == old(memories[..])[lastIndex := null][index := lastRef];
    }
  }

  lemma NothingTaken(memories: seq<MemoryRecord?>)
    ensures Taken(memories, 0) == {}
  {
  }

  /** Following a memory's id leads to that memory exactly when it is recorded. */
  lemma FoundOnlyIfLive(context: DebugContext, index: seq<nat>, reference: seq<nat>, memories: seq<MemoryRecord?>,
                        count: nat, ref: MemoryRecord)
    requires Inverse(index, reference) && |memories| == |reference| && Packed(memories, count)
    requires Tagged(context, memories, reference, count)
    ensures ref in Taken(memories, count) <==>
      (ref.contextAllocationIndex < |index| && index[ref.contextAllocationIndex] < count &&
       memories[index[ref.contextAllocationIndex]] == ref)
  {
  }

  lemma NotTaken(memories: seq<MemoryRecord?>, count: nat, ref: MemoryRecord)
    requires count <= |memories| && ref !in Taken(memories, count)
    ensures forall i | 0 <= i < count :: memories[i] != ref
  {
  }

  lemma Grown(context: DebugContext, a: seq<nat>, b: seq<nat>, m: seq<MemoryRecord?>,
              a': seq<nat>, b': seq<nat>, m': seq<MemoryRecord?>, count: nat)
    requires Inverse(a, b) && |a| == |m| && Packed(m, count) && Tagged(context, m, b, count)
    requires |a| <= |a'| == |b'| == |m'|
    requires a'[..|a|] == a && b'[..|a|] == b && m'[..|a|] == m
    requires forall k | |a| <= k < |a'| :: a'[k] == k && b'[k] == k && m'[k] == null
    ensures Inverse(a', b') && Packed(m', count) && Tagged(context, m', b', count)
    ensures Taken(m', count) == Taken(m, count)
  {
  }

  // ---- which context records what ----

  /** Memory on the heap belongs to the context around the current one. */
  function Recorder(current: DebugContext?, ref: MemoryRecord): DebugContext?
    reads ref`heapAllocated
  {
    if current == null then null
    else if !ref.heapAllocated then current
    else current.prev
  }

  ghost function Footprint(context: DebugContext?): set<object>
    reads context
  {
    if context == null then {}
    else
      var c: DebugContext := context;
      {c, c.memoryIndex, c.memoryReference, c.memories}
  }

  method AddAllocation(current: DebugContext?, ref: MemoryRecord) returns (corrupt: bool)
    requires Recorder(current, ref) != null ==> Recorder(current, ref).HasRoomFor(ref)
    modifies Footprint(Recorder(current, ref)), ref`contextAllocationIndex, ref`debugContext
    ensures !corrupt && Recorder(current, ref) == old(Recorder(current, ref))
    ensures var c := Recorder(current, ref);
      c != null ==> c.Valid() && c.Live() == old(c.Live()) + {ref} && ref.debugContext == c
    ensures current != null && !ref.heapAllocated ==> ref.debugContext == current
    ensures current != null && ref.heapAllocated && current.prev != null ==> ref.debugContext == current.prev
    ensures current == null || (ref.heapAllocated && current.prev == null) ==> Recorder(current, ref) == null
    ensures Recorder(current, ref) == null ==>
      ref.debugContext == old(ref.debugContext) && ref.contextAllocationIndex == old(ref.contextAllocationIndex)
  {
    if current == null {
      return false;
    }
    var context: DebugContext? := null;
    if !ref.heapAllocated {
      context := current;
    } else if current.prev != null {
      context := current.prev;
    }
    if context == null {
      return false;
    }
    corrupt := context.Add(ref);
  }

  /** Only a memory that its context has lost looks corrupt: removing twice is noticed, nothing else is. */
  method RemoveAllocation(ref: MemoryRecord) returns (corrupt: bool)
    requires ref.debugContext != null ==> ref.debugContext.Valid()
    modifies Footprint(ref.debugContext), ref`contextAllocationIndex
    ensures ref.debugContext == old(ref.debugContext)
    ensures var c := ref.debugContext; c != null ==> c.Valid() && c.Live() == old(c.Live()) - {ref}
    ensures corrupt <==>
      ref.debugContext != null && ref !in old(if ref.debugContext == null then {} else ref.debugContext.Live())
    ensures ref.debugContext != null && !corrupt ==> ref.contextAllocationIndex == UINT32_MAX
  {
    if ref.debugContext == null {
      return false;
    }
    corrupt := ref.debugContext.Remove(ref);
  }
}
