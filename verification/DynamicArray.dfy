/**
 The paged dynamic array as an object: a doubly linked chain of page records with per-page and
 global counters. Every operation is proved against the chain model in `PageChain`.
 */
module DynamicArrays {
  import opened Addresses
  import opened Common
  import opened PageChain
  import opened PageMemory

  /** The index that stands for the last element, and the answer of an empty AddRange. */
  const LAST: nat := UINT32_MAX
  const DEFAULT_GROW_SIZE: nat := 8

  datatype Option<T> = None | Some(value: T) {
    function GetOr(default: T): T {
      if Some? then value else default
    }
  }

  /** The first k pages of a chain are cleared and the others are as before. */
  ghost predicate ClearedTo(c: Chain<Element>, before: Chain<Element>, k: nat) {
    && |c| == |before|
    && forall j | 0 <= j < |c| :: c[j] == if j < k then PageView([], before[j].capacity) else before[j]
  }

  /** The buffers of the first k pages hold nothing but x. */
  ghost predicate FilledTo(m: Memory, order: seq<Ptr>, k: nat, x: Element)
    requires Lists(m, order) && k <= |order|
  {
    forall j | 0 <= j < k :: AllFilled(m[order[j]].data, x)
  }

  ghost predicate AllFilled(s: seq<Element>, x: Element) {
    forall i | 0 <= i < |s| :: s[i] == x
  }

  lemma ClearedNone(c: Chain<Element>)
    ensures ClearedTo(c, c, 0)
  {
  }

  lemma ClearedNext(c: Chain<Element>, before: Chain<Element>, k: nat)
    requires ClearedTo(c, before, k) && k < |c|
    ensures ClearedTo(c[k := PageView([], c[k].capacity)], before, k + 1)
  {
  }

  lemma ClearedAll(c: Chain<Element>, before: Chain<Element>)
    requires ClearedTo(c, before, |c|)
    ensures c == Cleared(before)
  {
  }

  lemma FilledNext(m: Memory, m1: Memory, order: seq<Ptr>, k: nat, x: Element)
    requires Lists(m, order) && Lists(m1, order) && k < |order| && FilledTo(m, order, k, x)
    requires forall p | p in m1 && p != order[k] :: p in m && m1[p] == m[p]
    requires AllFilled(m1[order[k]].data, x)
    ensures FilledTo(m1, order, k + 1, x)
  {
  }

  lemma FilledEverywhere(m: Memory, order: seq<Ptr>, x: Element)
    requires Lists(m, order) && FilledTo(m, order, |order|, x)
    ensures forall p | p in m :: AllFilled(m[p].data, x)
  {
  }

  /** A zeroed page without neighbours. */
  function CreatePage(slots: nat): (page: Page)
    ensures page.Sized() && page.View() == PageView([], slots)
    ensures page.next == NULL && page.prev == NULL
  {
    Page(seq(slots, _ => 0), 0, slots, NULL, NULL)
  }

  /** A buffer cut off or prolonged; what it is prolonged with is never read. */
  function Reallocated(buffer: seq<Element>, slots: nat): (r: seq<Element>)
    ensures |r| == slots
    ensures var kept := Min(slots, |buffer|); r[..kept] == buffer[..kept]
  {
    if slots <= |buffer| then buffer[..slots] else buffer + seq(slots - |buffer|, _ => 0)
  }

  class DynamicArray {
    /** The page records that this array owns, by address. */
    var memory: Memory
    var data: Ptr
    var lastPage: Ptr
    var pageCount: nat
    const dataSize: nat
    var growSize: nat
    var count: nat
    var capacity: nat
    var allowRelocation: bool
    /** Whether a callback for elements that are given up is set. */
    var deallocates: bool
    /** The elements that the callback was called with, in order. */
    var released: seq<Element>
    /** The addresses in chain order. */
    ghost var order: seq<Ptr>

    ghost predicate Structured()
      reads this
    {
      Chained(memory, order) && data == AddressAt(order, 0)
    }

    ghost predicate TailTracked()
      reads this
    {
      lastPage == AddressAt(order, |order| - 1) && pageCount == |order|
    }

    /** What each page of the chain holds. */
    ghost function View(): Chain<Element>
      requires Structured()
      reads this
    {
      ChainOf(memory, order)
    }

    /** The plain sequence that the array stands for. */
    ghost function Contents(): seq<Element>
      requires Structured()
      reads this
    {
      Flat(View())
    }

    ghost predicate Counted()
      requires Structured()
      reads this
    {
      count == |Contents()| && capacity == Capacity(View()) <= UINT32_MAX
    }

    /** What reading along the forward chain needs. */
    ghost predicate Readable()
      reads this
    {
      Structured() && Counted() && WellFormed(View())
    }

    ghost predicate Valid()
      reads this
    {
      Readable() && TailTracked()
    }

    /** The settings that no operation on elements changes. */
    ghost function Settings(): (nat, bool, bool)
      reads this
    {
      (growSize, allowRelocation, deallocates)
    }

    /** The settings and the calls of the callback. */
    ghost function Kept(): ((nat, bool, bool), seq<Element>)
      reads this
    {
      (Settings(), released)
    }

    /** The handle before its first page. */
    constructor Empty(dataSize: nat)
      ensures Valid() && View() == [] && capacity == 0
      ensures Kept() == ((DEFAULT_GROW_SIZE, true, false), []) && this.dataSize == dataSize
    {
      this.dataSize := dataSize;
      memory, data, lastPage, pageCount := map[], NULL, NULL, 0;
      growSize, count, capacity, allowRelocation := DEFAULT_GROW_SIZE, 0, 0, true;
      deallocates, released := false, [];
      order := [];
    }

    static method Create(initialSize: nat, dataSize: nat) returns (r: DynamicArray?)
      requires initialSize <= UINT32_MAX
      ensures r == null <==> dataSize == 0
      ensures r != null ==>
        && fresh(r) && r.Valid() && r.dataSize == dataSize && r.Kept() == ((8, true, false), [])
        && r.View() == (if initialSize == 0 then [] else [PageView([], initialSize)])
    {
      hide Flat, Capacity, WellFormed, Chained;
      if dataSize == 0 { return null; }
      r := new DynamicArray.Empty(dataSize);
      var page := r.AddPage(initialSize);
      r.data := page;
    }

    /** The pointer part of adding a page: behind the last page, which may not exist. */
    method LinkBehindLast(page: Ptr)
      requires page in memory && page != lastPage && (lastPage == NULL || lastPage in memory)
      modifies this`memory, this`data, this`lastPage
      ensures memory == Hung(old(memory), old(lastPage), page, old(memory[page]).(prev := old(lastPage)))
      ensures data == (if old(data) == NULL then page else old(data)) && lastPage == page
    {
      memory := memory[page := memory[page].(prev := lastPage)];
      if lastPage != NULL {
        memory := memory[lastPage := memory[lastPage].(next := page)];
      }
      if data == NULL {
        data := page;
      }
      lastPage := page;
    }

    method AddPage(slots: nat) returns (page: Ptr)
      requires Valid() && capacity + slots <= UINT32_MAX
      modifies `memory, `data, `lastPage, `pageCount, `count, `capacity, `order
      ensures Valid()
      ensures count == old(count) && capacity == old(capacity) + slots
      ensures slots == 0 ==> page == NULL && View() == old(View()) && order == old(order)
      ensures slots != 0 ==> page != NULL && order == old(order) + [page]
      ensures slots != 0 ==> View() == old(View()) + [PageView([], slots)]
    {
      hide Flat, WellFormed, Linked, Lists, ChainOf, CreatePage;
      if slots == 0 { return NULL; }
      page := FreshAddress(memory);
      ghost var linked := CreatePage(slots).(prev := lastPage);
      Ends(memory, order);
      HungKeeps(memory, order, page, linked);
      ReserveNewPage(View(), slots);
      HungTwice(memory, lastPage, page, CreatePage(slots), linked);
      memory := memory[page := CreatePage(slots)];
      capacity := capacity + slots;
      LinkBehindLast(page);
      hide Hung;
      pageCount := pageCount + 1;
      order := order + [page];
    }

    /** The pointer part of removing a page: both ends, then both neighbours. */
    method JoinNeighbours(page: Ptr)
      requires Removable(memory, page)
      modifies this`memory, this`data, this`lastPage
      ensures page in memory && memory - {page} == Unlinked(old(memory), page)
      ensures memory[page] == old(memory[page]) && memory.Keys == old(memory.Keys)
      ensures data == if page == old(data) then memory[page].next else old(data)
      ensures lastPage == if page == old(lastPage) then memory[page].prev else old(lastPage)
    {
      if page == data {
        data := memory[page].next;
      }
      if page == lastPage {
        lastPage := memory[page].prev;
      }
      if memory[page].next != NULL {
        memory := memory[memory[page].next := memory[memory[page].next].(prev := memory[page].prev)];
      }
      if memory[page].prev != NULL {
        memory := memory[memory[page].prev := memory[memory[page].prev].(next := memory[page].next)];
      }
    }

    method RemovePage(page: Ptr, ghost k: nat)
      requires Structured() && TailTracked()
      requires page != NULL ==> k < |order| && page == order[k]
      requires page != NULL ==> memory[page].count <= count && memory[page].capacity <= capacity
      modifies `memory, `data, `lastPage, `pageCount, `count, `capacity, `order
      ensures Structured() && TailTracked()
      ensures page == NULL ==> View() == old(View()) && count == old(count) && capacity == old(capacity)
      ensures page != NULL ==>
        && order == Dropped(old(order), k) && memory.Keys <= old(memory.Keys)
        && View() == Dropped(old(View()), k)
        && count == old(count) - old(View())[k].Count()
        && capacity == old(capacity) - old(View())[k].capacity
    {
      hide ChainOf, Linked, Lists, Unlinked, AddressAt;
      if page == NULL { return; }
      ChainRemovable(memory, order, k);
      UnlinkedKeeps(memory, order, k);
      DroppedEnds(memory, order, k);
      PageFacts(memory, order, k);
      JoinNeighbours(page);
      count := count - memory[page].count;
      capacity := capacity - memory[page].capacity;
      memory := memory - {page};
      pageCount := pageCount - 1;
      order := Dropped(order, k);
    }

    method ResizePage(page: Ptr, slots: nat, ghost k: nat)
      requires Structured() && TailTracked() && allowRelocation
      requires k < |order| && page == order[k]
      requires View()[k].Count() <= count && View()[k].capacity <= capacity
      modifies `memory, `data, `lastPage, `pageCount, `count, `capacity, `order
      ensures Structured() && TailTracked()
      ensures memory.Keys <= old(memory.Keys)
      ensures var was := old(View())[k]; var kept := if was.Count() < slots then was.Count() else slots;
        && View() == (if slots == 0 then Dropped(old(View()), k)
                      else old(View())[k := PageView(was.items[..kept], slots)])
        && count == old(count) - (if slots == 0 then was.Count() else was.Count() - kept)
        && capacity == old(capacity) - (was.capacity - slots)
    {
      hide ChainOf, Linked, Lists, AddressAt;
      PageFacts(memory, order, k);
      if slots == 0 {
        RemovePage(page, k);
        return;
      }
      var capacityDiff := memory[page].capacity - slots;
      capacity := capacity - capacityDiff;
      var kept := if memory[page].count < slots then memory[page].count else slots;
      var countDiff := memory[page].count - kept;
      count := count - countDiff;
      ghost var buffer := Reallocated(memory[page].data, slots);
      ghost var resized := Page(buffer, kept, slots, memory[page].next, memory[page].prev);
      UpdateKeeps(memory, order, k, resized);
      assert resized.View() == PageView(View()[k].items[..kept], slots);
      memory := memory[page := memory[page].(count := kept)];
      memory := memory[page := memory[page].(capacity := slots)];
      memory := memory[page := memory[page].(data := Reallocated(memory[page].data, slots))];
      assert memory == old(memory)[page := resized];
    }

    /** The walk by capacity: the page that owns the slot for an index, and the slot. */
    method GetPage(index: nat) returns (page: Ptr, slot: nat, ghost k: nat)
      requires Structured()
      ensures match Locate(View(), index)
        case Nowhere => page == NULL && (slot == 0 || (data == NULL && slot == index))
        case At(at, r) => page != NULL && page == order[at] && slot == r
      ensures Locate(View(), index).At? ==> k == Locate(View(), index).page
    {
      hide ChainOf, Linked, Lists;
      page, slot, k := data, index, 0;
      while page != NULL
        invariant k <= |order| && page == AddressAt(order, k)
        invariant index == Capacity(View()[..k]) + slot
        invariant page == NULL ==> data == NULL && slot == index
        decreases |order| - k
      {
        Ends(memory, order);
        PageFacts(memory, order, k);
        ChainRemovable(memory, order, k);
        CapacityStep(View(), k);
        if memory[page].capacity <= slot {
          slot := slot - memory[page].capacity;
          page := memory[page].next;
          k := k + 1;
        } else {
          LocateAt(View(), k, slot);
          return;
        }
        if page == NULL {
          PastTheEnd(index, k, slot);
          slot := 0;
          return;
        }
      }
      PastTheEnd(index, k, slot);
    }

    lemma PastTheEnd(index: nat, k: nat, slot: nat)
      requires Structured() && k <= |order| && AddressAt(order, k) == NULL
      requires index == Capacity(View()[..k]) + slot
      ensures Locate(View(), index) == Nowhere
    {
      assert k == |order| by {
        if k < |order| { PageFacts(memory, order, k); }
      }
      assert View()[..k] == View();
      LocateSplits(View(), index);
      var p := Locate(View(), index);
      if p.At? { CapacityAround(View(), p.page); }
    }

    lemma EmptyCount()
      requires Structured() && Counted()
      ensures data == NULL ==> count == 0
    {
    }

    /** Copies an element into the first free slot of a page and counts it there. */
    method StoreNext(page: Ptr, slot: nat, x: Element, ghost k: nat)
      requires Structured() && k < |order| && page == order[k]
      requires slot == View()[k].Count() < View()[k].capacity
      modifies this`memory
      ensures Structured()
      ensures View() == old(View())[k := PageView(old(View())[k].items + [x], old(View())[k].capacity)]
    {
      hide ChainOf, Linked, Lists;
      PageFacts(memory, order, k);
      ghost var stored := memory[page].(data := memory[page].data[slot := x], count := memory[page].count + 1);
      UpdateKeeps(memory, order, k, stored);
      assert stored.View() == PageView(View()[k].items + [x], View()[k].capacity);
      memory := memory[page := memory[page].(data := memory[page].data[slot := x])];
      memory := memory[page := memory[page].(count := memory[page].count + 1)];
      assert memory == old(memory)[page := stored];
    }

    method Add(x: Element) returns (index: nat)
      requires Valid()
      requires count < capacity || (0 < growSize && capacity + growSize <= UINT32_MAX)
      modifies this
      ensures Valid() && Kept() == old(Kept())
      ensures View() == Added(old(View()), x, growSize)
      ensures Contents() == old(Contents()) + [x]
      ensures capacity == old(capacity) + (if old(count) < old(capacity) then 0 else growSize)
      ensures index == old(count)
    {
      hide ChainOf, Linked, Lists, Flat, Capacity, Locate, AddressAt, WellFormed;
      ghost var before := View();
      LocateEnd(before);
      AddKeeps(before, x, growSize);
      EmptyCount();
      var page, slot, k := GetPage(count);
      if page == NULL {
        page := AddPage(growSize);
        k := |order| - 1;
        assert [] + [x] == [x];
        assert View()[k := PageView([x], growSize)] == before + [PageView([x], growSize)];
      }
      StoreNext(page, slot, x, k);
      index := count;
      count := count + 1;
    }

    /** Adds `source` element by element; the answer is the index of the first one. */
    method AddRange(source: seq<Element>) returns (startIndex: nat)
      requires Valid()
      requires count + |source| <= capacity || (0 < growSize && count + |source| + growSize <= UINT32_MAX)
      modifies this
      ensures Valid() && Kept() == old(Kept())
      ensures View() == AddedAll(old(View()), source, growSize)
      ensures Contents() == old(Contents()) + source
      ensures startIndex == if source == [] then 0xFFFF_FFFF else old(count)
    {
      hide ChainOf, Linked, Lists, Flat, Capacity, WellFormed, Added;
      startIndex := LAST;
      for i := 0 to |source|
        invariant Valid() && Kept() == old(Kept())
        invariant count == old(count) + i && Contents() == old(Contents()) + source[..i]
        invariant AddedAll(View(), source[i..], growSize) == AddedAll(old(View()), source, growSize)
        invariant old(count) + |source| <= old(capacity) ==> old(count) + |source| <= capacity
        invariant startIndex == if i == 0 then LAST else old(count)
      {
        RoomOrFull();
        var index := Add(source[i]);
        if startIndex == LAST {
          startIndex := index;
        }
      }
    }

    lemma RoomOrFull()
      requires Readable()
      ensures count < capacity || capacity == count
    {
      FlatAtMostCapacity(View());
    }

    method Write(x: Element, index: nat) returns (ok: bool)
      requires Readable()
      modifies this`memory
      ensures Readable() && (old(TailTracked()) ==> TailTracked())
      ensures ok <==> index < count
      ensures View() == Written(old(View()), index, x)
      ensures Contents() == if ok then old(Contents())[index := x] else old(Contents())
    {
      hide ChainOf, Linked, Lists, Flat, Capacity, Locate;
      WriteKeeps(View(), index, x);
      ReadRefines(View(), index);
      var page, slot, k := GetPage(index);
      if page == NULL { return false; }
      PageFacts(memory, order, k);
      if memory[page].count <= slot { return false; }
      ghost var stored := memory[page].(data := memory[page].data[slot := x]);
      UpdateKeeps(memory, order, k, stored);
      assert stored.View().items == View()[k].items[slot := x];
      memory := memory[page := memory[page].(data := memory[page].data[slot := x])];
      ok := true;
    }

    method Read(index: nat) returns (ok: bool, x: Element)
      requires Readable()
      ensures ok <==> index < count
      ensures ok ==> x == Contents()[index]
    {
      hide ChainOf, Linked, Lists, Flat, Capacity, Locate, WellFormed;
      ReadRefines(View(), index);
      var page, slot, k := GetPage(index);
      x := 0;
      if page == NULL { return false, x; }
      PageFacts(memory, order, k);
      if memory[page].count <= slot { return false, x; }
      x := memory[page].data[slot];
      ok := true;
    }

    /** Copies elements into `buffer` until one is missing; the answer is how many were there. */
    method ReadRange(buffer: array<Element>, n: nat, startIndex: nat) returns (read: nat)
      requires Readable() && n <= buffer.Length && startIndex + n <= UINT32_MAX
      modifies buffer
      ensures read == if startIndex + n <= count then n else if startIndex <= count then count - startIndex else 0
      ensures startIndex + read <= |Contents()| || read == 0
      ensures buffer[..read] == if read == 0 then [] else Contents()[startIndex..startIndex + read]
      ensures buffer[read..] == old(buffer[read..])
    {
      hide ChainOf, Linked, Lists, Flat, Capacity, Locate, WellFormed;
      if n == 0 { return 0; }
      read := 0;
      while read < n
        invariant read <= n && (read == 0 || startIndex + read <= count)
        invariant forall j | 0 <= j < read :: buffer[j] == Contents()[startIndex + j]
        invariant forall j | read <= j < buffer.Length :: buffer[j] == old(buffer[j])
      {
        var ok, x := Read(startIndex + read);
        if !ok { break; }
        buffer[read] := x;
        read := read + 1;
      }
      assert buffer[..read] == if read == 0 then [] else Contents()[startIndex..startIndex + read];
      assert buffer[read..] == old(buffer[read..]);
    }

    /** Moves the elements behind a slot down by one; the last element stays where it was. */
    method ShiftDown(page: Ptr, slot: nat, ghost k: nat)
      requires Structured() && k < |order| && page == order[k] && slot < View()[k].Count()
      modifies this`memory
      ensures Structured()
      ensures var was := old(View())[k];
        View() == old(View())[k := PageView(WithoutAt(was.items, slot) + [was.items[was.Count() - 1]], was.capacity)]
    {
      hide ChainOf, Linked, Lists;
      PageFacts(memory, order, k);
      var old_ := memory[page].data;
      var followingCount := memory[page].count - slot - 1;
      var moved := old_[..slot] + old_[slot + 1..slot + 1 + followingCount] + old_[slot + followingCount..];
      UpdateKeeps(memory, order, k, memory[page].(data := moved));
      assert moved[..memory[page].count] ==
        WithoutAt(View()[k].items, slot) + [View()[k].items[memory[page].count - 1]];
      memory := memory[page := memory[page].(data := moved)];
    }

    method DropLast(page: Ptr, ghost k: nat)
      requires Structured() && k < |order| && page == order[k] && 0 < View()[k].Count()
      modifies this`memory
      ensures Structured()
      ensures var was := old(View())[k];
        View() == old(View())[k := PageView(was.items[..was.Count() - 1], was.capacity)]
    {
      hide ChainOf, Linked, Lists;
      PageFacts(memory, order, k);
      ghost var fewer := memory[page].(count := memory[page].count - 1);
      UpdateKeeps(memory, order, k, fewer);
      assert fewer.View().items == View()[k].items[..View()[k].Count() - 1];
      memory := memory[page := memory[page].(count := memory[page].count - 1)];
    }

    /** The part of Remove behind the range checks. */
    method RemoveSlot(page: Ptr, slot: nat, ghost k: nat)
      requires Structured() && TailTracked() && allowRelocation
      requires k < |order| && page == order[k] && slot < View()[k].Count()
      requires View()[k].Count() <= count && View()[k].capacity <= capacity
      requires Followed(View(), k) ==> View()[k].Count() == View()[k].capacity
      modifies `memory, `data, `lastPage, `pageCount, `count, `capacity, `order
      ensures Structured() && TailTracked()
      ensures View() == RemovedFrom(old(View()), k, slot)
      ensures count == old(count) - 1
      ensures capacity == old(capacity) - (if Followed(old(View()), k) then 1 else 0)
    {
      hide ChainOf, Linked, Lists, AddressAt;
      ghost var was := View()[k];
      ghost var rest := WithoutAt(was.items, slot);
      ShiftDown(page, slot, k);
      NextCount(k);
      PageFacts(memory, order, k);
      assert View()[k].items[..was.Count() - 1] == rest;
      if memory[page].next != NULL && memory[memory[page].next].count != 0 {
        ResizePage(page, memory[page].count - 1, k);
      } else {
        DropLast(page, k);
        count := count - 1;
      }
    }

    method Remove(which: nat) returns (ok: bool)
      requires Valid() && allowRelocation && which <= UINT32_MAX
      modifies `memory, `data, `lastPage, `pageCount, `count, `capacity, `order, `released
      ensures Valid()
      ensures var index := if which == 0xFFFF_FFFF && old(count) != 0 then old(count) - 1 else which;
        && (ok <==> index < old(count))
        && View() == Removed(old(View()), index)
        && Contents() == (if ok then WithoutAt(old(Contents()), index) else old(Contents()))
        && released == old(released) + if ok && deallocates then [old(Contents())[index]] else []
    {
      hide ChainOf, Linked, Lists, Flat, Capacity, Locate, WellFormed, RemovedFrom, Followed;
      var index := which;
      if index == LAST {
        index := if count == 0 then UINT32_MAX else count - 1;  // count - 1 in 32 bits
      }
      RemoveKeeps(View(), index);
      ReadRefines(View(), index);
      if count <= index {
        LocateBeyond(View(), index);
        return false;
      }
      var page, slot, k := GetPage(index);
      if page == NULL { return false; }
      PageFacts(memory, order, k);
      if memory[page].count <= slot { return false; }
      FullWhenFollowed(View(), k);
      PartOf(View(), k);
      hide Structured;
      if deallocates {
        released := released + [memory[page].data[slot]];
      }
      RemoveSlot(page, slot, k);
      ok := true;
    }

    /** The test on the following page record is the test on the chain. */
    lemma NextCount(k: nat)
      requires Structured() && k < |order|
      ensures order[k] in memory
      ensures memory[order[k]].next != NULL ==> memory[order[k]].next in memory
      ensures memory[order[k]].next != NULL && memory[memory[order[k]].next].count != 0 <==> Followed(View(), k)
    {
      ChainRemovable(memory, order, k);
    }

    /** Fills every slot of a page, or zeroes its buffer, and counts nothing in it. */
    method ClearPage(page: Ptr, fill: Option<Element>, ghost k: nat)
      requires Structured() && k < |order| && page == order[k]
      modifies this`memory
      ensures Structured() && View() == old(View())[k := PageView([], old(View())[k].capacity)]
      ensures forall p | p in memory && p != page :: p in old(memory) && memory[p] == old(memory)[p]
      ensures AllFilled(memory[page].data, fill.GetOr(0))
    {
      hide ChainOf, Linked, Lists;
      PageFacts(memory, order, k);
      var slots := memory[page].capacity;
      var filled := seq(slots, _ => 0);
      if fill.Some? {
        filled := memory[page].data;
        for i := 0 to slots
          invariant |filled| == slots
          invariant forall j | 0 <= j < i :: filled[j] == fill.value
        {
          filled := filled[i := fill.value];
        }
      }
      UpdateKeeps(memory, order, k, memory[page].(data := filled, count := 0));
      memory := memory[page := memory[page].(data := filled, count := 0)];
    }

    method Clear(fill: Option<Element>)
      requires Readable()
      modifies this
      ensures Readable() && Kept() == old(Kept()) && (old(TailTracked()) ==> TailTracked())
      ensures View() == Cleared(old(View())) && Contents() == []
      ensures forall p | p in memory :: AllFilled(memory[p].data, fill.GetOr(0))
    {
      hide ChainOf, Linked, Lists, Flat, Capacity, WellFormed, AllFilled, FilledTo, ClearedTo, Cleared, AddressAt;
      ghost var before := View();
      ClearKeeps(before);
      var page := data;
      ghost var k := 0;
      FilledNone(fill.GetOr(0));
      ClearedNone(before);
      while page != NULL
        invariant Structured() && Kept() == old(Kept())
        invariant order == old(order) && lastPage == old(lastPage) && pageCount == old(pageCount)
        invariant capacity == old(capacity)
        invariant k <= |order| && page == AddressAt(order, k)
        invariant ClearedTo(View(), before, k)
        invariant FilledTo(memory, order, k, fill.GetOr(0))
        decreases |order| - k
      {
        AddressWithin(k);
        ghost var m0, v0 := memory, View();
        ClearPage(page, fill, k);
        ClearedNext(v0, before, k);
        FilledNext(m0, memory, order, k, fill.GetOr(0));
        ChainRemovable(memory, order, k);
        page := memory[page].next;
        k := k + 1;
      }
      AddressWithin(k);
      FilledEverywhere(memory, order, fill.GetOr(0));
      ClearedAll(View(), before);
      count := 0;
    }

    lemma AddressWithin(k: nat)
      requires Structured() && k <= |order|
      ensures AddressAt(order, k) == if k < |order| then order[k] else NULL
      ensures AddressAt(order, k) == NULL <==> k == |order|
    {
    }

    lemma FilledNone(x: Element)
      requires Structured()
      ensures FilledTo(memory, order, 0, x)
    {
    }

    method Reserve(n: nat)
      requires Valid() && capacity + n <= UINT32_MAX
      modifies this
      ensures Valid() && Kept() == old(Kept())
      ensures View() == Reserved(old(View()), n) && Contents() == old(Contents())
      ensures count + n <= capacity
    {
      hide ChainOf, Linked, Lists, Flat, Capacity, WellFormed, Locate;
      ghost var before := View();
      ReserveKeeps(before, n);
      LocateEnd(before);
      var page, slot, k := GetPage(count);
      var needed := n;
      if page != NULL {
        PageFacts(memory, order, k);
        var remainingSpace := memory[page].capacity - memory[page].count;
        assert remainingSpace != 0;  // the source's "programmed it wrong" assertion
        if needed <= remainingSpace { return; }
        needed := needed - remainingSpace;
      }
      var added := AddPage(needed);
    }

    /** All that the operations on a chain may change. */
    ghost function Fields(): (Memory, seq<Ptr>, Ptr, Ptr, nat, nat, nat)
      reads this
    {
      (memory, order, data, lastPage, pageCount, count, capacity)
    }

    /** Trim; where the last page known is not the last one, it is full and nothing is trimmed. */
    method Trim()
      requires (Valid() || Spliced()) && allowRelocation
      modifies `memory, `data, `lastPage, `pageCount, `count, `capacity, `order
      ensures old(Spliced()) ==> Spliced() && Fields() == old(Fields())
      ensures old(Valid()) ==> Valid() && View() == Trimmed(old(View())) && Contents() == old(Contents())
      ensures old(Valid()) ==> capacity == count == old(count) && memory.Keys <= old(memory.Keys)
    {
      hide ChainOf, Linked, Lists, Flat, Capacity, WellFormed;
      ghost var before := View();
      TrimKeeps(before);
      var page := lastPage;
      if Spliced() {
        StaleEnds();
        StaleFull();
        SplicedIsStale();
      }
      while page != NULL
        invariant old(Spliced()) ==> Fields() == old(Fields()) && lastPage in memory && page == lastPage != NULL
        invariant old(Spliced()) ==> memory[lastPage].count == memory[lastPage].capacity
        invariant old(Valid()) ==> Valid() && count == old(count) && memory.Keys <= old(memory.Keys)
        invariant old(Valid()) ==> page == lastPage && Trimmed(View()) == Trimmed(before)
        decreases |order|
      {
        if old(Valid()) { LastPageFacts(); }
        if memory[page].count == memory[page].capacity {
          return;
        }
        if memory[page].count == 0 {
          page := DropEmptyLast();
        } else {
          CutLast();
          return;
        }
      }
      Ends(memory, order);
    }

    lemma LastPageFacts()
      requires Valid() && lastPage != NULL
      ensures order != [] && lastPage == order[|order| - 1] && lastPage in memory && memory[lastPage].Sized()
      ensures memory[lastPage].View() == View()[|order| - 1]
      ensures memory[lastPage].count <= count && memory[lastPage].capacity <= capacity
      ensures memory[lastPage].prev == AddressAt(order, |order| - 2)
    {
      hide ChainOf, Flat, Capacity;
      PageFacts(memory, order, |order| - 1);
      ChainRemovable(memory, order, |order| - 1);
      PartOf(View(), |order| - 1);
    }

    /** The round of the trimming loop at a page without elements. */
    method DropEmptyLast() returns (nextPage: Ptr)
      requires Valid() && lastPage != NULL && lastPage in memory && memory[lastPage].count == 0
      modifies `memory, `data, `lastPage, `pageCount, `count, `capacity, `order
      ensures Valid() && count == old(count) && nextPage == lastPage
      ensures Trimmed(View()) == Trimmed(old(View())) && memory.Keys <= old(memory.Keys)
      ensures |order| < |old(order)|
    {
      hide ChainOf, Linked, Lists, Flat, Capacity, WellFormed, Trimmed;
      LastPageFacts();
      TrimStep(View());
      nextPage := memory[lastPage].prev;
      RemovePage(lastPage, |order| - 1);
    }

    /** The round at a page that is partly filled. */
    method CutLast()
      requires Valid() && allowRelocation && lastPage != NULL && lastPage in memory
      requires 0 < memory[lastPage].count < memory[lastPage].capacity
      modifies `memory, `data, `lastPage, `pageCount, `count, `capacity, `order
      ensures Valid() && count == old(count)
      ensures View() == Trimmed(old(View())) && memory.Keys <= old(memory.Keys)
    {
      hide ChainOf, Linked, Lists, Flat, Capacity, WellFormed, Trimmed;
      LastPageFacts();
      TrimStep(View());
      TrimKeeps(View());
      ResizePage(lastPage, memory[lastPage].count, |order| - 1);
    }

    /** The loop that frees a chain of pages, reading each link before its page goes. */
    method FreePages(first: Ptr, ghost m: Memory, ghost pages: seq<Ptr>)
      requires Chained(m, pages) && first == AddressAt(pages, 0) && Contains(memory, m)
      modifies this`memory
      ensures memory == old(memory) - m.Keys
    {
      hide Linked, AddressAt, Lists;
      var page := first;
      ghost var k := 0;
      while page != NULL
        invariant k <= |pages| && page == AddressAt(pages, k)
        invariant memory == old(memory) - set p | p in pages[..k]
        decreases |pages| - k
      {
        WithinPages(m, pages, k);
        ChainRemovable(m, pages, k);
        var nextPage := memory[page].next;
        assert pages[..k + 1] == pages[..k] + [page];
        memory := memory - {page};
        page := nextPage;
        k := k + 1;
      }
      WithinPages(m, pages, k);
      assert pages[..k] == pages;
      AllListed(m, pages);
    }

    /** Every element goes to the callback once, in order, and every page is freed. */
    method Destroy()
      requires Readable()
      modifies this`memory, this`released
      ensures memory == map[]
      ensures released == old(released) + if deallocates then old(Contents()) else []
    {
      hide Linked, AddressAt, Flat, ChainOf, Lists, Capacity, WellFormed;
      var page := data;
      ghost var m, pages, view, k := memory, order, View(), 0;
      NothingInNone<Element>();
      assert released + [] == released;
      while page != NULL
        invariant k <= |pages| && page == AddressAt(pages, k)
        invariant memory == m - set p | p in pages[..k]
        invariant released == old(released) + if deallocates then Flat(view[..k]) else []
        decreases |pages| - k
      {
        WithinPages(m, pages, k);
        ChainRemovable(m, pages, k);
        PageFacts(m, pages, k);
        FlatStep(view, k);
        assert page in memory && memory[page] == m[page];
        if deallocates {
          ReleaseItems(page);
        }
        var nextPage := memory[page].next;
        assert pages[..k + 1] == pages[..k] + [page];
        memory := memory - {page};
        page := nextPage;
        k := k + 1;
      }
      WithinPages(m, pages, k);
      assert pages[..k] == pages && view[..k] == view;
      AllListed(m, pages);
    }

    /** The loop that calls the callback with the elements of one page. */
    method ReleaseItems(page: Ptr)
      requires page in memory && memory[page].Sized()
      modifies this`released
      ensures released == old(released) + memory[page].View().items
    {
      for i := 0 to memory[page].count
        invariant released == old(released) + memory[page].data[..i]
      {
        assert memory[page].data[..i + 1] == memory[page].data[..i] + [memory[page].data[i]];
        released := released + [memory[page].data[i]];
      }
    }

    /** One page in place of all, which also repairs the stale tail that Append leaves. */
    method MakeContiguous()
      requires Readable() && 0 < capacity
      modifies this
      ensures Valid() && Kept() == old(Kept())
      ensures View() == Contiguous(old(View())) && Contents() == old(Contents())
      ensures capacity == old(capacity) && pageCount == 1
    {
      hide ChainOf, Linked, Lists, Flat, Capacity, WellFormed, AddressAt;
      ContiguousKeeps(View());
      RoomOrFull();
      var page := FreshAddress(memory);
      var buffer := new Element[capacity](_ => 0);
      var read := ReadRange(buffer, count, 0);
      assert buffer[..count] == Contents();
      var prevPages := data;
      ghost var single := Page(buffer[..], count, capacity, NULL, NULL);
      memory := memory[page := Page(buffer[..], count, capacity, NULL, NULL)];
      data := page;
      lastPage := page;
      pageCount := 1;
      FreePages(prevPages, old(memory), order);
      assert memory == map[page := single];
      order := [page];
      Alone(page, single);
    }

    /** The state with one page that holds everything. */
    lemma Alone(page: Ptr, single: Page)
      requires page != NULL && single.Sized() && single.next == NULL && single.prev == NULL
      requires memory == map[page := single] && order == [page] && data == page == lastPage && pageCount == 1
      requires var c := [single.View()];
        WellFormed(c) && count == |Flat(c)| && capacity == Capacity(c) <= UINT32_MAX
      ensures Valid() && View() == [single.View()]
    {
      hide Flat, Capacity, WellFormed;
      SinglePage(page, single);
    }

    /** The last part of Append: the pages of `src` are tied behind the last page known. */
    method LinkPages(src: DynamicArray)
      requires this != src && lastPage in memory && src.data in src.memory
      modifies this`memory, this`count, this`capacity, src`memory, src`data
      ensures memory == Tied(old(memory), old(src.memory), lastPage, old(src.data))
      ensures count == old(count) + src.count && capacity == old(capacity) + src.capacity
      ensures src.memory == map[] && src.data == NULL
    {
      memory := memory[lastPage := memory[lastPage].(next := src.data)];
      src.memory := src.memory[src.data := src.memory[src.data].(prev := lastPage)];
      memory := memory + src.memory;
      count := count + src.count;
      capacity := capacity + src.capacity;
      src.memory, src.data := map[], NULL;
    }

    /** Append to an array without elements: the elements of `src` are copied. */
    method AppendCopies(src: DynamicArray)
      requires this != src && Valid() && src.Readable()
      requires View() == [] && count == 0 && 0 < growSize && src.count + growSize <= UINT32_MAX
      modifies this, src
      ensures Valid() && View() == AddedAll([], old(src.Contents()), growSize) && Kept() == old(Kept())
      ensures Contents() == old(src.Contents()) && src.memory == map[]
      ensures src.released == old(src.released) + if old(src.deallocates) then old(src.Contents()) else []
    {
      hide ChainOf, Linked, Lists, Flat, Capacity, WellFormed, AddressAt, AddedAll;
      var buffer := new Element[src.count](_ => 0);
      var read := src.ReadRange(buffer, src.count, 0);
      assert buffer[..] == src.Contents();
      NothingBefore(Contents(), buffer[..]);
      var start := AddRange(buffer[..]);
      src.Destroy();
    }

    /**
     Append. The last page and the page count are not brought up to date when pages are moved, so
     afterwards only reading along the chain is promised; and where that has happened before, the
     pages of `src` cut off those moved in then. So the chain reads as this array followed by `src`
     exactly if the array was valid. The elements of `src` are given to its callback although they
     live on here, exactly if they had to be copied. The answer is whether `src` was used up.
     */
    method Append(src: DynamicArray) returns (consumed: bool, ghost reached: seq<Ptr>)
      requires this != src && (Valid() || Spliced()) && src.Readable() && memory.Keys !! src.memory.Keys
      requires dataSize == src.dataSize && src.count != 0 ==>
        && allowRelocation && (if Spliced() then capacity else count) + src.capacity <= UINT32_MAX
        && (count == 0 ==> 0 < growSize && src.count + growSize <= UINT32_MAX)
      modifies this, src
      ensures Kept() == old(Kept())
      ensures consumed <==> dataSize == src.dataSize && old(src.count) != 0
      ensures !consumed ==> Fields() == old(Fields()) && src.memory == old(src.memory)
      ensures consumed ==> src.memory == map[] && count == old(count) + old(src.count)
      ensures consumed ==> Forward(memory, data, reached)
      ensures consumed ==>
        (Flat(Along(memory, reached)) == old(Contents()) + old(src.Contents()) <==> old(Valid()))
      ensures consumed && old(Valid()) ==> Readable() && reached == order
      ensures consumed && old(Valid()) ==> Contents() == old(Contents()) + old(src.Contents())
      ensures consumed && old(Valid()) && old(count) != 0 ==>
        && Spliced() && View() == Trimmed(old(View())) + old(src.View()) && pageCount == |Trimmed(old(View()))|
        && capacity == old(count) + old(src.capacity)
      ensures consumed && old(Valid()) && old(count) == 0 ==> View() == AddedAll([], old(src.Contents()), growSize)
      ensures consumed && old(Spliced()) ==>
        && Along(memory, reached) == old(View())[..old(pageCount)] + old(src.View())
        && capacity == old(capacity) + old(src.capacity)
      ensures old(Valid()) ==> (Valid() <==> !consumed || old(count) == 0)
      ensures src.released == old(src.released) +
        if consumed && old(count) == 0 && old(src.deallocates) then old(src.Contents()) else []
    {
      hide ChainOf, Linked, Lists, Flat, Capacity, WellFormed, Trimmed, AddedAll, AddressAt, Forward, Along;
      reached := order;
      if dataSize != src.dataSize { return false, reached; }
      if src.count == 0 { return false, reached; }
      consumed := true;
      if Spliced() {
        SplicedIsStale();
        SplicedSome();
        AppendLoses(View(), pageCount, src.View());
      } else {
        src.RoomOrFull();
        AppendKeeps(View(), src.View());
        TrimKeeps(View());
      }
      Trim();
      ghost var items := src.Contents();
      if count == 0 {
        NoElements(View());
        NothingBefore(old(Contents()), items);
        AppendCopies(src);
        reached := order;
        SomeElements();
        ChainedForward(memory, order);
        return;
      }
      reached := AppendLinked(src);
      if old(Valid()) {
        FirstPart(Trimmed(old(View())), old(src.View()));
        SplicedIsStale();
        assert Trimmed(old(View()))[..pageCount] == Trimmed(old(View()));
      }
    }

    /** Append to an array with elements, once it is trimmed: the pages of `src` go behind the last page known. */
    method AppendLinked(src: DynamicArray) returns (ghost reached: seq<Ptr>)
      requires this != src && (Valid() || Spliced()) && src.Readable() && memory.Keys !! src.memory.Keys
      requires 0 < count && 0 < src.count
      modifies `memory, `count, `capacity, `order, src`memory, src`data
      ensures count == old(count) + old(src.count) && capacity == old(capacity) + old(src.capacity)
      ensures src.memory == map[]
      ensures Forward(memory, data, reached)
      ensures Along(memory, reached) == old(View())[..old(pageCount)] + old(src.View())
      ensures old(Valid()) ==> Structured() && reached == order && View() == old(View()) + old(src.View())
      ensures old(Valid()) ==> 0 < pageCount < |order| && lastPage == order[pageCount - 1]
      ensures old(Valid()) ==> pageCount == |old(View())|
    {
      hide ChainOf, Linked, Lists, Flat, Capacity, WellFormed, AddressAt, Forward, Along, Tied;
      src.SomeElements();
      LastKnown();
      TiedInside(memory, order, pageCount, src.memory, src.order);
      if Valid() {
        TiedKeeps(memory, order, src.memory, src.order);
        TiedEnds(memory, order, src.memory, src.order);
      }
      reached := order[..pageCount] + src.order;
      LinkPages(src);
      if old(Valid()) {
        order := order + src.order;
        assert reached == order;
      }
    }

    lemma LastKnown()
      requires (Valid() || Spliced()) && 0 < count
      ensures 0 < pageCount <= |order| && lastPage == order[pageCount - 1] && lastPage in memory
      ensures data == order[0] && Chained(memory, order)
    {
      hide Flat, Capacity, Linked;
      SomeElements();
      PageFacts(memory, order, pageCount - 1);
    }

    lemma SplicedSome()
      requires Spliced()
      ensures 0 < count
    {
      hide Flat, Capacity, WellFormed;
      FlatConcat(View()[..pageCount], View()[pageCount..]);
      assert View()[..pageCount] + View()[pageCount..] == View();
    }

    /** After pages were moved in: the last page known is not the last one, and elements lie behind it. */
    ghost predicate Spliced()
      reads this
    {
      && Readable() && 0 < pageCount < |order| && lastPage == order[pageCount - 1]
      && 0 < |Flat(View()[pageCount..])|
    }

    /** What Add does behind an Append without a free slot: the new page goes behind the stale last one. */
    method AddBehindStale(x: Element) returns (ghost reached: seq<Ptr>)
      requires Spliced() && 0 < growSize && capacity + growSize <= UINT32_MAX
      modifies `memory, `data, `lastPage, `pageCount, `capacity, `count
      ensures count == old(count) + 1 && capacity == old(capacity) + growSize
      ensures |reached| == old(pageCount) + 1 && reached[..old(pageCount)] == old(order)[..old(pageCount)]
      ensures Forward(memory, data, reached)
      ensures Along(memory, reached) == old(View())[..old(pageCount)] + [PageView([x], growSize)]
    {
      hide Flat, Capacity, WellFormed, Linked, Lists, ChainOf, Along, Forward;
      ghost var blank := CreatePage(growSize);
      ghost var stored := blank.(data := blank.data[0 := x], count := 1, prev := lastPage);
      var page := FreshAddress(memory);
      HungInside(memory, order, pageCount, page, stored);
      StaleEnds();
      reached := order[..pageCount] + [page];
      assert stored.View() == PageView([x], growSize);
      ghost var m, last := memory, lastPage;
      HungTwice(m, last, page, blank, blank.(prev := last));
      HungWritten(m, last, page, blank.(prev := last), stored.(count := 0));
      HungWritten(m, last, page, stored.(count := 0), stored);
      memory := memory[page := CreatePage(growSize)];
      capacity := capacity + growSize;
      LinkBehindLast(page);
      hide Hung, CreatePage;
      pageCount := pageCount + 1;
      memory := memory[page := memory[page].(data := memory[page].data[0 := x])];
      memory := memory[page := memory[page].(count := memory[page].count + 1)];
      count := count + 1;
    }

    lemma StaleEnds()
      requires Spliced()
      ensures lastPage in memory && lastPage != NULL && data != NULL && data == order[0] && Chained(memory, order)
    {
    }

    /**
     Add behind an Append that moved pages in. Read forwards, the array is what it was and the new
     element exactly if there was a free slot; if not, every page moved in is cut off.
     */
    method AddAppended(x: Element) returns (index: nat, ghost reached: seq<Ptr>)
      requires Spliced() && 0 < growSize && capacity + growSize <= UINT32_MAX
      modifies this
      ensures index == old(count) && count == old(count) + 1
      ensures Forward(memory, data, reached)
      ensures old(count) < old(capacity) ==> Readable() && reached == order
      ensures old(count) == old(capacity) ==>
        Flat(Along(memory, reached)) == Flat(old(View())[..old(pageCount)]) + [x]
      ensures Flat(Along(memory, reached)) == old(Contents()) + [x] <==> old(count) < old(capacity)
    {
      hide Flat, Capacity, WellFormed, Linked, Lists, ChainOf, Along, Forward, Locate, AddressAt;
      ghost var before := View();
      LocateEnd(before);
      RoomOrFull();
      index := count;
      var page, slot, k := GetPage(count);
      if page == NULL {
        CutLoses(before, pageCount, x, growSize);
        reached := AddBehindStale(x);
      } else {
        AddKeeps(before, x, growSize);
        StaleEnds();
        StoreNext(page, slot, x, k);
        count := count + 1;
        reached := order;
        ChainedForward(memory, order);
      }
    }

    lemma StaleFull()
      requires Spliced()
      ensures lastPage in memory && memory[lastPage].count == memory[lastPage].capacity
    {
      hide Flat, Capacity, Linked, ChainOf, WellFormed;
      PageFacts(memory, order, pageCount - 1);
      BehindFull(View(), pageCount - 1);
    }

    lemma SplicedIsStale()
      requires Structured() && 0 < pageCount < |order| && lastPage == order[pageCount - 1]
      ensures !TailTracked()
    {
    }

    lemma SomeElements()
      requires Readable() && 0 < count
      ensures order != [] && data == order[0] && data in memory
      ensures AddressAt(order, |order| - 1) == order[|order| - 1] && order[|order| - 1] in memory
    {
    }
  }

  /** The array of one and the array of two, one page each: appended, and then three added, two is gone. */
  method LostAfterAppend(a: DynamicArray, b: DynamicArray) returns (ghost reached: seq<Ptr>)
    requires a != b && a.Valid() && b.Valid() && a.memory.Keys !! b.memory.Keys
    requires a.View() == [PageView([1], 1)] && b.View() == [PageView([2], 1)]
    requires a.dataSize == b.dataSize && a.growSize == 1 && a.allowRelocation
    modifies a, b
    ensures Forward(a.memory, a.data, reached) && Flat(Along(a.memory, reached)) == [1, 3]
  {
    hide Flat, Capacity, WellFormed, Trimmed, DynamicArray.TailTracked, DynamicArray.Counted, Forward, Along;
    SingleCounts(a, 1);
    SingleCounts(b, 2);
    var consumed;
    consumed, reached := a.Append(b);
    FirstPart([PageView([1], 1)], [PageView([2], 1)]);
    SingleFlat(1);
    assert [1] + [3] == [1, 3];
    var index;
    index, reached := a.AddAppended(3);
  }

  /** The page of two was appended to the page of one; a second Append, of the page of three, loses two. */
  method LostBySecondAppend(a: DynamicArray, c: DynamicArray) returns (ghost reached: seq<Ptr>)
    requires a != c && a.Spliced() && c.Valid() && a.memory.Keys !! c.memory.Keys
    requires a.View() == [PageView([1], 1), PageView([2], 1)] && a.pageCount == 1 && a.capacity == 2
    requires c.View() == [PageView([3], 1)] && a.dataSize == c.dataSize && a.allowRelocation
    modifies a, c
    ensures Forward(a.memory, a.data, reached) && Flat(Along(a.memory, reached)) == [1, 3]
  {
    hide Flat, Capacity, WellFormed, Trimmed, DynamicArray.TailTracked, DynamicArray.Counted, Forward, Along;
    SingleCounts(c, 3);
    a.SplicedIsStale();
    a.SplicedSome();
    assert a.View()[..1] + c.View() == [PageView([1], 1), PageView([3], 1)];
    var consumed;
    consumed, reached := a.Append(c);
    PairFlat(1, 3);
  }

  lemma PairFlat(x: Element, y: Element)
    ensures Flat([PageView([x], 1), PageView([y], 1)]) == [x, y]
  {
    var c := [PageView([x], 1), PageView([y], 1)];
    assert c[1..] == [PageView([y], 1)];
    SingleFlat(y);
  }

  /** An element that was appended to an array without any has gone to the callback, and is held as well. */
  method ReleasedByAppend(a: DynamicArray, b: DynamicArray)
    requires a != b && a.Valid() && b.Valid() && a.memory.Keys !! b.memory.Keys
    requires a.View() == [] && b.View() == [PageView([2], 1)]
    requires a.dataSize == b.dataSize && a.growSize == 1 && a.allowRelocation
    requires b.deallocates && b.released == []
    modifies a, b
    ensures a.Valid() && a.Contents() == [2] && b.released == [2]
  {
    hide Flat, Capacity, WellFormed, Trimmed, DynamicArray.TailTracked, DynamicArray.Counted;
    SingleCounts(b, 2);
    NoneCounts(a);
    NothingBefore(a.Contents(), [2]);
    var consumed, reached := a.Append(b);
  }

  lemma NoneCounts(a: DynamicArray)
    requires a.Valid() && a.View() == []
    ensures a.count == a.capacity == 0 && a.Contents() == []
  {
  }

  lemma SingleCounts(a: DynamicArray, x: Element)
    requires a.Valid() && a.View() == [PageView([x], 1)]
    ensures a.count == a.capacity == 1 && Flat(a.View()) == [x] && Trimmed(a.View()) == a.View()
  {
    SingleFlat(x);
  }

  lemma SingleFlat(x: Element)
    ensures var c := [PageView([x], 1)]; Flat(c) == [x] && Capacity(c) == 1 && Trimmed(c) == c
  {
  }

  ghost predicate Contains(big: Memory, small: Memory) {
    forall p | p in small :: p in big && big[p] == small[p]
  }

  lemma WithinPages(m: Memory, pages: seq<Ptr>, k: nat)
    requires Lists(m, pages) && k <= |pages|
    ensures AddressAt(pages, k) == NULL <==> k == |pages|
    ensures k < |pages| ==> AddressAt(pages, k) == pages[k] && pages[k] in m && pages[k] !in pages[..k]
  {
  }

  lemma AllListed(m: Memory, pages: seq<Ptr>)
    requires Lists(m, pages)
    ensures m.Keys == set p | p in pages
  {
  }

  lemma FirstPart(a: Chain<Element>, b: Chain<Element>)
    ensures (a + b)[..|a|] == a && (a + b)[|a|..] == b
  {
  }

  lemma NothingBefore(none: seq<Element>, all: seq<Element>)
    requires |none| == 0
    ensures none + all == all
  {
  }

  lemma NoElements(c: Chain<Element>)
    requires WellFormed(c) && Capacity(c) == 0
    ensures c == []
  {
  }

  lemma TiedEnds(m1: Memory, o1: seq<Ptr>, m2: Memory, o2: seq<Ptr>)
    requires o1 != []
    ensures AddressAt(o1 + o2, 0) == AddressAt(o1, 0)
    ensures AddressAt(o1 + o2, |o1| - 1) == AddressAt(o1, |o1| - 1)
  {
  }

  lemma SinglePage(p: Ptr, page: Page)
    requires p != NULL && page.Sized() && page.next == NULL && page.prev == NULL
    ensures Chained(map[p := page], [p]) && ChainOf(map[p := page], [p]) == [page.View()]
    ensures AddressAt([p], 0) == p
  {
  }
}
