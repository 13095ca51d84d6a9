/**
 The value-level model of the paged dynamic array: a chain of pages, each holding the elements
 in use and its capacity, and what every operation of the array does to that chain.

 The array finds an element by walking the chain and subtracting page capacities. That is
 right only while every page before the last non-empty one is full, which is what
 `WellFormed` says. The lemmas show that every operation keeps it and that the chain
 behaves as the plain sequence `Flat`.
 */
module PageChain {

  /** One page: the elements in use (the first `count` slots) and the number of slots. */
  datatype PageView<T> = PageView(items: seq<T>, capacity: nat) {
    function Count(): nat {
      |items|
    }
  }

  type Chain<T> = seq<PageView<T>>

  /** Where an index falls: past the last page, or in a slot of a page. */
  datatype Place = Nowhere | At(page: nat, slot: nat)

  /** Full pages, then at most one partly filled page, then empty pages. */
  ghost predicate WellFormed<T>(c: Chain<T>) {
    && (forall k | 0 <= k < |c| :: 0 < c[k].capacity && |c[k].items| <= c[k].capacity)
    && (forall j, k | 0 <= j < k < |c| && 0 < |c[k].items| :: |c[j].items| == c[j].capacity)
  }

  function Flat<T>(c: Chain<T>): seq<T> {
    if c == [] then [] else c[0].items + Flat(c[1..])
  }

  function Capacity<T>(c: Chain<T>): nat {
    if c == [] then 0 else c[0].capacity + Capacity(c[1..])
  }

  /** The walk of the chain by capacity. */
  function Locate<T>(c: Chain<T>, index: nat): (p: Place)
    ensures p.At? ==> p.page < |c| && p.slot < c[p.page].capacity
  {
    if c == [] then Nowhere
    else if index < c[0].capacity then At(0, index)
    else match Locate(c[1..], index - c[0].capacity)
      case Nowhere => Nowhere
      case At(k, r) => At(k + 1, r)
  }

  function WithoutAt<T>(s: seq<T>, i: nat): (r: seq<T>)
    requires i < |s|
    ensures |r| == |s| - 1 && (forall k | 0 <= k < i :: r[k] == s[k]) && (forall k | i <= k < |r| :: r[k] == s[k + 1])
  {
    s[..i] + s[i + 1..]
  }

  // ---- splitting a chain ----

  lemma {:induction false} ItemsConcat<T>(a: Chain<T>, b: Chain<T>)
    ensures Flat(a + b) == Flat(a) + Flat(b)
  {
    if a == [] {
      assert a + b == b;
    } else {
      ItemsConcat(a[1..], b);
      assert (a + b)[0] == a[0] && (a + b)[1..] == a[1..] + b;
      ConcatAssociates(a[0].items, Flat(a[1..]), Flat(b));
    }
  }

  lemma {:induction false} CapacityConcat<T>(a: Chain<T>, b: Chain<T>)
    ensures Capacity(a + b) == Capacity(a) + Capacity(b)
  {
    if a == [] {
      assert a + b == b;
    } else {
      CapacityConcat(a[1..], b);
      assert (a + b)[0] == a[0] && (a + b)[1..] == a[1..] + b;
    }
  }

  lemma {:induction false} FlatConcat<T>(a: Chain<T>, b: Chain<T>)
    ensures Flat(a + b) == Flat(a) + Flat(b)
    ensures Capacity(a + b) == Capacity(a) + Capacity(b)
  {
    hide Flat, Capacity;
    ItemsConcat(a, b);
    CapacityConcat(a, b);
  }

  lemma {:induction false} ConcatAssociates<T>(a: seq<T>, b: seq<T>, c: seq<T>)
    ensures a + b + c == a + (b + c)
  {
  }

  /** A chain seen as the pages before page k, page k and the pages after it. */
  lemma {:induction false} FlatAround<T>(c: Chain<T>, k: nat)
    requires k < |c|
    ensures Flat(c) == Flat(c[..k]) + c[k].items + Flat(c[k + 1..])
    ensures Capacity(c) == Capacity(c[..k]) + c[k].capacity + Capacity(c[k + 1..])
  {
    var tail := c[k..];
    FlatConcat(c[..k], tail);
    assert c[..k] + tail == c;
    assert tail[0] == c[k] && tail[1..] == c[k + 1..];
    ConcatAssociates(Flat(c[..k]), c[k].items, Flat(c[k + 1..]));
  }

  lemma {:induction false} CapacityAround<T>(c: Chain<T>, k: nat)
    requires k < |c|
    ensures Capacity(c) == Capacity(c[..k]) + c[k].capacity + Capacity(c[k + 1..])
  {
    FlatAround(c, k);
  }

  /** Replacing page k leaves the pages around it. */
  lemma {:induction false} FlatUpdate<T>(c: Chain<T>, k: nat, p: PageView<T>)
    requires k < |c|
    ensures Flat(c[k := p]) == Flat(c[..k]) + p.items + Flat(c[k + 1..])
    ensures Capacity(c[k := p]) == Capacity(c[..k]) + p.capacity + Capacity(c[k + 1..])
  {
    FlatAround(c[k := p], k);
    assert c[k := p][..k] == c[..k];
    assert c[k := p][k + 1..] == c[k + 1..];
  }

  lemma {:induction false} FlatAtMostCapacity<T>(c: Chain<T>)
    requires forall k | 0 <= k < |c| :: |c[k].items| <= c[k].capacity
    ensures |Flat(c)| <= Capacity(c)
  {
    if c != [] { FlatAtMostCapacity(c[1..]); }
  }

  lemma {:induction false} FlatStep<T>(c: Chain<T>, k: nat)
    requires k < |c|
    ensures Flat(c[..k + 1]) == Flat(c[..k]) + c[k].items
  {
    assert c[..k + 1] == c[..k] + [c[k]];
    FlatConcat(c[..k], [c[k]]);
    assert [c[k]][1..] == [];
  }

  lemma {:induction false} CapacityStep<T>(c: Chain<T>, k: nat)
    requires k < |c|
    ensures Capacity(c[..k + 1]) == Capacity(c[..k]) + c[k].capacity
  {
    assert c[..k + 1] == c[..k] + [c[k]];
    FlatConcat(c[..k], [c[k]]);
    assert [c[k]][1..] == [];
  }

  lemma {:induction false} CapacityMonotonic<T>(c: Chain<T>, j: nat, k: nat)
    requires j <= k <= |c|
    ensures Capacity(c[..j]) <= Capacity(c[..k])
  {
    assert c[..k] == c[..j] + c[j..k];
    FlatConcat(c[..j], c[j..k]);
  }

  lemma {:induction false} FullPrefix<T>(c: Chain<T>)
    requires forall k | 0 <= k < |c| :: |c[k].items| == c[k].capacity
    ensures |Flat(c)| == Capacity(c)
  {
    if c != [] { FullPrefix(c[1..]); }
  }

  lemma {:induction false} EmptySuffix<T>(c: Chain<T>)
    requires forall k | 0 <= k < |c| :: c[k].items == []
    ensures Flat(c) == []
  {
    if c != [] { EmptySuffix(c[1..]); }
  }

  lemma {:induction false} EmptyAfter<T>(c: Chain<T>, n: nat)
    requires n <= |c| && forall k | n <= k < |c| :: c[k].items == []
    ensures Flat(c[n..]) == []
  {
    var tail := c[n..];
    assert forall k | 0 <= k < |tail| :: tail[k] == c[n + k];
    EmptySuffix(tail);
  }

  /** The walk splits the index into the capacity before the page and the slot in it. */
  lemma {:induction false} LocateSplits<T>(c: Chain<T>, index: nat)
    ensures var p := Locate(c, index);
      if p.At? then index == Capacity(c[..p.page]) + p.slot else Capacity(c) <= index
  {
    if c != [] && c[0].capacity <= index {
      LocateSplits(c[1..], index - c[0].capacity);
      var p := Locate(c, index);
      if p.At? {
        FlatConcat(c[..1], c[1..p.page]);
        assert c[..1] + c[1..p.page] == c[..p.page];
        assert c[1..][..p.page - 1] == c[1..p.page];
        assert c[..1][1..] == [];
      }
    }
  }

  /** The walk stops at the only page and slot that split the index that way. */
  lemma {:induction false} LocateAt<T>(c: Chain<T>, k: nat, slot: nat)
    requires k < |c| && slot < c[k].capacity
    ensures Locate(c, Capacity(c[..k]) + slot) == At(k, slot)
  {
    if k > 0 {
      LocateAt(c[1..], k - 1, slot);
      assert c[..k][1..] == c[1..][..k - 1];
    } else {
      assert c[..k] == [];
    }
  }

  /**
   Every page of a well-formed chain that the walk can reach at or before the element count
   has only full pages before it.
   */
  lemma {:induction false} FullBefore<T>(c: Chain<T>, index: nat)
    requires WellFormed(c) && index <= |Flat(c)| && Locate(c, index).At?
    ensures var k := Locate(c, index).page;
      && (forall j | 0 <= j < k :: |c[j].items| == c[j].capacity)
      && |Flat(c[..k])| == Capacity(c[..k])
  {
    var k := Locate(c, index).page;
    LocateSplits(c, index);
    if j :| 0 <= j < k && |c[j].items| != c[j].capacity {
      // everything after a page with room is empty, so the elements end inside page j
      FlatAround(c, j);
      EmptyAfter(c, j + 1);
      FlatAtMostCapacity(c[..j]);
      CapacityMonotonic(c, j + 1, k);
      CapacityStep(c, j);
      assert false;
    }
    FullPrefix(c[..k]);
  }

  /** Indexing is right: the slot found for an index in range holds that element. */
  lemma {:induction false} LocateElement<T>(c: Chain<T>, index: nat)
    requires WellFormed(c) && index < |Flat(c)|
    ensures var p := Locate(c, index);
      p.At? && p.slot < |c[p.page].items| && c[p.page].items[p.slot] == Flat(c)[index]
  {
    FlatAtMostCapacity(c);
    LocateSplits(c, index);
    FullBefore(c, index);
    var p := Locate(c, index);
    FlatAround(c, p.page);
    if |c[p.page].items| <= p.slot {
      EmptyAfter(c, p.page + 1);
      assert false;
    }
  }

  /** An index out of range finds no element. */
  lemma {:induction false} LocateBeyond<T>(c: Chain<T>, index: nat)
    requires WellFormed(c) && |Flat(c)| <= index
    ensures var p := Locate(c, index); p.At? ==> |c[p.page].items| <= p.slot
  {
    var p := Locate(c, index);
    LocateSplits(c, index);
    if p.At? && p.slot < |c[p.page].items| {
      FullPrefix(c[..p.page]);
      FlatAround(c, p.page);
      assert false;
    }
  }

  /** The page found for the element count has its own count as the slot, so it has room. */
  lemma {:induction false} LocateEnd<T>(c: Chain<T>)
    requires WellFormed(c)
    ensures var p := Locate(c, |Flat(c)|);
      && |Flat(c)| <= Capacity(c)
      && (p.At? <==> |Flat(c)| < Capacity(c))
      && (p.At? ==> p.slot == |c[p.page].items| && forall k | p.page < k < |c| :: c[k].items == [])
  {
    var p := Locate(c, |Flat(c)|);
    LocateSplits(c, |Flat(c)|);
    FlatAtMostCapacity(c);
    if p.At? {
      FullBefore(c, |Flat(c)|);
      FlatAround(c, p.page);
      LocateBeyond(c, |Flat(c)|);
      forall k | p.page < k < |c| ensures c[k].items == [] {
        if |c[k].items| > 0 { assert false; }
      }
      EmptyAfter(c, p.page + 1);
      FlatAtMostCapacity(c[..p.page]);
      FlatAtMostCapacity(c[p.page + 1..]);
    }
  }

  lemma {:induction false} PartOf<T>(c: Chain<T>, k: nat)
    requires k < |c|
    ensures |c[k].items| <= |Flat(c)| && c[k].capacity <= Capacity(c)
  {
    FlatAround(c, k);
  }

  // ---- what the operations do to the chain ----

  /** Add: into the page found for the element count, or into a new page of `grow` slots. */
  function Added<T>(c: Chain<T>, x: T, grow: nat): Chain<T> {
    match Locate(c, |Flat(c)|)
    case Nowhere => c + [PageView([x], grow)]
    case At(k, _) => c[k := PageView(c[k].items + [x], c[k].capacity)]
  }

  function AddedAll<T>(c: Chain<T>, xs: seq<T>, grow: nat): Chain<T>
    decreases |xs|
  {
    if xs == [] then c else AddedAll(Added(c, xs[0], grow), xs[1..], grow)
  }

  /** Write: into the located slot when it is in use. */
  function Written<T>(c: Chain<T>, index: nat, x: T): Chain<T> {
    match Locate(c, index)
    case Nowhere => c
    case At(k, r) =>
      if |c[k].items| <= r then c else c[k := PageView(c[k].items[r := x], c[k].capacity)]
  }

  /** Read: the located slot when it is in use. */
  function ReadAt<T>(c: Chain<T>, index: nat): (r: seq<T>)
    ensures |r| <= 1
  {
    match Locate(c, index)
    case Nowhere => []
    case At(k, r) => if |c[k].items| <= r then [] else [c[k].items[r]]
  }

  predicate Followed<T>(c: Chain<T>, k: nat) {
    k + 1 < |c| && 0 < |c[k + 1].items|
  }

  /**
   Remove from page k. A page that is followed by a non-empty page loses the slot as well,
   and goes away with its last slot; any other page keeps its slots.
   */
  function RemovedFrom<T>(c: Chain<T>, k: nat, r: nat): Chain<T>
    requires k < |c| && r < |c[k].items|
  {
    var rest := WithoutAt(c[k].items, r);
    if Followed(c, k) then
      if rest == [] then c[..k] + c[k + 1..] else c[k := PageView(rest, |rest|)]
    else c[k := PageView(rest, c[k].capacity)]
  }

  function Removed<T>(c: Chain<T>, index: nat): Chain<T> {
    match Locate(c, index)
    case Nowhere => c
    case At(k, r) => if |c[k].items| <= r then c else RemovedFrom(c, k, r)
  }

  function Cleared<T>(c: Chain<T>): (r: Chain<T>)
    ensures |r| == |c|
    ensures forall k | 0 <= k < |c| :: r[k] == PageView([], c[k].capacity)
  {
    if c == [] then [] else [PageView([], c[0].capacity)] + Cleared(c[1..])
  }

  /** The free slots of the page found for the element count. */
  function FreeHere<T>(c: Chain<T>): nat {
    match Locate(c, |Flat(c)|)
    case Nowhere => 0
    case At(k, _) => if |c[k].items| <= c[k].capacity then c[k].capacity - |c[k].items| else 0
  }

  /** Reserve: the free slots of the page found for the element count are used first. */
  function Reserved<T>(c: Chain<T>, n: nat): Chain<T> {
    if n <= FreeHere(c) then c else c + [PageView([], n - FreeHere(c))]
  }

  /** Trim: drop empty pages from the end, then cut the last page to its count. */
  function Trimmed<T>(c: Chain<T>): Chain<T> {
    if c == [] then c
    else
      var last := c[|c| - 1];
      if |last.items| == last.capacity then c
      else if last.items == [] then Trimmed(c[..|c| - 1])
      else c[|c| - 1 := PageView(last.items, |last.items|)]
  }

  /** MakeContiguous: one page with the whole capacity. */
  function Contiguous<T>(c: Chain<T>): Chain<T> {
    [PageView(Flat(c), Capacity(c))]
  }

  // ---- every operation keeps the shape and acts as on a plain sequence ----

  /** Replacing a page keeps the shape when the new page fits between its neighbours. */
  lemma {:induction false} UpdateKeepsShape<T>(c: Chain<T>, k: nat, p: PageView<T>)
    requires WellFormed(c) && k < |c|
    requires 0 < p.capacity && |p.items| <= p.capacity
    requires 0 < |p.items| ==> forall j | 0 <= j < k :: |c[j].items| == c[j].capacity
    requires |p.items| < p.capacity ==> forall j | k < j < |c| :: c[j].items == []
    ensures WellFormed(c[k := p])
  {
  }

  /** No page was created, dropped or resized. */
  ghost predicate SamePages<T>(c: Chain<T>, was: Chain<T>) {
    |c| == |was| && forall k | 0 <= k < |c| :: c[k].capacity == was[k].capacity
  }

  lemma {:induction false} AddNewPage<T>(c: Chain<T>, x: T, grow: nat)
    requires WellFormed(c) && |Flat(c)| == Capacity(c) && 0 < grow
    ensures var d := c + [PageView([x], grow)];
      WellFormed(d) && Flat(d) == Flat(c) + [x] && Capacity(d) == Capacity(c) + grow
  {
    AllFull(c);
    var last := [PageView([x], grow)];
    FlatConcat(c, last);
    assert last[1..] == [];
    assert Flat(last) == [x] + [];
  }

  lemma {:induction false} AddIntoPage<T>(c: Chain<T>, k: nat, x: T)
    requires WellFormed(c) && k < |c| && |c[k].items| < c[k].capacity
    requires forall j | 0 <= j < k :: |c[j].items| == c[j].capacity
    ensures var d := c[k := PageView(c[k].items + [x], c[k].capacity)];
      WellFormed(d) && Flat(d) == Flat(c) + [x] && Capacity(d) == Capacity(c)
  {
    hide Flat, Capacity;
    var p := PageView(c[k].items + [x], c[k].capacity);
    assert forall j | k < j < |c| :: c[j].items == [];
    UpdateKeepsShape(c, k, p);
    hide WellFormed;
    FlatAround(c, k);
    FlatUpdate(c, k, p);
    EmptyAfter(c, k + 1);
    LastItem(Flat(c[..k]), c[k].items, x);
  }

  lemma LastItem<T>(a: seq<T>, b: seq<T>, x: T)
    ensures a + (b + [x]) + [] == (a + b + []) + [x]
  {
  }

  lemma {:induction false} AddKeeps<T>(c: Chain<T>, x: T, grow: nat)
    requires WellFormed(c) && (|Flat(c)| < Capacity(c) || 0 < grow)
    ensures WellFormed(Added(c, x, grow))
    ensures Flat(Added(c, x, grow)) == Flat(c) + [x]
    ensures Capacity(Added(c, x, grow)) == Capacity(c) + (if |Flat(c)| < Capacity(c) then 0 else grow)
    ensures |Flat(c)| < Capacity(c) ==> SamePages(Added(c, x, grow), c)
  {
    LocateEnd(c);
    match Locate(c, |Flat(c)|)
    case Nowhere =>
      FlatAtMostCapacity(c);
      AddNewPage(c, x, grow);
    case At(k, r) =>
      FullBefore(c, |Flat(c)|);
      AddIntoPage(c, k, x);
  }

  /** A well-formed chain without free slots has only full pages. */
  lemma {:induction false} AllFull<T>(c: Chain<T>)
    requires WellFormed(c) && |Flat(c)| == Capacity(c)
    ensures forall k | 0 <= k < |c| :: |c[k].items| == c[k].capacity
  {
    forall k | 0 <= k < |c| ensures |c[k].items| == c[k].capacity {
      FlatAround(c, k);
      FlatAtMostCapacity(c[..k]);
      FlatAtMostCapacity(c[k + 1..]);
    }
  }

  lemma {:induction false} AddAllKeeps<T>(c: Chain<T>, xs: seq<T>, grow: nat)
    requires WellFormed(c) && 0 < grow
    ensures WellFormed(AddedAll(c, xs, grow))
    ensures Flat(AddedAll(c, xs, grow)) == Flat(c) + xs
    decreases |xs|
  {
    hide Flat, Capacity, WellFormed, Added;
    if xs == [] {
      assert Flat(c) + xs == Flat(c);
    } else {
      AddKeeps(c, xs[0], grow);
      AddAllKeeps(Added(c, xs[0], grow), xs[1..], grow);
      assert Flat(c) + [xs[0]] + xs[1..] == Flat(c) + xs;
    }
  }

  lemma {:induction false} WriteIntoPage<T>(c: Chain<T>, k: nat, r: nat, x: T)
    requires WellFormed(c) && k < |c| && r < |c[k].items|
    ensures var d := c[k := PageView(c[k].items[r := x], c[k].capacity)];
      && WellFormed(d) && Capacity(d) == Capacity(c)
      && |Flat(c[..k])| + r < |Flat(c)|
      && Flat(d) == Flat(c)[|Flat(c[..k])| + r := x]
  {
    var p := PageView(c[k].items[r := x], c[k].capacity);
    UpdateKeepsShape(c, k, p);
    FlatAround(c, k);
    FlatUpdate(c, k, p);
  }

  lemma {:induction false} WriteKeeps<T>(c: Chain<T>, index: nat, x: T)
    requires WellFormed(c)
    ensures WellFormed(Written(c, index, x))
    ensures Flat(Written(c, index, x)) == if index < |Flat(c)| then Flat(c)[index := x] else Flat(c)
    ensures Capacity(Written(c, index, x)) == Capacity(c)
  {
    if index < |Flat(c)| {
      LocateElement(c, index);
      LocateSplits(c, index);
      FullBefore(c, index);
      WriteIntoPage(c, Locate(c, index).page, Locate(c, index).slot, x);
    } else {
      LocateBeyond(c, index);
    }
  }

  /** Read succeeds exactly below the element count, and gives that element. */
  lemma {:induction false} ReadRefines<T>(c: Chain<T>, index: nat)
    requires WellFormed(c)
    ensures ReadAt(c, index) == if index < |Flat(c)| then [Flat(c)[index]] else []
  {
    if index < |Flat(c)| { LocateElement(c, index); } else { LocateBeyond(c, index); }
  }

  lemma {:induction false} RemoveFromKeepsShape<T>(c: Chain<T>, k: nat, r: nat)
    requires WellFormed(c) && k < |c| && r < |c[k].items|
    ensures WellFormed(RemovedFrom(c, k, r))
  {
  }

  lemma {:induction false} RemoveFromPage<T>(c: Chain<T>, k: nat, r: nat)
    requires WellFormed(c) && k < |c| && r < |c[k].items|
    ensures var d := RemovedFrom(c, k, r);
      && WellFormed(d)
      && Capacity(d) == Capacity(c) - (if Followed(c, k) then 1 else 0)
      && |Flat(c[..k])| + r < |Flat(c)|
      && Flat(d) == WithoutAt(Flat(c), |Flat(c[..k])| + r)
  {
    hide Flat, Capacity, RemovedFrom, WithoutAt;
    RemoveFromKeepsShape(c, k, r);
    FullWhenFollowed(c, k);
    FlatAround(c, k);
    WithoutMiddle(Flat(c[..k]), c[k].items, Flat(c[k + 1..]), r);
    RemoveFromPageParts(c, k, r);
  }

  lemma {:induction false} RemoveFromPageParts<T>(c: Chain<T>, k: nat, r: nat)
    requires k < |c| && r < |c[k].items| <= c[k].capacity
    requires Followed(c, k) ==> |c[k].items| == c[k].capacity
    ensures var d := RemovedFrom(c, k, r);
      && Capacity(d) == Capacity(c) - (if Followed(c, k) then 1 else 0)
      && Flat(d) == Flat(c[..k]) + WithoutAt(c[k].items, r) + Flat(c[k + 1..])
  {
    hide Flat, Capacity;
    var rest := WithoutAt(c[k].items, r);
    FlatAround(c, k);
    FlatUpdate(c, k, PageView(rest, c[k].capacity));
    FlatUpdate(c, k, PageView(rest, |rest|));
    FlatConcat(c[..k], c[k + 1..]);
  }

  lemma {:induction false} WithoutMiddle<T>(a: seq<T>, b: seq<T>, z: seq<T>, r: nat)
    requires r < |b|
    ensures WithoutAt(a + b + z, |a| + r) == a + WithoutAt(b, r) + z
  {
  }

  lemma {:induction false} FullWhenFollowed<T>(c: Chain<T>, k: nat)
    requires WellFormed(c) && k < |c|
    ensures Followed(c, k) ==> |c[k].items| == c[k].capacity
  {
  }

  /** Remove deletes exactly the indexed element and nothing else. */
  lemma {:induction false} RemoveKeeps<T>(c: Chain<T>, index: nat)
    requires WellFormed(c)
    ensures WellFormed(Removed(c, index))
    ensures Flat(Removed(c, index)) == if index < |Flat(c)| then WithoutAt(Flat(c), index) else Flat(c)
    ensures var p := Locate(c, index);
      Capacity(Removed(c, index)) ==
        Capacity(c) - (if index < |Flat(c)| && p.At? && Followed(c, p.page) then 1 else 0)
  {
    if index < |Flat(c)| {
      LocateElement(c, index);
      LocateSplits(c, index);
      FullBefore(c, index);
      var k, r := Locate(c, index).page, Locate(c, index).slot;
      RemoveFromPage(c, k, r);
    } else {
      LocateBeyond(c, index);
    }
  }

  lemma {:induction false} ClearKeeps<T>(c: Chain<T>)
    requires WellFormed(c)
    ensures WellFormed(Cleared(c)) && Flat(Cleared(c)) == [] && Capacity(Cleared(c)) == Capacity(c)
  {
    EmptySuffix(Cleared(c));
    ClearCapacity(c);
  }

  lemma {:induction false} ClearCapacity<T>(c: Chain<T>)
    ensures Capacity(Cleared(c)) == Capacity(c)
  {
    if c != [] { ClearCapacity(c[1..]); }
  }

  lemma {:induction false} EmptyPage<T>(n: nat)
    ensures var c: Chain<T> := [PageView([], n)]; Flat(c) == [] && Capacity(c) == n
  {
  }

  lemma {:induction false} ReserveNewPage<T>(c: Chain<T>, n: nat)
    requires WellFormed(c) && 0 < n
    ensures var d := c + [PageView([], n)];
      WellFormed(d) && Flat(d) == Flat(c) && Capacity(d) == Capacity(c) + n
  {
    hide Flat, Capacity;
    FlatConcat(c, [PageView([], n)]);
    EmptyPage<T>(n);
    assert Flat(c) + [] == Flat(c);
  }

  lemma {:induction false} FreeHereFits<T>(c: Chain<T>)
    requires WellFormed(c)
    ensures |Flat(c)| + FreeHere(c) <= Capacity(c)
  {
    hide Flat, Capacity;
    LocateEnd(c);
    FlatAtMostCapacity(c);
    match Locate(c, |Flat(c)|)
    case Nowhere =>
    case At(k, _) =>
      LocateSplits(c, |Flat(c)|);
      CapacityAround(c, k);
  }

  /** Reserve changes no element and leaves at least n free slots. */
  lemma {:induction false} ReserveKeeps<T>(c: Chain<T>, n: nat)
    requires WellFormed(c)
    ensures WellFormed(Reserved(c, n)) && Flat(Reserved(c, n)) == Flat(c)
    ensures Capacity(c) <= Capacity(Reserved(c, n)) <= Capacity(c) + n
    ensures |Flat(c)| + n <= Capacity(Reserved(c, n))
  {
    hide Flat, Capacity, WellFormed, FreeHere;
    var free := FreeHere(c);
    FreeHereFits(c);
    if free < n { ReserveNewPage(c, n - free); }
  }

  /** Adding elements that fit in the free slots creates no page and resizes none. */
  lemma {:induction false} AddAllInPlace<T>(c: Chain<T>, xs: seq<T>, grow: nat)
    requires WellFormed(c) && |Flat(c)| + |xs| <= Capacity(c)
    ensures Flat(AddedAll(c, xs, grow)) == Flat(c) + xs
    ensures SamePages(AddedAll(c, xs, grow), c)
    decreases |xs|
  {
    hide Flat, Capacity, WellFormed, Added;
    if xs == [] {
      assert Flat(c) + xs == Flat(c);
    } else {
      AddKeeps(c, xs[0], grow);
      AddAllInPlace(Added(c, xs[0], grow), xs[1..], grow);
      assert Flat(c) + [xs[0]] + xs[1..] == Flat(c) + xs;
    }
  }

  /** After Reserve(n) the next n Adds create no page, whatever the grow size. */
  lemma {:induction false} ReserveThenAdd<T>(c: Chain<T>, n: nat, xs: seq<T>, grow: nat)
    requires WellFormed(c) && |xs| <= n
    ensures var r := Reserved(c, n); var d := AddedAll(r, xs, grow);
      Flat(d) == Flat(c) + xs && SamePages(d, r)
  {
    ReserveKeeps(c, n);
    AddAllInPlace(Reserved(c, n), xs, grow);
  }

  /** Trim keeps the elements and leaves no free slot at all. */
  lemma {:induction false} TrimKeeps<T>(c: Chain<T>)
    requires WellFormed(c)
    ensures WellFormed(Trimmed(c)) && Flat(Trimmed(c)) == Flat(c)
    ensures Capacity(Trimmed(c)) == |Flat(c)|
  {
    hide Flat, Capacity;
    NothingInNone<T>();
    if c != [] {
      var n := |c| - 1;
      if |c[n].items| == c[n].capacity {
        FullPrefix(c);
      } else if c[n].items == [] {
        EmptyEnd(c);
        TrimKeeps(c[..n]);
      } else {
        CutEnd(c);
        FullPrefix(Trimmed(c));
      }
    }
  }

  lemma NothingInNone<T>()
    ensures var c: Chain<T> := []; Flat(c) == [] && Capacity(c) == 0
  {
  }

  /** An empty page at the end shows nothing. */
  lemma {:induction false} EmptyEnd<T>(c: Chain<T>)
    requires WellFormed(c) && c != [] && c[|c| - 1].items == []
    ensures WellFormed(c[..|c| - 1]) && Flat(c[..|c| - 1]) == Flat(c)
  {
    hide Flat, Capacity;
    FlatAround(c, |c| - 1);
    NothingInNone<T>();
    assert c[|c| - 1 + 1..] == [];
    assert Flat(c[..|c| - 1]) + [] + [] == Flat(c[..|c| - 1]);
  }

  /** Cutting the last page to its count shows the same, and shapes the chain well. */
  lemma {:induction false} CutEnd<T>(c: Chain<T>)
    requires WellFormed(c) && c != [] && 0 < |c[|c| - 1].items|
    ensures var d := c[|c| - 1 := PageView(c[|c| - 1].items, |c[|c| - 1].items|)];
      WellFormed(d) && Flat(d) == Flat(c) && forall k | 0 <= k < |d| :: |d[k].items| == d[k].capacity
  {
    hide Flat, Capacity;
    FlatAround(c, |c| - 1);
    FlatUpdate(c, |c| - 1, PageView(c[|c| - 1].items, |c[|c| - 1].items|));
  }

  /** One round of the trimming loop, from the last page. */
  lemma {:induction false} TrimStep<T>(c: Chain<T>)
    requires WellFormed(c) && c != []
    ensures var n := |c| - 1; var last := c[n];
      && (last.items == [] ==>
            && WellFormed(c[..n] + c[n + 1..]) && Trimmed(c[..n] + c[n + 1..]) == Trimmed(c)
            && Flat(c[..n] + c[n + 1..]) == Flat(c)
            && Capacity(c[..n] + c[n + 1..]) == Capacity(c) - last.capacity)
      && (0 < |last.items| < last.capacity ==>
            var d := c[n := PageView(last.items[..|last.items|], |last.items|)];
            && d == Trimmed(c)
            && Capacity(d) == Capacity(c) - (last.capacity - |last.items|))
  {
    var n := |c| - 1;
    assert c[..n] + c[n + 1..] == c[..n];
    FlatAround(c, n);
    CapacityAround(c, n);
    FlatUpdate(c, n, PageView(c[n].items, |c[n].items|));
    assert c[n].items[..|c[n].items|] == c[n].items;
  }

  lemma {:induction false} ContiguousKeeps<T>(c: Chain<T>)
    requires WellFormed(c) && 0 < Capacity(c)
    ensures WellFormed(Contiguous(c))
    ensures Flat(Contiguous(c)) == Flat(c) && Capacity(Contiguous(c)) == Capacity(c)
  {
    FlatAtMostCapacity(c);
    assert Contiguous(c)[1..] == [];
  }

  /** Hanging a chain behind a trimmed one reads as the one followed by the other. */
  lemma {:induction false} AppendKeeps<T>(c: Chain<T>, d: Chain<T>)
    requires WellFormed(c) && WellFormed(d)
    ensures WellFormed(Trimmed(c) + d)
    ensures Flat(Trimmed(c) + d) == Flat(c) + Flat(d)
    ensures Capacity(Trimmed(c) + d) == |Flat(c)| + Capacity(d)
  {
    TrimKeeps(c);
    AllFull(Trimmed(c));
    FlatConcat(Trimmed(c), d);
  }

  // ---- what becomes of which page ----

  /** Page k is the first one with a free slot, or there is none. */
  ghost predicate FirstFree<T>(c: Chain<T>, k: nat) {
    && k <= |c| && (forall j | 0 <= j < k :: |c[j].items| == c[j].capacity)
    && (k < |c| ==> |c[k].items| < c[k].capacity)
  }

  /** The page found for the element count is the first one with a free slot. */
  lemma {:induction false} FreeIsLocated<T>(c: Chain<T>, k: nat)
    requires WellFormed(c) && FirstFree(c, k)
    ensures Locate(c, |Flat(c)|) == if k < |c| then At(k, |c[k].items|) else Nowhere
  {
    hide Flat, Capacity;
    LocateEnd(c);
    if k == |c| {
      FullPrefix(c);
    } else {
      assert forall j | 0 <= j < k :: c[..k][j] == c[j];
      FullPrefix(c[..k]);
      FlatAround(c, k);
      EmptyAfter(c, k + 1);
      LocateAt(c, k, |c[k].items|);
    }
  }

  /** Add puts the element into the first page with a free slot, or into a new page behind all others. */
  lemma AddedWhere<T>(c: Chain<T>, x: T, grow: nat, k: nat)
    requires WellFormed(c) && FirstFree(c, k)
    ensures Added(c, x, grow) ==
      if k < |c| then c[k := PageView(c[k].items + [x], c[k].capacity)] else c + [PageView([x], grow)]
  {
    hide Flat, Locate;
    FreeIsLocated(c, k);
  }

  /** Reserve opens a page only for what the first page with a free slot has no room for. */
  lemma ReservedWhere<T>(c: Chain<T>, n: nat, k: nat)
    requires WellFormed(c) && FirstFree(c, k)
    ensures var free := if k < |c| then c[k].capacity - |c[k].items| else 0;
      Reserved(c, n) == if n <= free then c else c + [PageView([], n - free)]
  {
    hide Flat, Locate;
    FreeIsLocated(c, k);
  }

  /** An element of page k is found there. */
  lemma {:induction false} ElementIsLocated<T>(c: Chain<T>, k: nat, r: nat)
    requires WellFormed(c) && k < |c| && r < |c[k].items|
    ensures Locate(c, |Flat(c[..k])| + r) == At(k, r)
  {
    hide Flat, Capacity;
    assert forall j | 0 <= j < k :: c[..k][j] == c[j];
    FullPrefix(c[..k]);
    LocateAt(c, k, r);
  }

  /** Write touches one slot of one page. */
  lemma WrittenWhere<T>(c: Chain<T>, k: nat, r: nat, x: T)
    requires WellFormed(c) && k < |c| && r < |c[k].items|
    ensures Written(c, |Flat(c[..k])| + r, x) == c[k := PageView(c[k].items[r := x], c[k].capacity)]
  {
    hide Flat, Locate;
    ElementIsLocated(c, k, r);
  }

  /** Remove touches one page: it loses the slot, or goes away, only if elements follow in the next one. */
  lemma RemovedWhere<T>(c: Chain<T>, k: nat, r: nat)
    requires WellFormed(c) && k < |c| && r < |c[k].items|
    ensures var rest := c[k].items[..r] + c[k].items[r + 1..];
      var slots := if k + 1 < |c| && c[k + 1].items != [] then |rest| else c[k].capacity;
      Removed(c, |Flat(c[..k])| + r) == if slots == 0 then c[..k] + c[k + 1..] else c[k := PageView(rest, slots)]
  {
    hide Flat, Locate;
    ElementIsLocated(c, k, r);
  }

  /** Trim keeps the pages up to the last one with elements, each cut to its elements. */
  lemma {:induction false} TrimmedWhere<T>(c: Chain<T>)
    requires WellFormed(c)
    ensures var t := Trimmed(c);
      && |t| <= |c| && (forall k | 0 <= k < |t| :: t[k] == PageView(c[k].items, |c[k].items|))
      && (forall k | 0 <= k < |t| :: c[k].items != []) && (forall k | |t| <= k < |c| :: c[k].items == [])
    decreases |c|
  {
    if c != [] && |c[|c| - 1].items| != c[|c| - 1].capacity && c[|c| - 1].items == [] {
      TrimmedWhere(c[..|c| - 1]);
    }
  }

  // ---- whole runs ----

  datatype Op<T> =
    | Add(x: T, grow: nat)
    | AddRange(xs: seq<T>, grow: nat)
    | Write(index: nat, x: T)
    | Remove(index: nat)
    | Clear
    | Reserve(n: nat)
    | Trim
    | MakeContiguous

  /** What the caller must meet: a grow size for a new page, slots before MakeContiguous. */
  ghost predicate Allowed<T>(c: Chain<T>, op: Op<T>) {
    match op
    case Add(_, grow) => 0 < grow
    case AddRange(_, grow) => 0 < grow
    case MakeContiguous => 0 < Capacity(c)
    case _ => true
  }

  function Apply<T>(c: Chain<T>, op: Op<T>): Chain<T> {
    match op
    case Add(x, grow) => Added(c, x, grow)
    case AddRange(xs, grow) => AddedAll(c, xs, grow)
    case Write(index, x) => Written(c, index, x)
    case Remove(index) => Removed(c, index)
    case Clear => Cleared(c)
    case Reserve(n) => Reserved(c, n)
    case Trim => Trimmed(c)
    case MakeContiguous => Contiguous(c)
  }

  /** The same operations on a plain sequence. */
  function ApplyPlain<T>(s: seq<T>, op: Op<T>): seq<T> {
    match op
    case Add(x, _) => s + [x]
    case AddRange(xs, _) => s + xs
    case Write(index, x) => if index < |s| then s[index := x] else s
    case Remove(index) => if index < |s| then WithoutAt(s, index) else s
    case Clear => []
    case _ => s
  }

  ghost predicate RunAllowed<T>(c: Chain<T>, ops: seq<Op<T>>)
    decreases |ops|
  {
    ops == [] || (Allowed(c, ops[0]) && RunAllowed(Apply(c, ops[0]), ops[1..]))
  }

  function Run<T>(c: Chain<T>, ops: seq<Op<T>>): Chain<T>
    decreases |ops|
  {
    if ops == [] then c else Run(Apply(c, ops[0]), ops[1..])
  }

  function RunPlain<T>(s: seq<T>, ops: seq<Op<T>>): seq<T>
    decreases |ops|
  {
    if ops == [] then s else RunPlain(ApplyPlain(s, ops[0]), ops[1..])
  }

  lemma {:induction false} ApplyRefines<T>(c: Chain<T>, op: Op<T>)
    requires WellFormed(c) && Allowed(c, op)
    ensures WellFormed(Apply(c, op)) && Flat(Apply(c, op)) == ApplyPlain(Flat(c), op)
  {
    hide Flat, Capacity, WellFormed, Added, AddedAll, Written, Removed, Cleared, Reserved, Trimmed, Contiguous;
    match op
    case Add(x, grow) => AddKeeps(c, x, grow);
    case AddRange(xs, grow) => AddAllKeeps(c, xs, grow);
    case Write(index, x) => WriteKeeps(c, index, x);
    case Remove(index) => RemoveKeeps(c, index);
    case Clear => ClearKeeps(c);
    case Reserve(n) => ReserveKeeps(c, n);
    case Trim => TrimKeeps(c);
    case MakeContiguous => ContiguousKeeps(c);
  }

  /** Over every run the chain keeps its shape and reads as the plain sequence would. */
  lemma {:induction false} RunRefines<T>(c: Chain<T>, ops: seq<Op<T>>)
    requires WellFormed(c) && RunAllowed(c, ops)
    ensures WellFormed(Run(c, ops)) && Flat(Run(c, ops)) == RunPlain(Flat(c), ops)
    decreases |ops|
  {
    if ops != [] {
      ApplyRefines(c, ops[0]);
      RunRefines(Apply(c, ops[0]), ops[1..]);
    }
  }

  // ---- a chain cut in the middle ----

  /** A page with elements somewhere behind it is full. */
  lemma BehindFull<T>(c: Chain<T>, n: nat)
    requires WellFormed(c) && n < |c| && 0 < |Flat(c[n + 1..])|
    ensures c[n].Count() == c[n].capacity
  {
    hide Flat;
    if forall k | n + 1 <= k < |c| :: c[k].items == [] { EmptyAfter(c, n + 1); }
  }

  /** With elements behind the n-th page, the pages up to it and another chain are not all of both. */
  lemma AppendLoses<T>(c: Chain<T>, n: nat, d: Chain<T>)
    requires n <= |c| && 0 < |Flat(c[n..])|
    ensures Flat(c[..n] + d) == Flat(c[..n]) + Flat(d)
    ensures Flat(c[..n]) + Flat(d) != Flat(c) + Flat(d)
  {
    assert c == c[..n] + c[n..];
    FlatConcat(c[..n], c[n..]);
    FlatConcat(c[..n], d);
    assert |Flat(c)| == |Flat(c[..n])| + |Flat(c[n..])|;
    assert |Flat(c) + Flat(d)| == |Flat(c)| + |Flat(d)|;
  }

  /** With elements behind the n-th page, the pages up to it and one more element are not all elements and it. */
  lemma {:induction false} CutLoses<T>(c: Chain<T>, n: nat, x: T, grow: nat)
    requires n <= |c| && 0 < |Flat(c[n..])|
    ensures Flat(c[..n] + [PageView([x], grow)]) == Flat(c[..n]) + [x]
    ensures Flat(c[..n]) + [x] != Flat(c) + [x]
  {
    AppendLoses(c, n, [PageView([x], grow)]);
  }
}
