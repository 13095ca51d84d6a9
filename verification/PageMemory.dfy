/**
 The memory behind the paged dynamic array: page records at addresses, linked both ways.
 Reading through a pointer needs a live page at that address, so an access to a freed page
 cannot be written.
 */
module PageMemory {
  import opened Addresses
  import opened PageChain

  /** The bytes of one element, as one number; zeroed memory is the number 0. */
  type Element = int

  datatype Page = Page(data: seq<Element>, count: nat, capacity: nat, next: Ptr, prev: Ptr) {
    predicate Sized() {
      count <= capacity == |data|
    }

    function View(): PageView<Element>
      requires Sized()
    {
      PageView(data[..count], capacity)
    }
  }

  type Memory = map<Ptr, Page>

  /** The k-th address of a list, or no page on either side of it. */
  function AddressAt(order: seq<Ptr>, k: int): Ptr {
    if 0 <= k < |order| then order[k] else NULL
  }

  ghost predicate Distinct(order: seq<Ptr>) {
    forall j, k | 0 <= j < k < |order| :: order[j] != order[k]
  }

  ghost predicate Live(m: Memory, order: seq<Ptr>) {
    forall k | 0 <= k < |order| :: order[k] != NULL && order[k] in m
  }

  /** `order` lists the pages of `m`, each once. */
  ghost predicate Lists(m: Memory, order: seq<Ptr>) {
    && Live(m, order)
    && Distinct(order)
    && (forall p {:trigger m[p]} | p in m :: p in order && m[p].Sized())
  }

  /** Following `next` walks `order` forwards, following `prev` walks it backwards. */
  ghost predicate Linked(m: Memory, order: seq<Ptr>)
    requires Live(m, order)
  {
    && (order != [] ==> m[order[0]].prev == NULL && m[order[|order| - 1]].next == NULL)
    && (forall j, k | 0 <= j < k < |order| && k == j + 1 ::
          m[order[j]].next == order[k] && m[order[k]].prev == order[j])
  }

  ghost predicate Chained(m: Memory, order: seq<Ptr>) {
    Lists(m, order) && Linked(m, order)
  }

  ghost function ChainOf(m: Memory, order: seq<Ptr>): (c: Chain<Element>)
    requires Lists(m, order)
    ensures |c| == |order|
    ensures forall k | 0 <= k < |order| :: c[k] == m[order[k]].View()
  {
    seq(|order|, k requires 0 <= k < |order| => m[order[k]].View())
  }

  /** Both ends of the list are null exactly when it is empty. */
  lemma Ends(m: Memory, order: seq<Ptr>)
    requires Lists(m, order)
    ensures AddressAt(order, 0) == NULL <==> order == []
    ensures AddressAt(order, |order| - 1) == NULL <==> order == []
    ensures order != [] ==> AddressAt(order, 0) in m && AddressAt(order, |order| - 1) in m
  {
  }

  /** The record of page k and what the chain shows of it. */
  lemma PageFacts(m: Memory, order: seq<Ptr>, k: nat)
    requires Lists(m, order) && k < |order|
    ensures order[k] != NULL && order[k] in m && m[order[k]].Sized()
    ensures m[order[k]].View() == ChainOf(m, order)[k]
  {
  }

  ghost predicate Adjacent(m: Memory, order: seq<Ptr>, i: nat)
    requires Live(m, order)
  {
    i + 1 < |order| ==> m[order[i]].next == order[i + 1] && m[order[i + 1]].prev == order[i]
  }

  ghost predicate OpenEnds(m: Memory, order: seq<Ptr>)
    requires Live(m, order)
  {
    order != [] ==> m[order[0]].prev == NULL && m[order[|order| - 1]].next == NULL
  }

  lemma LinkedBySteps(m: Memory, order: seq<Ptr>)
    requires Live(m, order) && OpenEnds(m, order)
    requires forall i: nat :: Adjacent(m, order, i)
    ensures Linked(m, order)
  {
    forall j, k | 0 <= j < k < |order| && k == j + 1
      ensures m[order[j]].next == order[k] && m[order[k]].prev == order[j]
    {
      assert Adjacent(m, order, j);
    }
  }

  /** Two page lists show the same chain when they agree position by position. */
  lemma SameViews(m: Memory, order: seq<Ptr>, c: Chain<Element>)
    requires Lists(m, order) && |c| == |order|
    requires forall k | 0 <= k < |order| :: m[order[k]].View() == c[k]
    ensures ChainOf(m, order) == c
  {
  }

  /** Memory after the page at p is hung behind the last page. */
  function Hung(m: Memory, last: Ptr, p: Ptr, page: Page): Memory
    requires last != NULL ==> last in m
  {
    var m0 := m[p := page];
    if last == NULL then m0 else m0[last := m[last].(next := p)]
  }

  /** Storing the bare page first makes no difference. */
  lemma HungTwice(m: Memory, last: Ptr, p: Ptr, bare: Page, page: Page)
    requires last != NULL ==> last in m
    requires p != last
    ensures Hung(m[p := bare], last, p, page) == Hung(m, last, p, page)
  {
    assert m[p := bare][p := page] == m[p := page];
  }

  /** Writing to the page that was hung is hanging what was written. */
  lemma HungWritten(m: Memory, last: Ptr, p: Ptr, page: Page, written: Page)
    requires last != NULL ==> last in m
    requires p != last && written.next == page.next
    ensures p in Hung(m, last, p, page) && Hung(m, last, p, page)[p] == page
    ensures Hung(m, last, p, page)[p := written] == Hung(m, last, p, written)
  {
    assert m[p := page][p := written] == m[p := written];
  }

  lemma HungLists(m: Memory, order: seq<Ptr>, p: Ptr, page: Page)
    requires Chained(m, order) && p != NULL && p !in m && page.Sized()
    ensures var last := AddressAt(order, |order| - 1);
      (last == NULL || last in m) && Lists(Hung(m, last, p, page), order + [p])
  {
    var o1 := order + [p];
    assert forall k | 0 <= k < |order| :: o1[k] == order[k];
    assert o1[|order|] == p;
  }

  /** Hanging a page behind the last one adds its view to the chain. */
  lemma HungKeeps(m: Memory, order: seq<Ptr>, p: Ptr, page: Page)
    requires Chained(m, order) && p != NULL && p !in m && page.Sized()
    requires page.next == NULL && page.prev == AddressAt(order, |order| - 1)
    ensures var last := AddressAt(order, |order| - 1);
      && (last == NULL || last in m)
      && Chained(Hung(m, last, p, page), order + [p])
      && ChainOf(Hung(m, last, p, page), order + [p]) == ChainOf(m, order) + [page.View()]
  {
    hide Hung, Distinct, Linked, Lists;
    HungAt(m, order, p, page);
    HungLists(m, order, p, page);
    HungLinked(m, order, p, page);
    HungViews(m, order, p, page);
  }

  lemma HungViews(m: Memory, order: seq<Ptr>, p: Ptr, page: Page)
    requires Chained(m, order) && p != NULL && p !in m && page.Sized()
    requires AddressAt(order, |order| - 1) == NULL || AddressAt(order, |order| - 1) in m
    requires Lists(Hung(m, AddressAt(order, |order| - 1), p, page), order + [p])
    ensures ChainOf(Hung(m, AddressAt(order, |order| - 1), p, page), order + [p])
      == ChainOf(m, order) + [page.View()]
  {
    hide Hung, Distinct, Linked;
    HungAt(m, order, p, page);
    var m1, o1 := Hung(m, AddressAt(order, |order| - 1), p, page), order + [p];
    forall k | 0 <= k < |o1| ensures m1[o1[k]].View() == (ChainOf(m, order) + [page.View()])[k] {
      if k < |order| { assert o1[k] == order[k]; } else { assert o1[k] == p; }
    }
    SameViews(m1, o1, ChainOf(m, order) + [page.View()]);
  }

  lemma HungLinked(m: Memory, order: seq<Ptr>, p: Ptr, page: Page)
    requires Chained(m, order) && p != NULL && p !in m && page.Sized()
    requires page.next == NULL && page.prev == AddressAt(order, |order| - 1)
    requires AddressAt(order, |order| - 1) == NULL || AddressAt(order, |order| - 1) in m
    requires Lists(Hung(m, AddressAt(order, |order| - 1), p, page), order + [p])
    ensures Linked(Hung(m, AddressAt(order, |order| - 1), p, page), order + [p])
  {
    hide Hung, Distinct;
    var m1, o1 := Hung(m, AddressAt(order, |order| - 1), p, page), order + [p];
    HungAt(m, order, p, page);
    assert forall k | 0 <= k < |order| :: o1[k] == order[k];
    forall i: nat ensures Adjacent(m1, o1, i) {
      if i + 1 < |order| { assert m[order[i]].next == order[i + 1]; }
    }
    LinkedBySteps(m1, o1);
  }

  lemma HungAt(m: Memory, order: seq<Ptr>, p: Ptr, page: Page)
    requires Chained(m, order) && p != NULL && p !in m && page.Sized()
    ensures var last := AddressAt(order, |order| - 1);
      && (last == NULL || last in m)
      && Hung(m, last, p, page).Keys == m.Keys + {p}
      && Hung(m, last, p, page)[p] == page
      && forall k | 0 <= k < |order| :: Hung(m, last, p, page)[order[k]] ==
           if k == |order| - 1 then m[order[k]].(next := p) else m[order[k]]
  {
  }

  /** Overwriting the contents of a page keeps the links and every other page. */
  lemma UpdateKeeps(m: Memory, order: seq<Ptr>, k: nat, page: Page)
    requires Chained(m, order) && k < |order| && page.Sized()
    requires page.next == m[order[k]].next && page.prev == m[order[k]].prev
    ensures var m1 := m[order[k] := page];
      && Chained(m1, order)
      && ChainOf(m1, order) == ChainOf(m, order)[k := page.View()]
  {
    hide Linked;
    var m1 := m[order[k] := page];
    UpdatedAt(m, order, k, page);
    UpdateLists(m, order, k, page);
    UpdateLinked(m, order, k, page);
    SameViews(m1, order, ChainOf(m, order)[k := page.View()]);
  }

  lemma UpdatedAt(m: Memory, order: seq<Ptr>, k: nat, page: Page)
    requires Lists(m, order) && k < |order|
    ensures forall j | 0 <= j < |order| ::
      order[j] in m && m[order[k] := page][order[j]] == if j == k then page else m[order[j]]
  {
    forall j | 0 <= j < |order| && j != k ensures order[j] != order[k] {
      assert if j < k then order[j] != order[k] else order[k] != order[j];
    }
  }

  lemma UpdateLists(m: Memory, order: seq<Ptr>, k: nat, page: Page)
    requires Lists(m, order) && k < |order| && page.Sized()
    ensures Lists(m[order[k] := page], order)
  {
    hide Distinct;
  }

  lemma UpdateLinked(m: Memory, order: seq<Ptr>, k: nat, page: Page)
    requires Chained(m, order) && k < |order| && Lists(m[order[k] := page], order)
    requires page.next == m[order[k]].next && page.prev == m[order[k]].prev
    ensures Linked(m[order[k] := page], order)
  {
    UpdatedAt(m, order, k, page);
    hide Lists;
  }

  ghost predicate Removable(m: Memory, p: Ptr) {
    && p in m
    && (m[p].next == NULL || (m[p].next in m && m[p].next != p))
    && (m[p].prev == NULL || (m[p].prev in m && m[p].prev != p && m[p].prev != m[p].next))
  }

  /** Memory after the page at p is taken out of the chain and freed. */
  ghost function Unlinked(m: Memory, p: Ptr): Memory
    requires Removable(m, p)
  {
    var page := m[p];
    var m0 := if page.next != NULL then m[page.next := m[page.next].(prev := page.prev)] else m;
    var m1 := if page.prev != NULL then m0[page.prev := m0[page.prev].(next := page.next)] else m0;
    m1 - {p}
  }

  function Dropped<A>(s: seq<A>, k: nat): seq<A>
    requires k < |s|
  {
    s[..k] + s[k + 1..]
  }

  lemma ChainRemovable(m: Memory, order: seq<Ptr>, k: nat)
    requires Chained(m, order) && k < |order|
    ensures Removable(m, order[k])
    ensures m[order[k]].next == AddressAt(order, k + 1) && m[order[k]].prev == AddressAt(order, k - 1)
  {
    if 0 < k { assert m[order[k]].prev == order[k - 1]; }
    if k + 1 < |order| { assert m[order[k]].next == order[k + 1]; }
  }

  lemma DroppedDistinct(order: seq<Ptr>, k: nat)
    requires Distinct(order) && k < |order|
    ensures Distinct(Dropped(order, k)) && order[k] !in Dropped(order, k)
    ensures forall p | p in order && p != order[k] :: p in Dropped(order, k)
  {
    var o1 := Dropped(order, k);
    forall p | p in order && p != order[k] ensures p in o1 {
      var i :| 0 <= i < |order| && order[i] == p;
      assert o1[if i < k then i else i - 1] == p;
    }
  }

  /** The new ends, as the unlinking code finds them. */
  lemma DroppedEnds(m: Memory, order: seq<Ptr>, k: nat)
    requires Chained(m, order) && k < |order|
    ensures AddressAt(Dropped(order, k), 0) ==
      if order[k] == AddressAt(order, 0) then m[order[k]].next else AddressAt(order, 0)
    ensures AddressAt(Dropped(order, k), |order| - 2) ==
      if order[k] == AddressAt(order, |order| - 1) then m[order[k]].prev else AddressAt(order, |order| - 1)
  {
    ChainRemovable(m, order, k);
  }

  lemma UnlinkedLists(m: Memory, order: seq<Ptr>, k: nat)
    requires Chained(m, order) && k < |order| && Removable(m, order[k])
    ensures Lists(Unlinked(m, order[k]), Dropped(order, k))
  {
    DroppedDistinct(order, k);
    var m1, o1 := Unlinked(m, order[k]), Dropped(order, k);
    forall i | 0 <= i < |o1| ensures o1[i] != NULL && o1[i] in m1 {
      assert o1[i] == order[if i < k then i else i + 1];
    }
    forall p | p in m1 ensures p in o1 && m1[p].Sized() {
      UnlinkedContents(m, order[k], p);
      assert m[p].Sized();
    }
  }

  lemma UnlinkedContents(m: Memory, p: Ptr, q: Ptr)
    requires Removable(m, p)
    ensures q in Unlinked(m, p) <==> q in m && q != p
    ensures q in Unlinked(m, p) ==> var page := Unlinked(m, p)[q];
      page.data == m[q].data && page.count == m[q].count && page.capacity == m[q].capacity
  {
  }

  /** What each remaining page looks like after the removal. */
  lemma UnlinkedAt(m: Memory, order: seq<Ptr>, k: nat, i: nat)
    requires Chained(m, order) && k < |order| && Removable(m, order[k])
    requires i < |order| && i != k
    ensures var m1 := Unlinked(m, order[k]);
      && order[i] in m1
      && m1[order[i]] ==
         if i == k + 1 then m[order[i]].(prev := AddressAt(order, k - 1))
         else if i == k - 1 then m[order[i]].(next := AddressAt(order, k + 1))
         else m[order[i]]
  {
    ChainRemovable(m, order, k);
  }

  lemma UnlinkedLinked(m: Memory, order: seq<Ptr>, k: nat)
    requires Chained(m, order) && k < |order| && Removable(m, order[k])
    requires Lists(Unlinked(m, order[k]), Dropped(order, k))
    ensures Linked(Unlinked(m, order[k]), Dropped(order, k))
  {
    hide Unlinked, Linked, Distinct, OpenEnds;
    UnlinkedOpen(m, order, k);
    forall i: nat ensures Adjacent(Unlinked(m, order[k]), Dropped(order, k), i) {
      if i + 1 < |Dropped(order, k)| { UnlinkedStep(m, order, k, i); }
    }
    LinkedBySteps(Unlinked(m, order[k]), Dropped(order, k));
  }

  lemma UnlinkedOpen(m: Memory, order: seq<Ptr>, k: nat)
    requires Chained(m, order) && k < |order| && Removable(m, order[k])
    requires Lists(Unlinked(m, order[k]), Dropped(order, k))
    ensures OpenEnds(Unlinked(m, order[k]), Dropped(order, k))
  {
    hide Unlinked, Linked, Distinct, Lists;
    if 1 < |order| {
      var first := if k == 0 then 1 else 0;
      var last := if k == |order| - 1 then k - 1 else |order| - 1;
      UnlinkedAt(m, order, k, first);
      UnlinkedAt(m, order, k, last);
      ChainRemovable(m, order, first);
      ChainRemovable(m, order, last);
      assert Dropped(order, k)[0] == order[first];
      assert Dropped(order, k)[|order| - 2] == order[last];
    }
  }

  lemma UnlinkedStep(m: Memory, order: seq<Ptr>, k: nat, i: nat)
    requires Chained(m, order) && k < |order| && Removable(m, order[k])
    requires i + 1 < |Dropped(order, k)|
    ensures var m1, o1 := Unlinked(m, order[k]), Dropped(order, k);
      && o1[i] in m1 && o1[i + 1] in m1
      && m1[o1[i]].next == o1[i + 1] && m1[o1[i + 1]].prev == o1[i]
  {
    var a := if i < k then i else i + 1;
    var b := if i + 1 < k then i + 1 else i + 2;
    assert Dropped(order, k)[i] == order[a] && Dropped(order, k)[i + 1] == order[b];
    UnlinkedAt(m, order, k, a);
    UnlinkedAt(m, order, k, b);
    ChainRemovable(m, order, a);
    ChainRemovable(m, order, b);
  }

  /** Taking a page out joins its neighbours and drops its view from the chain. */
  lemma UnlinkedKeeps(m: Memory, order: seq<Ptr>, k: nat)
    requires Chained(m, order) && k < |order|
    ensures Removable(m, order[k])
    ensures Chained(Unlinked(m, order[k]), Dropped(order, k))
    ensures ChainOf(Unlinked(m, order[k]), Dropped(order, k)) == Dropped(ChainOf(m, order), k)
  {
    hide Linked, Distinct, Unlinked;
    ChainRemovable(m, order, k);
    UnlinkedLists(m, order, k);
    UnlinkedLinked(m, order, k);
    var m1, o1 := Unlinked(m, order[k]), Dropped(order, k);
    forall i | 0 <= i < |o1| ensures m1[o1[i]].View() == Dropped(ChainOf(m, order), k)[i] {
      UnlinkedView(m, order, k, i);
    }
    SameViews(m1, o1, Dropped(ChainOf(m, order), k));
  }

  lemma UnlinkedView(m: Memory, order: seq<Ptr>, k: nat, i: nat)
    requires Chained(m, order) && k < |order| && Removable(m, order[k]) && i < |Dropped(order, k)|
    requires Lists(Unlinked(m, order[k]), Dropped(order, k))
    ensures Unlinked(m, order[k])[Dropped(order, k)[i]].View() == Dropped(ChainOf(m, order), k)[i]
  {
    hide Linked, Distinct, Unlinked;
    var j := if i < k then i else i + 1;
    assert Dropped(order, k)[i] == order[j];
    UnlinkedAt(m, order, k, j);
    PageFacts(m, order, j);
  }

  /** The pages of two chains together, with the end of one tied to the start of the other. */
  function Tied(m1: Memory, m2: Memory, last: Ptr, first: Ptr): Memory
    requires last in m1 && first in m2
  {
    (m1[last := m1[last].(next := first)]) + (m2[first := m2[first].(prev := last)])
  }

  lemma TiedLeft(m1: Memory, o1: seq<Ptr>, m2: Memory, o2: seq<Ptr>, k: nat)
    requires Chained(m1, o1) && Chained(m2, o2) && o1 != [] && o2 != [] && m1.Keys !! m2.Keys
    requires k < |o1|
    ensures (o1 + o2)[k] == o1[k] && o1[k] in Tied(m1, m2, o1[|o1| - 1], o2[0])
    ensures Tied(m1, m2, o1[|o1| - 1], o2[0])[o1[k]] ==
      if k == |o1| - 1 then m1[o1[k]].(next := o2[0]) else m1[o1[k]]
  {
    hide Linked;
  }

  lemma TiedRight(m1: Memory, o1: seq<Ptr>, m2: Memory, o2: seq<Ptr>, k: nat)
    requires Chained(m1, o1) && Chained(m2, o2) && o1 != [] && o2 != [] && m1.Keys !! m2.Keys
    requires k < |o2|
    ensures (o1 + o2)[|o1| + k] == o2[k] && o2[k] in Tied(m1, m2, o1[|o1| - 1], o2[0])
    ensures Tied(m1, m2, o1[|o1| - 1], o2[0])[o2[k]] ==
      if k == 0 then m2[o2[k]].(prev := o1[|o1| - 1]) else m2[o2[k]]
  {
    hide Linked;
  }

  lemma TiedLists(m1: Memory, o1: seq<Ptr>, m2: Memory, o2: seq<Ptr>)
    requires Chained(m1, o1) && Chained(m2, o2) && o1 != [] && o2 != [] && m1.Keys !! m2.Keys
    ensures Lists(Tied(m1, m2, o1[|o1| - 1], o2[0]), o1 + o2)
  {
    hide Linked;
    var m, o := Tied(m1, m2, o1[|o1| - 1], o2[0]), o1 + o2;
    forall k | 0 <= k < |o| ensures o[k] != NULL && o[k] in m {
      if k < |o1| { assert o[k] == o1[k]; } else { assert o[k] == o2[k - |o1|]; }
    }
    forall j, k | 0 <= j < k < |o| ensures o[j] != o[k] {
      assert j < |o1| ==> o[j] == o1[j];
      assert |o1| <= j ==> o[j] == o2[j - |o1|];
      assert k < |o1| ==> o[k] == o1[k];
      assert |o1| <= k ==> o[k] == o2[k - |o1|];
    }
    forall p | p in m ensures p in o && m[p].Sized() {
      if p in m1 { assert m1[p].Sized() && p in o1; } else { assert m2[p].Sized() && p in o2; }
    }
  }

  lemma TiedStep(m1: Memory, o1: seq<Ptr>, m2: Memory, o2: seq<Ptr>, i: nat)
    requires Chained(m1, o1) && Chained(m2, o2) && o1 != [] && o2 != [] && m1.Keys !! m2.Keys
    requires Lists(Tied(m1, m2, o1[|o1| - 1], o2[0]), o1 + o2) && i + 1 < |o1| + |o2|
    ensures var m, o := Tied(m1, m2, o1[|o1| - 1], o2[0]), o1 + o2;
      m[o[i]].next == o[i + 1] && m[o[i + 1]].prev == o[i]
  {
    hide Tied, Distinct, Lists;
    if i < |o1| {
      TiedLeft(m1, o1, m2, o2, i);
      ChainRemovable(m1, o1, i);
    } else {
      TiedRight(m1, o1, m2, o2, i - |o1|);
      ChainRemovable(m2, o2, i - |o1|);
    }
    if i + 1 < |o1| {
      TiedLeft(m1, o1, m2, o2, i + 1);
      ChainRemovable(m1, o1, i + 1);
    } else {
      TiedRight(m1, o1, m2, o2, i + 1 - |o1|);
      ChainRemovable(m2, o2, i + 1 - |o1|);
    }
  }

  lemma TiedLinked(m1: Memory, o1: seq<Ptr>, m2: Memory, o2: seq<Ptr>)
    requires Chained(m1, o1) && Chained(m2, o2) && o1 != [] && o2 != [] && m1.Keys !! m2.Keys
    requires Lists(Tied(m1, m2, o1[|o1| - 1], o2[0]), o1 + o2)
    ensures Linked(Tied(m1, m2, o1[|o1| - 1], o2[0]), o1 + o2)
  {
    hide Tied, Linked, Distinct, OpenEnds;
    var m, o := Tied(m1, m2, o1[|o1| - 1], o2[0]), o1 + o2;
    TiedOpen(m1, o1, m2, o2);
    forall i: nat ensures Adjacent(m, o, i) {
      if i + 1 < |o| { TiedStep(m1, o1, m2, o2, i); }
    }
    LinkedBySteps(m, o);
  }

  lemma TiedOpen(m1: Memory, o1: seq<Ptr>, m2: Memory, o2: seq<Ptr>)
    requires Chained(m1, o1) && Chained(m2, o2) && o1 != [] && o2 != [] && m1.Keys !! m2.Keys
    requires Lists(Tied(m1, m2, o1[|o1| - 1], o2[0]), o1 + o2)
    ensures OpenEnds(Tied(m1, m2, o1[|o1| - 1], o2[0]), o1 + o2)
  {
    hide Tied, Distinct;
    TiedLeft(m1, o1, m2, o2, 0);
    TiedRight(m1, o1, m2, o2, |o2| - 1);
  }

  /** Tying two chains together shows the one followed by the other. */
  lemma TiedKeeps(m1: Memory, o1: seq<Ptr>, m2: Memory, o2: seq<Ptr>)
    requires Chained(m1, o1) && Chained(m2, o2) && o1 != [] && o2 != [] && m1.Keys !! m2.Keys
    ensures var m := Tied(m1, m2, o1[|o1| - 1], o2[0]);
      Chained(m, o1 + o2) && ChainOf(m, o1 + o2) == ChainOf(m1, o1) + ChainOf(m2, o2)
  {
    TiedLists(m1, o1, m2, o2);
    TiedLinked(m1, o1, m2, o2);
    TiedViews(m1, o1, m2, o2);
  }

  lemma TiedViews(m1: Memory, o1: seq<Ptr>, m2: Memory, o2: seq<Ptr>)
    requires Chained(m1, o1) && Chained(m2, o2) && o1 != [] && o2 != [] && m1.Keys !! m2.Keys
    requires Lists(Tied(m1, m2, o1[|o1| - 1], o2[0]), o1 + o2)
    ensures ChainOf(Tied(m1, m2, o1[|o1| - 1], o2[0]), o1 + o2) == ChainOf(m1, o1) + ChainOf(m2, o2)
  {
    hide Linked, Distinct, Tied;
    var m, o := Tied(m1, m2, o1[|o1| - 1], o2[0]), o1 + o2;
    forall k | 0 <= k < |o| ensures m[o[k]].View() == (ChainOf(m1, o1) + ChainOf(m2, o2))[k] {
      TiedView(m1, o1, m2, o2, k);
    }
    SameViews(m, o, ChainOf(m1, o1) + ChainOf(m2, o2));
  }

  lemma TiedView(m1: Memory, o1: seq<Ptr>, m2: Memory, o2: seq<Ptr>, k: nat)
    requires Chained(m1, o1) && Chained(m2, o2) && o1 != [] && o2 != [] && m1.Keys !! m2.Keys
    requires Lists(Tied(m1, m2, o1[|o1| - 1], o2[0]), o1 + o2) && k < |o1 + o2|
    ensures Tied(m1, m2, o1[|o1| - 1], o2[0])[(o1 + o2)[k]].View() == (ChainOf(m1, o1) + ChainOf(m2, o2))[k]
  {
    hide Linked, Lists, Tied;
    if k < |o1| {
      TiedLeft(m1, o1, m2, o2, k);
      PageFacts(m1, o1, k);
    } else {
      TiedRight(m1, o1, m2, o2, k - |o1|);
      PageFacts(m2, o2, k - |o1|);
    }
  }

  // ---- reading forwards only ----

  /** Following `next` from p visits these pages and ends, whatever else is in memory. */
  ghost predicate Forward(m: Memory, p: Ptr, pages: seq<Ptr>) {
    && pages != [] && p == pages[0]
    && (forall k | 0 <= k < |pages| :: pages[k] != NULL && pages[k] in m && m[pages[k]].Sized())
    && (forall j, k | 0 <= j < k < |pages| && k == j + 1 :: m[pages[j]].next == pages[k])
    && m[pages[|pages| - 1]].next == NULL
  }

  ghost function Along(m: Memory, pages: seq<Ptr>): (c: Chain<Element>)
    requires forall k | 0 <= k < |pages| :: pages[k] in m && m[pages[k]].Sized()
    ensures |c| == |pages| && forall k | 0 <= k < |pages| :: c[k] == m[pages[k]].View()
  {
    seq(|pages|, k requires 0 <= k < |pages| => m[pages[k]].View())
  }

  lemma ChainedForward(m: Memory, order: seq<Ptr>)
    requires Chained(m, order) && order != []
    ensures Forward(m, order[0], order) && Along(m, order) == ChainOf(m, order)
  {
    assert forall k | 0 <= k < |order| :: m[order[k]].Sized();
  }

  /** A page hung behind the n-th one cuts off all that came after it. */
  lemma HungInside(m: Memory, order: seq<Ptr>, n: nat, p: Ptr, page: Page)
    requires Chained(m, order) && 0 < n <= |order| && p != NULL && p !in m && page.Sized() && page.next == NULL
    ensures order[n - 1] in m
    ensures var m1, reached := Hung(m, order[n - 1], p, page), order[..n] + [p];
      Forward(m1, order[0], reached) && Along(m1, reached) == ChainOf(m, order)[..n] + [page.View()]
  {
    var m1, reached := Hung(m, order[n - 1], p, page), order[..n] + [p];
    forall k | 0 <= k < n ensures reached[k] == order[k] && order[k] in m && m[order[k]].Sized() &&
      m1[order[k]] == if k == n - 1 then m[order[k]].(next := p) else m[order[k]]
    {
      assert k != n - 1 ==> order[k] != order[n - 1];
    }
    assert reached[n] == p && m1[p] == page;
    HungInsideViews(m, order, n, p, page);
  }

  /** The pages of another chain tied behind the n-th page cut off all that came after it. */
  lemma TiedInside(m1: Memory, o1: seq<Ptr>, n: nat, m2: Memory, o2: seq<Ptr>)
    requires Chained(m1, o1) && 0 < n <= |o1| && Chained(m2, o2) && o2 != [] && m1.Keys !! m2.Keys
    ensures o1[n - 1] in m1 && o2[0] in m2
    ensures var m, reached := Tied(m1, m2, o1[n - 1], o2[0]), o1[..n] + o2;
      Forward(m, o1[0], reached) && Along(m, reached) == ChainOf(m1, o1)[..n] + ChainOf(m2, o2)
  {
    hide Along;
    var m, reached := Tied(m1, m2, o1[n - 1], o2[0]), o1[..n] + o2;
    forall k | 0 <= k < n ensures reached[k] == o1[k] && TiedPage(m, m1, o1[k], n == k + 1, o2[0]) {
      assert o1[k] !in m2;
      assert k != n - 1 ==> o1[k] != o1[n - 1];
    }
    forall k | 0 <= k < |o2| ensures reached[n + k] == o2[k] && o2[k] in m && o2[k] in m2 && m2[o2[k]].Sized()
      && m[o2[k]] == if k == 0 then m2[o2[k]].(prev := o1[n - 1]) else m2[o2[k]]
    {
      assert k != 0 ==> o2[k] != o2[0];
    }
    TiedForward(m, m1, o1, n, m2, o2);
  }

  /** The page at p is as before, or now followed by the page at q. */
  ghost predicate TiedPage(m: Memory, before: Memory, p: Ptr, last: bool, q: Ptr) {
    && p != NULL && p in m && p in before && before[p].Sized()
    && m[p] == if last then before[p].(next := q) else before[p]
  }

  lemma TiedForward(m: Memory, m1: Memory, o1: seq<Ptr>, n: nat, m2: Memory, o2: seq<Ptr>)
    requires Chained(m1, o1) && 0 < n <= |o1| && Chained(m2, o2) && o2 != []
    requires forall k | 0 <= k < n :: TiedPage(m, m1, o1[k], n == k + 1, o2[0])
    requires forall k | 0 <= k < |o2| :: o2[k] in m && o2[k] in m2 && m2[o2[k]].Sized() &&
                                         m[o2[k]] == if k == 0 then m2[o2[k]].(prev := o1[n - 1]) else m2[o2[k]]
    ensures Forward(m, o1[0], o1[..n] + o2)
    ensures Along(m, o1[..n] + o2) == ChainOf(m1, o1)[..n] + ChainOf(m2, o2)
  {
    hide Lists;
    var reached := o1[..n] + o2;
    forall k | 0 <= k < |reached|
      ensures reached[k] != NULL && reached[k] in m && m[reached[k]].Sized()
      ensures m[reached[k]].View() == (ChainOf(m1, o1)[..n] + ChainOf(m2, o2))[k]
    {
      if k < n {
        assert TiedPage(m, m1, o1[k], n == k + 1, o2[0]);
        PageFacts(m1, o1, k);
      } else {
        PageFacts(m2, o2, k - n);
      }
    }
    forall j, k | 0 <= j < k < |reached| && k == j + 1 ensures m[reached[j]].next == reached[k] {
      if j < n {
        assert TiedPage(m, m1, o1[j], n == j + 1, o2[0]);
      }
    }
  }

  lemma HungInsideViews(m: Memory, order: seq<Ptr>, n: nat, p: Ptr, page: Page)
    requires Chained(m, order) && 0 < n <= |order| && p !in m && page.Sized() && order[n - 1] in m
    requires var m1, reached := Hung(m, order[n - 1], p, page), order[..n] + [p];
      forall k | 0 <= k < |reached| :: reached[k] in m1 && m1[reached[k]].Sized()
    ensures var m1, reached := Hung(m, order[n - 1], p, page), order[..n] + [p];
      Along(m1, reached) == ChainOf(m, order)[..n] + [page.View()]
  {
    var m1, reached := Hung(m, order[n - 1], p, page), order[..n] + [p];
    forall k | 0 <= k < n ensures m1[reached[k]].View() == m[order[k]].View() {
      assert reached[k] == order[k] && order[k] in m;
    }
  }
}
