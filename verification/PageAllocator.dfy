/**
 The dynamic allocator as a machine over its pages: blocks are cut off the front page, a new page
 is hung in front when that one is full, and a reset keeps only the largest page.
 */
module PageAllocator {
  import opened Addresses
  import opened Bits
  import opened Common

  const INCREMENT_SIZE: nat := 1024
  const LARGEST_REQUEST: nat := 0x4000_0000

  /** `current` is the distance of the cursor from the start of the page. */
  datatype Page = Page(current: nat, remainingSize: nat, previous: Ptr) {
    function Size(): nat {
      current + remainingSize
    }
  }

  type Pages = map<Ptr, Page>

  datatype Allocator = Allocator(totalAllocatedSize: nat, current: Ptr, pages: Pages)

  /** A block returned to the caller: a stretch of one page. */
  datatype Block = Block(page: Ptr, offset: nat, size: nat)

  // ---- sizes ----

  /** The sum wraps in 64 bits; the mask is ~7, widened to 64 bits. */
  function AlignUp(size: nat): nat {
    And((size + 7) % UINT64, UINT64 - 8)
  }

  /**
   The least multiple of eight that is not below the size, exactly if that is below 2^64; the seven
   sizes above the last multiple wrap to zero.
   */
  lemma AlignUpLeast(size: nat)
    requires size < UINT64
    ensures AlignUp(size) % 8 == 0
    ensures size <= AlignUp(size) < size + 8 <==> size <= UINT64 - 8
    ensures UINT64 - 8 < size ==> AlignUp(size) == 0
    ensures size <= LARGEST_REQUEST ==> AlignUp(size) <= LARGEST_REQUEST
  {
    hide And, Pow2;
    Pow2Words();
    AndHighMask((size + 7) % UINT64, 64, 3);
  }

  /** The size of the page that a request of this rounded size opens. */
  function PageSizeFor(size: nat): nat
    requires size <= LARGEST_REQUEST
  {
    if size > INCREMENT_SIZE then NextPow2(size) else INCREMENT_SIZE
  }

  lemma PageSizeFits(size: nat)
    requires size <= LARGEST_REQUEST
    ensures size <= PageSizeFor(size) <= LARGEST_REQUEST
  {
    if size > INCREMENT_SIZE { NextPow2Least(size); }
  }

  // ---- steps ----

  function Pushed(a: Allocator, page: Ptr, size: nat): Allocator {
    Allocator(a.totalAllocatedSize, page, a.pages[page := Page(0, size, a.current)])
  }

  predicate NeedsPage(a: Allocator, size: nat)
    requires a.current == NULL || a.current in a.pages
  {
    a.current == NULL || size > a.pages[a.current].remainingSize
  }

  function Cut(a: Allocator, size: nat): Allocator
    requires a.current in a.pages && size <= a.pages[a.current].remainingSize
  {
    var page := a.pages[a.current];
    Allocator(a.totalAllocatedSize + size, a.current,
      a.pages[a.current := Page(page.current + size, page.remainingSize - size, page.previous)])
  }

  /** The front page after room was made for a request; `address` is where calloc would put a new page. */
  function Roomy(a: Allocator, size: nat, address: Ptr): Allocator
    requires (a.current == NULL || a.current in a.pages) && size <= LARGEST_REQUEST
  {
    if NeedsPage(a, size) then Pushed(a, address, PageSizeFor(size)) else a
  }

  function Reserved(a: Allocator, size: nat, address: Ptr): Allocator
    requires (a.current == NULL || a.current in a.pages) && 0 < size <= LARGEST_REQUEST
  {
    AlignUpLeast(size);
    PageSizeFits(AlignUp(size));
    Cut(Roomy(a, AlignUp(size), address), AlignUp(size))
  }

  function BlockFor(a: Allocator, size: nat, address: Ptr): Block
    requires (a.current == NULL || a.current in a.pages) && 0 < size <= LARGEST_REQUEST
  {
    AlignUpLeast(size);
    var roomy := Roomy(a, AlignUp(size), address);
    Block(roomy.current, roomy.pages[roomy.current].current, AlignUp(size))
  }

  // ---- the chain of pages ----

  /** The pages from p on, front to back, and no others, are the given ones. */
  predicate Linked(pages: Pages, p: Ptr, chain: seq<Ptr>)
    decreases |chain|
  {
    if chain == [] then p == NULL
    else p == chain[0] && p != NULL && p in pages && p !in chain[1..] && Linked(pages, pages[p].previous, chain[1..])
  }

  ghost function Members(chain: seq<Ptr>): set<Ptr> {
    set p | p in chain
  }

  lemma MembersCons(chain: seq<Ptr>)
    requires chain != []
    ensures Members(chain) == {chain[0]} + Members(chain[1..])
  {
  }

  lemma {:induction false} LinkedSame(a: Pages, b: Pages, p: Ptr, chain: seq<Ptr>)
    requires Linked(a, p, chain)
    requires forall q | q in chain && q in a :: q in b && b[q].previous == a[q].previous
    ensures Linked(b, p, chain)
    decreases |chain|
  {
    if chain != [] {
      assert chain[0] in chain;
      LinkedSame(a, b, a[p].previous, chain[1..]);
    }
  }

  lemma {:induction false} LinkedLive(pages: Pages, p: Ptr, chain: seq<Ptr>)
    requires Linked(pages, p, chain)
    ensures Members(chain) <= pages.Keys && NULL !in chain
    decreases |chain|
  {
    if chain != [] {
      LinkedLive(pages, pages[p].previous, chain[1..]);
      MembersCons(chain);
    }
  }

  // ---- what every run keeps ----

  /** The allocator, its pages front to back, and the blocks since it was created or last reset. */
  datatype History = History(a: Allocator, chain: seq<Ptr>, blocks: seq<Block>)

  /** Every page is in the chain, and every cursor is on a multiple of eight. */
  predicate PageSound(page: Page) {
    page.current % 8 == 0 && page.Size() <= LARGEST_REQUEST
  }

  ghost predicate Chained(a: Allocator, chain: seq<Ptr>) {
    && Linked(a.pages, a.current, chain)
    && a.pages.Keys == Members(chain)
    && forall p | p in a.pages :: PageSound(a.pages[p])
  }

  predicate BlockSound(pages: Pages, b: Block) {
    b.offset % 8 == 0 && 0 < b.size && b.page in pages && b.offset + b.size <= pages[b.page].current
  }

  /** The later block lies in another page or behind the earlier one. */
  predicate Apart(earlier: Block, later: Block) {
    earlier.page == later.page ==> earlier.offset + earlier.size <= later.offset
  }

  function TotalSize(blocks: seq<Block>): nat {
    if blocks == [] then 0 else TotalSize(blocks[..|blocks| - 1]) + blocks[|blocks| - 1].size
  }

  ghost predicate Sound(h: History) {
    && Chained(h.a, h.chain)
    && (forall i | 0 <= i < |h.blocks| :: BlockSound(h.a.pages, h.blocks[i]))
    && (forall i, j | 0 <= i < j < |h.blocks| :: Apart(h.blocks[i], h.blocks[j]))
    && h.a.totalAllocatedSize == TotalSize(h.blocks)
  }

  lemma FrontLive(a: Allocator, chain: seq<Ptr>)
    requires Chained(a, chain)
    ensures a.current == NULL <==> chain == []
    ensures a.current != NULL ==> a.current in a.pages && chain[0] == a.current && PageSound(a.pages[a.current])
  {
  }

  lemma PushKeeps(h: History, page: Ptr, size: nat)
    requires Sound(h) && page != NULL && page !in h.a.pages && size <= LARGEST_REQUEST
    ensures Sound(History(Pushed(h.a, page, size), [page] + h.chain, h.blocks))
  {
    hide TotalSize, Apart;
    var a, chain := Pushed(h.a, page, size), [page] + h.chain;
    assert chain[1..] == h.chain;
    assert page !in h.chain by { assert page !in Members(h.chain); }
    LinkedSame(h.a.pages, a.pages, h.a.current, h.chain);
    MembersCons(chain);
    assert a.pages.Keys == h.a.pages.Keys + {page};
    forall i | 0 <= i < |h.blocks| ensures BlockSound(a.pages, h.blocks[i]) {
      assert BlockSound(h.a.pages, h.blocks[i]);
    }
  }

  lemma CutChained(a: Allocator, chain: seq<Ptr>, size: nat)
    requires Chained(a, chain) && a.current in a.pages && size <= a.pages[a.current].remainingSize && size % 8 == 0
    ensures Chained(Cut(a, size), chain)
  {
    hide Linked, Members;
    assert PageSound(a.pages[a.current]);
    LinkedSame(a.pages, Cut(a, size).pages, a.current, chain);
  }

  lemma CutKeeps(h: History, size: nat)
    requires Sound(h) && h.a.current in h.a.pages && 0 < size <= h.a.pages[h.a.current].remainingSize && size % 8 == 0
    ensures var b := Block(h.a.current, h.a.pages[h.a.current].current, size);
      Sound(History(Cut(h.a, size), h.chain, h.blocks + [b]))
  {
    hide Chained;
    var a, b := Cut(h.a, size), Block(h.a.current, h.a.pages[h.a.current].current, size);
    CutChained(h.a, h.chain, size);
    CursorAligned(h.a, h.chain);
    assert (h.blocks + [b])[..|h.blocks|] == h.blocks;
    forall i | 0 <= i < |h.blocks| ensures BlockSound(a.pages, h.blocks[i]) && Apart(h.blocks[i], b) {
      assert BlockSound(h.a.pages, h.blocks[i]);
    }
  }

  lemma CursorAligned(a: Allocator, chain: seq<Ptr>)
    requires Chained(a, chain) && a.current in a.pages
    ensures a.pages[a.current].current % 8 == 0
  {
  }

  /** Handing out a block keeps the invariant and the size of every page. */
  lemma ReserveKeeps(h: History, size: nat, address: Ptr)
    requires Sound(h) && 0 < size <= LARGEST_REQUEST && address != NULL && address !in h.a.pages
    ensures h.a.current == NULL || h.a.current in h.a.pages
    ensures Sound(Allocated(h, size, address))
    ensures var a := Reserved(h.a, size, address);
      forall p | p in h.a.pages :: p in a.pages && a.pages[p].Size() == h.a.pages[p].Size()
  {
    hide Linked, TotalSize, AlignUp, PageSizeFor;
    FrontLive(h.a, h.chain);
    AlignUpLeast(size);
    PageSizeFits(AlignUp(size));
    if NeedsPage(h.a, AlignUp(size)) {
      PushKeeps(h, address, PageSizeFor(AlignUp(size)));
      CutKeeps(History(Pushed(h.a, address, PageSizeFor(AlignUp(size))), [address] + h.chain, h.blocks), AlignUp(size));
    } else {
      CutKeeps(h, AlignUp(size));
    }
  }

  ghost function Allocated(h: History, size: nat, address: Ptr): History
    requires (h.a.current == NULL || h.a.current in h.a.pages) && 0 < size <= LARGEST_REQUEST
  {
    AlignUpLeast(size);
    History(Reserved(h.a, size, address), if NeedsPage(h.a, AlignUp(size)) then [address] + h.chain else h.chain,
      h.blocks + [BlockFor(h.a, size, address)])
  }

  /** The least multiple of eight that is not below the size. */
  ghost predicate RoundsUpTo(size: nat, n: nat) {
    n % 8 == 0 && size <= n < size + 8
  }

  /** The number of bytes of a page opened for n bytes: a kilobyte, or the least power of two for more. */
  ghost predicate OpenedFor(n: nat, bytes: nat) {
    if n <= 1024 then bytes == 1024
    else n <= bytes && (exists k :: bytes == Pow2(k)) && forall k | n <= Pow2(k) :: bytes <= Pow2(k)
  }

  /**
   A request for which the front page has room moves that page's cursor and nothing else. Any other
   request opens a page in front of it, and is cut off its start.
   */
  lemma ReservedWhere(a: Allocator, size: nat, address: Ptr, n: nat)
    requires (a.current == NULL || a.current in a.pages) && 0 < size <= LARGEST_REQUEST && RoundsUpTo(size, n)
    requires address != NULL && address !in a.pages
    ensures var b, block := Reserved(a, size, address), BlockFor(a, size, address);
      && b.totalAllocatedSize == a.totalAllocatedSize + n && block.page == b.current && block.size == n
      && (a.current != NULL && n <= a.pages[a.current].remainingSize ==>
            var page := a.pages[a.current];
            && b.current == a.current && block.offset == page.current
            && b.pages == a.pages[a.current := Page(page.current + n, page.remainingSize - n, page.previous)])
      && (a.current == NULL || a.pages[a.current].remainingSize < n ==>
            && b.current == address && block.offset == 0 && address in b.pages
            && b.pages == a.pages[address := b.pages[address]]
            && b.pages[address].current == n && b.pages[address].previous == a.current
            && OpenedFor(n, b.pages[address].Size()))
  {
    hide AlignUp, Pow2, NextPow2;
    AlignUpLeast(size);
    SameRounding(size, AlignUp(size), n);
    PageSizeFits(n);
    if INCREMENT_SIZE < n { PageIsLeast(n); }
  }

  lemma SameRounding(size: nat, m: nat, n: nat)
    requires RoundsUpTo(size, m) && RoundsUpTo(size, n)
    ensures m == n
  {
  }

  lemma PageIsLeast(n: nat)
    requires 1024 < n <= LARGEST_REQUEST
    ensures OpenedFor(n, NextPow2(n))
  {
    hide Pow2, NextPow2;
    NextPow2Least(n);
  }

  // ---- reset ----

  function Larger(pages: Pages, best: Ptr, page: Ptr): Ptr
    requires best in pages && page in pages
  {
    if pages[page].Size() > pages[best].Size() then page else best
  }

  /** A page of the largest size, `best` or one of the rest. */
  function Biggest(pages: Pages, best: Ptr, rest: seq<Ptr>): (p: Ptr)
    requires best in pages && forall q | q in rest :: q in pages
    ensures p in pages && (p == best || p in rest)
    ensures pages[best].Size() <= pages[p].Size()
    ensures forall q | q in rest :: pages[q].Size() <= pages[p].Size()
    decreases |rest|
  {
    if rest == [] then best
    else
      assert forall q | q in rest :: q == rest[0] || q in rest[1..];
      Biggest(pages, Larger(pages, best, rest[0]), rest[1..])
  }

  /** Entry k is larger than everything in front of it. */
  predicate Outgrows(pages: Pages, best: Ptr, rest: seq<Ptr>, k: nat)
    requires k < |rest| && best in pages && forall q | q in rest :: q in pages
  {
    && pages[best].Size() < pages[rest[k]].Size()
    && forall j | 0 <= j < k :: pages[rest[j]].Size() < pages[rest[k]].Size()
  }

  /** Of several pages of the largest size it is the first. */
  lemma {:induction false} BiggestIsFirst(pages: Pages, best: Ptr, rest: seq<Ptr>)
    requires best in pages && forall q | q in rest :: q in pages
    ensures var p := Biggest(pages, best, rest);
      p == best || exists k | 0 <= k < |rest| :: p == rest[k] && Outgrows(pages, best, rest, k)
    decreases |rest|
  {
    if rest != [] {
      var larger := Larger(pages, best, rest[0]);
      BiggestIsFirst(pages, larger, rest[1..]);
      if Biggest(pages, larger, rest[1..]) == larger {
        assert larger != best ==> Outgrows(pages, best, rest, 0);
      } else {
        var k :| 0 <= k < |rest[1..]| && Biggest(pages, larger, rest[1..]) == rest[1..][k]
          && Outgrows(pages, larger, rest[1..], k);
        assert forall j | 0 < j <= k + 1 :: rest[j] == rest[1..][j - 1];
        assert Outgrows(pages, best, rest, k + 1);
      }
    }
  }

  function AfterReset(a: Allocator, chain: seq<Ptr>): Allocator
    requires chain == [] || chain[0] in a.pages
    requires forall q | q in chain :: q in a.pages
  {
    if chain == [] then Allocator(0, a.current, a.pages)
    else
      var kept := Biggest(a.pages, chain[0], chain);
      Allocator(0, kept, map[kept := Page(0, a.pages[kept].Size(), NULL)])
  }

  /** One empty page of maximal size is left, and it is the same size as before. */
  lemma ResetKeeps(h: History)
    requires Sound(h)
    ensures forall q | q in h.chain :: q in h.a.pages
    ensures var a := AfterReset(h.a, h.chain);
      && Sound(History(a, if h.chain == [] then [] else [a.current], []))
      && (h.chain != [] ==>
          && a.pages.Keys == {a.current} && a.current in h.a.pages
          && a.pages[a.current].current == 0
          && a.pages[a.current].remainingSize == h.a.pages[a.current].Size()
          && forall p | p in h.a.pages :: h.a.pages[p].Size() <= a.pages[a.current].Size())
  {
    LinkedLive(h.a.pages, h.a.current, h.chain);
    assert forall q | q in h.chain :: q in Members(h.chain);
    if h.chain != [] {
      var a := AfterReset(h.a, h.chain);
      assert PageSound(h.a.pages[a.current]);
      assert Members([a.current]) == {a.current} && [a.current][1..] == [];
      LinkedLive(a.pages, a.current, [a.current]);
      forall p | p in h.a.pages ensures h.a.pages[p].Size() <= a.pages[a.current].Size() {
        assert p in Members(h.chain);
      }
    }
  }

  // ---- runs ----

  datatype Request = Reserve(size: nat, address: Ptr) | Reset

  ghost predicate Acceptable(h: History, request: Request) {
    request.Reserve? ==> 0 < request.size <= LARGEST_REQUEST && request.address != NULL && request.address !in h.a.pages
  }

  ghost function Step(h: History, request: Request): History
    requires Sound(h) && Acceptable(h, request)
  {
    FrontLive(h.a, h.chain);
    match request
    case Reserve(size, address) => Allocated(h, size, address)
    case Reset =>
      ResetKeeps(h);
      History(AfterReset(h.a, h.chain), if h.chain == [] then [] else [AfterReset(h.a, h.chain).current], [])
  }

  lemma StepKeeps(h: History, request: Request)
    requires Sound(h) && Acceptable(h, request)
    ensures Sound(Step(h, request))
  {
    hide Sound, Allocated, AfterReset, Linked;
    match request
    case Reserve(size, address) => ReserveKeeps(h, size, address);
    case Reset => ResetKeeps(h);
  }

  ghost predicate AllAcceptable(h: History, requests: seq<Request>)
    requires Sound(h)
    decreases |requests|
  {
    requests == [] ||
    (Acceptable(h, requests[0]) && (StepKeeps(h, requests[0]); AllAcceptable(Step(h, requests[0]), requests[1..])))
  }

  ghost function Run(h: History, requests: seq<Request>): History
    requires Sound(h) && AllAcceptable(h, requests)
    decreases |requests|
  {
    if requests == [] then h
    else
      StepKeeps(h, requests[0]);
      Run(Step(h, requests[0]), requests[1..])
  }

  predicate Holds(b: Block, page: Ptr, x: int) {
    b.page == page && b.offset <= x < b.offset + b.size
  }

  ghost predicate Disjoint(b: Block, c: Block) {
    forall page, x :: !(Holds(b, page, x) && Holds(c, page, x))
  }

  /**
   Over any run of requests and resets: the blocks handed out lie in live pages, on multiples of
   eight, and no byte is in two of them; the running total is the sum of their sizes.
   */
  lemma {:induction false} RunKeepsBlocksApart(h: History, requests: seq<Request>)
    requires Sound(h) && AllAcceptable(h, requests)
    ensures Sound(Run(h, requests))
    ensures var end := Run(h, requests);
      && (forall i | 0 <= i < |end.blocks| :: BlockSound(end.a.pages, end.blocks[i]))
      && (forall i, j | 0 <= i < |end.blocks| && 0 <= j < |end.blocks| && i != j ::
            Disjoint(end.blocks[i], end.blocks[j]))
      && end.a.totalAllocatedSize == TotalSize(end.blocks)
    decreases |requests|
  {
    hide Step, Acceptable, Chained, TotalSize, BlockSound;
    if requests == [] {
      forall i, j | 0 <= i < |h.blocks| && 0 <= j < |h.blocks| && i != j ensures Disjoint(h.blocks[i], h.blocks[j]) {
        assert if i < j then Apart(h.blocks[i], h.blocks[j]) else Apart(h.blocks[j], h.blocks[i]);
      }
    } else {
      StepKeeps(h, requests[0]);
      RunKeepsBlocksApart(Step(h, requests[0]), requests[1..]);
    }
  }
}
