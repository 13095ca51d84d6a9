/**
 The dynamic allocator with its pages in memory. Reading or freeing a page needs a live page at
 that address, so walking over a freed page or freeing a page twice cannot be written.
 */
module DynamicAllocators {
  import opened Addresses
  import opened Bits
  import opened PageAllocator

  function Max(a: nat, b: nat): nat {
    if a > b then a else b
  }

  class DynamicAllocator {
    var totalAllocatedSize: nat
    var current: Ptr
    var pages: Pages
    /** The pages front to back, and the blocks since creation or the last reset. */
    ghost var chain: seq<Ptr>
    ghost var blocks: seq<Block>

    ghost function State(): Allocator
      reads this
    {
      Allocator(totalAllocatedSize, current, pages)
    }

    ghost function Past(): History
      reads this
    {
      History(State(), chain, blocks)
    }

    constructor (initialPageSize: nat)
      requires initialPageSize <= LARGEST_REQUEST
      ensures Sound(Past()) && blocks == []
      ensures initialPageSize == 0 ==> pages == map[]
      ensures initialPageSize != 0 ==> AlignUp(initialPageSize) <= LARGEST_REQUEST
      ensures initialPageSize != 0 ==> pages == map[current := Page(0, PageSizeFor(AlignUp(initialPageSize)), NULL)]
    {
      current, totalAllocatedSize, pages, chain, blocks := NULL, 0, map[], [], [];
      new;
      SoundAtFirst();
      if initialPageSize != 0 {
        hide AlignUp, Sound, NextPow2, PageSizeFor;
        AlignUpLeast(initialPageSize);
        FirstPageSize(AlignUp(initialPageSize));
        PageSizeFits(AlignUp(initialPageSize));
        AllocatePage(Max(NextPow2(AlignUp(initialPageSize)), INCREMENT_SIZE));
      }
    }

    method AllocatePage(size: nat)
      requires Sound(Past()) && size <= LARGEST_REQUEST
      modifies this
      ensures current != NULL && current !in old(pages) && Sound(Past())
      ensures State() == Pushed(old(State()), current, size)
      ensures chain == [current] + old(chain) && blocks == old(blocks)
    {
      hide Sound;
      var page := FreshAddress(pages);
      PushKeeps(Past(), page, size);
      pages := pages[page := Page(0, size, current)];
      current := page;
      chain := [page] + chain;
    }

    method ReturnAllocatedSpace(size: nat) returns (block: Block)
      requires current in pages && size <= pages[current].remainingSize
      modifies `pages, `totalAllocatedSize
      ensures State() == Cut(old(State()), size)
      ensures block == Block(current, old(pages)[current].current, size)
    {
      var page := pages[current];
      block := Block(current, page.current, size);
      pages := pages[current := page.(current := page.current + size, remainingSize := page.remainingSize - size)];
      totalAllocatedSize := totalAllocatedSize + size;
    }

    /** Takes the step `Allocated` of the machine, with the page that calloc came up with if it needed one. */
    method Allocate(size: nat) returns (block: Block, ghost address: Ptr)
      requires Sound(Past()) && 0 < size <= LARGEST_REQUEST
      modifies this
      ensures address != NULL && address !in old(pages)
      ensures old(current) == NULL || old(current) in old(pages)
      ensures Sound(Past()) && Past() == Allocated(old(Past()), size, address)
      ensures block == BlockFor(old(State()), size, address)
    {
      hide Sound, AlignUp, NextPow2;
      ghost var before := Past();
      FrontKnown(before);
      var needed := AlignUp(size);
      AlignUpLeast(size);
      PageSizeFits(needed);
      if current == NULL || needed > pages[current].remainingSize {
        if needed > INCREMENT_SIZE {
          AllocatePage(NextPow2(needed));
        } else {
          AllocatePage(INCREMENT_SIZE);
        }
        address := current;
      } else {
        address := FreshAddress(pages);
      }
      block := ReturnAllocatedSpace(needed);
      blocks := blocks + [block];
      ReserveKeeps(before, size, address);
    }

    method Free(page: Ptr)
      requires page in pages
      modifies `pages
      ensures pages == old(pages) - {page}
    {
      pages := pages - {page};
    }

    /** Keeps the first page of maximal size, empty, and frees every other one once. */
    method Reset()
      requires Sound(Past())
      modifies this
      ensures Sound(Past()) && blocks == []
      ensures forall q | q in old(chain) :: q in old(pages)
      ensures State() == AfterReset(old(State()), old(chain))
      ensures chain == if old(chain) == [] then [] else [current]
    {
      hide Sound, Linked, Biggest, Walking;
      ghost var before := Past();
      ResetKeeps(before);
      FrontKnown(before);
      var page := current;
      if page == NULL {
        totalAllocatedSize, blocks := 0, [];
        return;
      }
      var largestPage := page;
      var largestPageSize: nat := pages[page].current + pages[page].remainingSize;
      ghost var rest := chain;
      WalkStart(before);
      while page != NULL
        invariant Walking(before, pages, page, rest, largestPage, largestPageSize)
        decreases |rest|
      {
        WalkRound(before, pages, page, rest, largestPage, largestPageSize);
        var next := pages[page].previous;
        var pageSize := pages[page].remainingSize + pages[page].current;
        if pageSize > largestPageSize {
          Free(largestPage);
          largestPage := page;
          largestPageSize := pageSize;
        } else {
          if page != largestPage {
            Free(page);
          }
        }
        page := next;
        rest := rest[1..];
      }
      WalkEnd(before, pages, page, rest, largestPage, largestPageSize);
      pages := pages[largestPage := Page(0, largestPageSize, NULL)];
      totalAllocatedSize := 0;
      current := largestPage;
      chain, blocks := [largestPage], [];
    }

    method Destroy()
      requires Sound(Past())
      modifies this
      ensures State() == Allocator(0, NULL, map[]) && chain == [] && blocks == []
    {
      hide Linked;
      var page := current;
      ghost var rest := chain;
      while page != NULL
        invariant Linked(pages, page, rest) && pages.Keys == Members(rest)
        decreases |rest|
      {
        FreeFront(pages, page, rest);
        var next := pages[page].previous;
        Free(page);
        page := next;
        rest := rest[1..];
      }
      NoneLeft(pages, rest);
      current := NULL;
      totalAllocatedSize := 0;
      chain, blocks := [], [];
    }
  }

  /** The first page is as large as a page opened by a request of that size. */
  lemma FirstPageSize(size: nat)
    requires 1 <= size <= LARGEST_REQUEST
    ensures Max(NextPow2(size), INCREMENT_SIZE) == PageSizeFor(size)
  {
    hide Pow2, NextPow2;
    NextPow2Least(size);
    Pow2Sum(8, 2);
    Pow2Small();
    assert Pow2(10) == INCREMENT_SIZE;
  }

  lemma SoundAtFirst()
    ensures Sound(History(Allocator(0, NULL, map[]), [], []))
  {
  }

  lemma FrontKnown(h: History)
    requires Sound(h)
    ensures h.a.current == NULL <==> h.chain == []
    ensures h.a.current != NULL ==> h.a.current in h.a.pages && h.chain[0] == h.a.current
  {
  }

  lemma FreeFront(pages: Pages, page: Ptr, rest: seq<Ptr>)
    requires Linked(pages, page, rest) && page != NULL && pages.Keys == Members(rest)
    ensures page in pages && rest != []
    ensures Linked(pages - {page}, pages[page].previous, rest[1..]) && (pages - {page}).Keys == Members(rest[1..])
  {
    LinkedSame(pages, pages - {page}, pages[page].previous, rest[1..]);
    MembersCons(rest);
    assert page !in Members(rest[1..]);
  }

  lemma NoneLeft(pages: Pages, rest: seq<Ptr>)
    requires Linked(pages, NULL, rest) && pages.Keys == Members(rest)
    ensures pages == map[]
  {
  }

  // ---- the walk of Reset ----

  /** The pages not yet visited and the largest one so far are exactly the live ones, as they were. */
  ghost predicate Walking(before: History, pages: Pages, page: Ptr, rest: seq<Ptr>, largest: Ptr, largestSize: nat) {
    && Linked(pages, page, rest)
    && pages.Keys == {largest} + Members(rest)
    && (forall p | p in pages :: p in before.a.pages && pages[p] == before.a.pages[p])
    && largestSize == pages[largest].Size()
    && (rest != [] ==> largest !in rest[1..])
    && (forall q | q in rest :: q in before.a.pages) && (forall q | q in before.chain :: q in before.a.pages)
    && before.chain != [] && before.chain[0] in before.a.pages
    && Biggest(before.a.pages, largest, rest) == Biggest(before.a.pages, before.chain[0], before.chain)
  }

  lemma WalkStart(h: History)
    requires Sound(h) && h.chain != []
    ensures h.a.current in h.a.pages
    ensures Walking(h, h.a.pages, h.a.current, h.chain, h.a.current, h.a.pages[h.a.current].Size())
  {
  }

  lemma WalkRound(h: History, pages: Pages, page: Ptr, rest: seq<Ptr>, largest: Ptr, largestSize: nat)
    requires Walking(h, pages, page, rest, largest, largestSize) && page != NULL
    ensures page in pages && largest in pages && rest != []
    ensures var size := pages[page].Size(); var next := pages[page].previous;
      && (size > largestSize ==> largest != page && Walking(h, pages - {largest}, next, rest[1..], page, size))
      && (size <= largestSize && page != largest ==>
          Walking(h, pages - {page}, next, rest[1..], largest, largestSize))
      && (page == largest ==> Walking(h, pages, next, rest[1..], largest, largestSize))
  {
    MembersCons(rest);
    var size, next := pages[page].Size(), pages[page].previous;
    assert forall q | q in rest[1..] :: q in rest && q in Members(rest[1..]);
    assert page !in Members(rest[1..]) && largest !in Members(rest[1..]);
    if size > largestSize {
      LinkedSame(pages, pages - {largest}, next, rest[1..]);
    } else if page != largest {
      LinkedSame(pages, pages - {page}, next, rest[1..]);
    }
  }

  lemma WalkEnd(h: History, pages: Pages, page: Ptr, rest: seq<Ptr>, largest: Ptr, largestSize: nat)
    requires Walking(h, pages, page, rest, largest, largestSize) && page == NULL
    ensures pages.Keys == {largest} && largest in h.a.pages && largestSize == h.a.pages[largest].Size()
    ensures AfterReset(h.a, h.chain) == Allocator(0, largest, map[largest := Page(0, largestSize, NULL)])
    ensures pages[largest := Page(0, largestSize, NULL)] == map[largest := Page(0, largestSize, NULL)]
  {
  }
}
