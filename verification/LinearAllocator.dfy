/**
 The bump allocator: blocks are laid one behind the other in a single arena, each aligned in
 absolute address. Addresses and sizes are 64-bit words; the one sum that can wrap is the end of a
 request, and `Overflows` says when that makes the allocator accept what it has no room for.
 */
module LinearAllocator {
  import opened Addresses
  import opened Bits
  import opened Common

  // ---- alignment ----

  function AlignForward(ptr: nat, alignment: nat): (r: nat)
    requires 0 < alignment
    ensures ptr <= r
  {
    var modulo := And(ptr, alignment - 1);
    if modulo != 0 then ptr + (alignment - modulo) else ptr
  }

  predicate MultipleOf(x: int, a: nat)
    requires 0 < a
  {
    x % a == 0
  }

  /** The least multiple of the alignment that is not below the address. */
  lemma AlignForwardLeast(ptr: nat, alignment: nat)
    requires IsPow2(alignment)
    ensures 0 < alignment && ptr <= AlignForward(ptr, alignment) < ptr + alignment
    ensures MultipleOf(AlignForward(ptr, alignment), alignment)
    ensures forall x: nat | ptr <= x && MultipleOf(x, alignment) :: AlignForward(ptr, alignment) <= x
  {
    hide And, Pow2;
    MaskIsMod(ptr, alignment);
    forall x: nat | ptr <= x && MultipleOf(x, alignment) ensures AlignForward(ptr, alignment) <= x {
      if ptr % alignment != 0 { NoneBetween(ptr, x, alignment); }
    }
    RoundedUp(ptr, alignment);
  }

  lemma MaskIsMod(ptr: nat, alignment: nat)
    requires IsPow2(alignment)
    ensures 0 < alignment && And(ptr, alignment - 1) == ptr % alignment
  {
    var k: nat :| alignment == Pow2(k);
    AndLowMask(ptr, k);
  }

  lemma RoundedUp(ptr: nat, a: nat)
    requires 0 < a
    ensures MultipleOf(ptr + (a - ptr % a), a)
  {
    var q := ptr / a;
    assert a * (q + 1) == a * q + a;
    ModOf(ptr + (a - ptr % a), a, q + 1, 0);
  }

  lemma NoneBetween(ptr: nat, x: nat, a: nat)
    requires 0 < a && ptr % a != 0 && ptr <= x && x % a == 0
    ensures ptr + (a - ptr % a) <= x
  {
    var q, n := ptr / a, x / a;
    assert ptr == a * q + ptr % a && x == a * n;
    if n <= q {
      MulMonotone(a, n, q);
    } else {
      MulMonotone(a, q + 1, n);
      assert a * (q + 1) == a * q + a;
    }
  }

  // ---- placing blocks ----

  datatype Arena = Arena(base: nat, allocatedSize: nat, current: nat)

  datatype Block = Block(offset: nat, size: nat, alignment: nat)

  predicate ValidArena(a: Arena) {
    a.base != NULL && a.current <= a.allocatedSize && a.base + a.allocatedSize < UINT64
  }

  /** What the types and the assertion on the alignment ask for. */
  ghost predicate Words(size: nat, alignment: nat) {
    IsPow2(alignment) && alignment < UINT64 && size < UINT64
  }

  function OffsetFor(a: Arena, alignment: nat): nat
    requires 0 < alignment
  {
    AlignForward(a.base + a.current, alignment) - a.base
  }

  function Placed(a: Arena, size: nat, alignment: nat): Arena
    requires 0 < alignment
  {
    if Accepts(a, size, alignment) then a.(current := (OffsetFor(a, alignment) + size) % UINT64) else a
  }

  /** The test of the code, whose sum wraps. */
  predicate Accepts(a: Arena, size: nat, alignment: nat)
    requires 0 < alignment
  {
    (OffsetFor(a, alignment) + size) % UINT64 <= a.allocatedSize
  }

  /** The end of the request wraps around and lands inside the arena. */
  predicate Overflows(a: Arena, size: nat, alignment: nat)
    requires 0 < alignment
  {
    UINT64 <= OffsetFor(a, alignment) + size <= UINT64 + a.allocatedSize
  }

  predicate Fits(a: Arena, size: nat, alignment: nat)
    requires 0 < alignment
  {
    OffsetFor(a, alignment) + size <= a.allocatedSize
  }

  /** A place that the request could have: free, aligned and inside the arena. */
  predicate CouldLieAt(a: Arena, size: nat, alignment: nat, offset: nat)
    requires 0 < alignment
  {
    a.current <= offset && MultipleOf(a.base + offset, alignment) && offset + size <= a.allocatedSize
  }

  /** The next address of a word-sized alignment is 2^64 at most, so that the offset is a word. */
  lemma OffsetIsWord(a: Arena, alignment: nat)
    requires ValidArena(a) && IsPow2(alignment) && alignment < UINT64
    ensures 0 < alignment && a.current <= OffsetFor(a, alignment) < UINT64
    ensures MultipleOf(a.base + OffsetFor(a, alignment), alignment)
  {
    hide And, Pow2, AlignForward, MultipleOf;
    AlignForwardLeast(a.base + a.current, alignment);
    WordMultiple(alignment);
  }

  lemma WordMultiple(alignment: nat)
    requires IsPow2(alignment) && alignment < UINT64
    ensures 0 < alignment && MultipleOf(UINT64, alignment)
  {
    hide Pow2;
    Pow2Words();
    var k: nat :| alignment == Pow2(k);
    if 64 <= k { Pow2Monotone(64, k); }
    Pow2Sum(k, 64 - k);
    ModOf(UINT64, alignment, Pow2(64 - k), 0);
  }

  /**
   The place for a request is aligned and behind everything handed out. The code accepts exactly
   the requests for which there is some place, exactly if the end of the request does not overflow.
   */
  lemma PlacedWell(a: Arena, size: nat, alignment: nat)
    requires ValidArena(a) && Words(size, alignment)
    ensures 0 < alignment && ValidArena(Placed(a, size, alignment))
    ensures a.current <= OffsetFor(a, alignment)
    ensures MultipleOf(a.base + OffsetFor(a, alignment), alignment)
    ensures Fits(a, size, alignment) <==> exists offset: nat :: CouldLieAt(a, size, alignment, offset)
    ensures (Accepts(a, size, alignment) <==> Fits(a, size, alignment)) <==> !Overflows(a, size, alignment)
    ensures !Accepts(a, size, alignment) ==> Placed(a, size, alignment) == a
    ensures forall offset: nat | CouldLieAt(a, size, alignment, offset) :: OffsetFor(a, alignment) <= offset
  {
    hide And, IsPow2, AlignForward, MultipleOf;
    OffsetIsWord(a, alignment);
    var at := OffsetFor(a, alignment);
    if Fits(a, size, alignment) {
      assert CouldLieAt(a, size, alignment, at);
    }
    AlignForwardLeast(a.base + a.current, alignment);
  }

  /** What a request comes to that does not overflow. */
  lemma Served(a: Arena, size: nat, alignment: nat)
    requires ValidArena(a) && Words(size, alignment) && 0 < alignment && !Overflows(a, size, alignment)
    ensures var offset := OffsetFor(a, alignment); var end := (offset + size) % UINT64;
      && a.current <= offset && (a.base + offset) % alignment == 0 && ValidArena(Placed(a, size, alignment))
      && (end <= a.allocatedSize <==> Fits(a, size, alignment))
      && (end <= a.allocatedSize ==> end == offset + size && Placed(a, size, alignment) == a.(current := end))
      && (end > a.allocatedSize ==> Placed(a, size, alignment) == a)
  {
    hide OffsetFor, IsPow2, CouldLieAt;
    PlacedWell(a, size, alignment);
    OffsetIsWord(a, alignment);
  }

  /** A request of 2^64 - 8 bytes is accepted by an arena of sixteen, which then counts as empty. */
  lemma OverflowsHere()
    ensures var a := Arena(4096, 16, 8);
      && ValidArena(a) && Words(UINT64 - 8, 8) && Overflows(a, UINT64 - 8, 8)
      && Accepts(a, UINT64 - 8, 8) && Placed(a, UINT64 - 8, 8) == Arena(4096, 16, 0)
  {
    Pow2Small();
    MaskIsMod(4104, 8);
  }

  // ---- runs ----

  datatype Request = Allocate(size: nat, alignment: nat) | Reset

  /** The arena and the blocks handed out since it was created or last reset. */
  datatype History = History(arena: Arena, blocks: seq<Block>)

  ghost predicate Acceptable(a: Arena, request: Request) {
    request.Allocate? ==>
      Words(request.size, request.alignment) && 0 < request.alignment
      && !Overflows(a, request.size, request.alignment)
  }

  ghost function Step(h: History, request: Request): History
    requires Acceptable(h.arena, request)
  {
    match request
    case Reset => History(h.arena.(current := 0), [])
    case Allocate(size, alignment) =>
      if Accepts(h.arena, size, alignment)
      then History(Placed(h.arena, size, alignment), h.blocks + [Block(OffsetFor(h.arena, alignment), size, alignment)])
      else h
  }

  ghost predicate BlockInside(a: Arena, b: Block) {
    0 < b.alignment && MultipleOf(a.base + b.offset, b.alignment) && b.offset + b.size <= a.current
  }

  predicate Behind(b: Block, c: Block) {
    b.offset + b.size <= c.offset
  }

  ghost predicate LaidOut(h: History) {
    && ValidArena(h.arena)
    && (forall i | 0 <= i < |h.blocks| :: BlockInside(h.arena, h.blocks[i]))
    && (forall i, j | 0 <= i < j < |h.blocks| :: Behind(h.blocks[i], h.blocks[j]))
  }

  lemma StepLaysOut(h: History, request: Request)
    requires LaidOut(h) && Acceptable(h.arena, request)
    ensures LaidOut(Step(h, request))
  {
    hide MultipleOf, Words, OffsetFor, CouldLieAt;
    match request
    case Reset =>
    case Allocate(size, alignment) =>
      PlacedWell(h.arena, size, alignment);
  }

  ghost predicate AllAcceptable(h: History, requests: seq<Request>)
    decreases |requests|
  {
    requests == [] ||
    (Acceptable(h.arena, requests[0]) && AllAcceptable(Step(h, requests[0]), requests[1..]))
  }

  ghost function Run(h: History, requests: seq<Request>): History
    requires AllAcceptable(h, requests)
    decreases |requests|
  {
    if requests == [] then h else Run(Step(h, requests[0]), requests[1..])
  }

  predicate Holds(b: Block, x: int) {
    b.offset <= x < b.offset + b.size
  }

  ghost predicate Disjoint(b: Block, c: Block) {
    forall x :: !(Holds(b, x) && Holds(c, x))
  }

  /** Over any run: aligned blocks, inside the arena, no byte in two of them. */
  lemma {:induction false} RunLaysOut(h: History, requests: seq<Request>)
    requires LaidOut(h) && AllAcceptable(h, requests)
    ensures LaidOut(Run(h, requests))
    ensures var end := Run(h, requests);
      && end.arena.base == h.arena.base && end.arena.allocatedSize == h.arena.allocatedSize
      && (forall i | 0 <= i < |end.blocks| :: end.blocks[i].offset + end.blocks[i].size <= end.arena.allocatedSize)
      && (forall i, j | 0 <= i < |end.blocks| && 0 <= j < |end.blocks| && i != j ::
            Disjoint(end.blocks[i], end.blocks[j]))
    decreases |requests|
  {
    hide AlignForward, OffsetFor, Words;
    if requests == [] {
      forall i, j | 0 <= i < |h.blocks| && 0 <= j < |h.blocks| && i != j ensures Disjoint(h.blocks[i], h.blocks[j]) {
        assert if i < j then Behind(h.blocks[i], h.blocks[j]) else Behind(h.blocks[j], h.blocks[i]);
      }
      assert forall i | 0 <= i < |h.blocks| :: BlockInside(h.arena, h.blocks[i]);
    } else {
      StepLaysOut(h, requests[0]);
      RunLaysOut(Step(h, requests[0]), requests[1..]);
    }
  }

  // ---- the allocator ----

  class LinearAllocator {
    var base: nat
    var allocatedSize: nat
    var current: nat
    var bytes: array<Byte>

    ghost function State(): Arena
      reads this
    {
      Arena(base, allocatedSize, current)
    }

    ghost predicate Valid()
      reads this
    {
      ValidArena(State()) && bytes.Length == allocatedSize
    }

    /** `address` is where calloc puts the bytes. */
    constructor (size: nat, address: nat)
      requires address != NULL && address + size < UINT64
      ensures Valid() && State() == Arena(address, size, 0) && fresh(bytes)
      ensures LaidOut(History(State(), []))
      ensures forall k | 0 <= k < size :: bytes[k] == 0
    {
      allocatedSize := size;
      base := address;
      current := 0;
      bytes := new Byte[size](_ => 0);
    }

    method AllocateAligned(size: nat, alignment: nat) returns (ptr: nat)
      requires Valid() && Words(size, alignment) && 0 < alignment && !Overflows(State(), size, alignment)
      modifies `current, bytes
      ensures Valid() && State() == Placed(old(State()), size, alignment)
      ensures Fits(old(State()), size, alignment) <==> ptr != NULL
      ensures ptr != NULL ==> ptr == base + OffsetFor(old(State()), alignment) && ptr + size == base + current
      ensures ptr != NULL ==> ptr % alignment == 0 && base + old(current) <= ptr
      ensures ptr != NULL ==> forall k | ptr - base <= k < current :: bytes[k] == 0
      ensures ptr != NULL ==>
        forall k | 0 <= k < ptr - base || current <= k < allocatedSize :: bytes[k] == old(bytes[k])
      ensures ptr == NULL ==> bytes[..] == old(bytes[..])
    {
      hide AlignForward, Words, Overflows, Accepts, Placed, Fits;
      Served(State(), size, alignment);
      var offset := AlignForward(base + current, alignment) - base;
      var end := (offset + size) % UINT64;
      if end <= allocatedSize {
        ptr := base + offset;
        current := end;
        forall k | offset <= k < offset + size {
          bytes[k] := 0;
        }
        return;
      }
      return NULL;
    }

    method Reset()
      requires Valid()
      modifies `current
      ensures Valid() && State() == old(State()).(current := 0)
    {
      current := 0;
    }
  }
}
