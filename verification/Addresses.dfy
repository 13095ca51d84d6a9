/**
 Addresses as the C library hands them out. A heap is a map from the addresses in use to the
 records that lie there, so freeing a record takes its address out of the map.
 */
module Addresses {
  type Ptr = nat
  const NULL: Ptr := 0

  /** calloc's promise for a new address: it is not null and not in use. */
  method FreshAddress<V>(heap: map<Ptr, V>) returns (p: Ptr)
    ensures p != NULL && p !in heap
  {
    p := 1;
    ghost var passed: set<Ptr> := {};
    while p in heap
      invariant p != NULL && passed <= heap.Keys
      invariant forall q | q in passed :: q < p
      decreases |heap.Keys - passed|
    {
      passed := passed + {p};
      p := p + 1;
    }
  }
}
