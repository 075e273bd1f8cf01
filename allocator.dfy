/**
 * The allocator the engine and the data source draw memory from.
 *
 * Its implementation is not part of this model; what is modelled is its
 * contract: `Allocate` either hands out a fresh chunk of the requested size
 * or fails (the source sees a null pointer), and `Deallocate` releases a
 * chunk that is currently live. `live` is the set of chunks handed out and
 * not yet released, so a double free or a free of a foreign pointer is a
 * precondition violation.
 */
module Allocation {

  /** One allocation: a handle with the size it was requested with. */
  class Chunk {
    const size: nat

    constructor (size: nat)
      ensures this.size == size
    {
      this.size := size;
    }
  }

  class Allocator {
    ghost var live: set<Chunk>

    constructor ()
      ensures live == {}
    {
      live := {};
    }

    /** Whether the request can be satisfied is not determined by anything
        this model sees, so it is chosen nondeterministically. */
    method Allocate(size: nat) returns (c: Chunk?)
      modifies this
      ensures c == null ==> live == old(live)
      ensures c != null ==> fresh(c) && c !in old(live) && c.size == size && live == old(live) + {c}
    {
      var granted: bool := *;
      if granted {
        c := new Chunk(size);
        live := live + {c};
      } else {
        c := null;
      }
    }

    method Deallocate(c: Chunk)
      requires c in live
      modifies this
      ensures live == old(live) - {c}
    {
      live := live - {c};
    }
  }
}
