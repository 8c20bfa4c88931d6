/** The part of the C runtime the models rely on: the allocator, and library calls that may fail. */
module Environment {
  import opened Bytes

  const SUCCESS := 1
  const FATAL_ERROR := -1
  const MEMORY_E := -125

  /** `live` holds the blocks allocated and not yet freed. `faults` counts the failures the
      surroundings have injected: failed allocations and failed library calls. In quiet surroundings
      there are none. */
  class Env {
    const quiet: bool
    ghost var live: set<object>
    ghost var faults: nat

    constructor (quiet: bool)
      ensures this.quiet == quiet && live == {} && faults == 0
    {
      this.quiet := quiet;
      live, faults := {}, 0;
    }

    /** What every method keeps: failures are only ever added, and quiet surroundings add none. */
    ghost predicate Since(was: nat)
      reads this`faults
    {
      faults >= was && (quiet ==> faults == was)
    }

    /** XMALLOC: a fresh block with arbitrary content, or NULL. */
    method Malloc(n: nat) returns (block: array?<byte>)
      modifies this
      ensures quiet ==> block != null
      ensures block == null ==> live == old(live) && faults == old(faults) + 1
      ensures block != null ==> fresh(block) && block !in old(live) && block.Length == n
      ensures block != null ==> live == old(live) + {block} && faults == old(faults)
    {
      var fail: bool := *;
      if fail && !quiet {
        block := null;
        faults := faults + 1;
      } else {
        block := new byte[n];
        live := live + {block};
      }
    }

    /** XFREE: only a live block may be freed, and only once. */
    method Free(block: object)
      requires block in live
      modifies this
      ensures live == old(live) - {block} && faults == old(faults)
    {
      live := live - {block};
    }

    /** A library call that may fail for reasons of its own. */
    method Fails() returns (b: bool)
      modifies this
      ensures quiet ==> !b
      ensures live == old(live) && faults == old(faults) + (if b then 1 else 0)
    {
      b := *;
      b := b && !quiet;
      if b {
        faults := faults + 1;
      }
    }
  }

  /** wolfCLU_freeBins: up to five buffers, any of which may be NULL. */
  method FreeBins(env: Env, b1: array?<byte>, b2: array?<byte>, b3: array?<byte>, b4: array?<byte>, b5: array?<byte>)
    requires forall b | b in [b1, b2, b3, b4, b5] :: b != null ==> b in env.live
    requires b1 != null ==> b1 !in [b2, b3, b4, b5]
    requires b2 != null ==> b2 !in [b3, b4, b5]
    requires b3 != null ==> b3 !in [b4, b5]
    requires b4 != null ==> b4 != b5
    modifies env
    ensures env.live == old(env.live) - {b1, b2, b3, b4, b5} && env.faults == old(env.faults)
  {
    if b1 != null {
      env.Free(b1);
    }
    if b2 != null {
      env.Free(b2);
    }
    if b3 != null {
      env.Free(b3);
    }
    if b4 != null {
      env.Free(b4);
    }
    if b5 != null {
      env.Free(b5);
    }
  }
}
