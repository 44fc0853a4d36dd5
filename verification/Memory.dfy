/** The allocator as a ledger: what malloc has handed out and free has not yet taken back. */
module Memory {
  class Ledger {
    ghost var live: set<object>

    constructor ()
      ensures live == {}
    {
      live := {};
    }

    /** malloc: the block was not live before. */
    ghost method Malloc(block: object)
      requires block !in live
      modifies this
      ensures live == old(live) + {block}
    {
      live := live + {block};
    }

    /** free: only a live block may be given back, so no block is ever freed twice. */
    ghost method Free(block: object)
      requires block in live
      modifies this
      ensures live == old(live) - {block}
    {
      live := live - {block};
    }
  }
}
