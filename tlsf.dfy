/**
 * An abstract view of the TLSF engine that backs the built-in allocator.
 *
 * The engine's own split/coalesce machinery is not modelled.  What the
 * wrapper can observe of it is: the set of pools it owns, the blocks of
 * each pool in physical address order (as its pool walk reports them),
 * and the verdicts of its two integrity checks.
 */
module Tlsf {

  /** A machine address; 0 is the null pointer. */
  type Ptr = nat

  const NULL: Ptr := 0

  datatype Option<T> = None | Some(value: T)

  /** One block as the pool walk reports it: payload size and used flag. */
  datatype Block = Block(size: nat, used: bool)

  /**
   * A pool: its blocks in address order, and whether the engine's
   * per-pool check would accept it.
   */
  datatype Pool = Pool(blocks: seq<Block>, intact: bool)

  /**
   * The engine state: every pool it owns, keyed by pool handle, and
   * whether the whole-heap check of its control structure would pass.
   */
  datatype Engine = Engine(pools: map<Ptr, Pool>, intact: bool)

  /**
   * What one foreign engine call hands back: its return value and the
   * engine state it leaves behind.
   */
  datatype Reply<T> = Reply(result: T, after: Engine)

  /** The engine's answer to a pool request that it accepted. */
  datatype Grant = Grant(handle: Ptr, pool: Pool)

  /** A freshly created engine owning only its primary pool. */
  function CreateWithPool(primary: Ptr, pool: Pool): Engine
  {
    Engine(map[primary := pool], true)
  }

  /** The engine after it accepted one more pool. */
  function AddPool(e: Engine, g: Grant): Engine
  {
    e.(pools := e.pools[g.handle := g.pool])
  }

  /** The engine after it forgot a pool. */
  function RemovePool(e: Engine, h: Ptr): Engine
  {
    e.(pools := e.pools - {h})
  }

  /**
   * Allocation, reallocation and release move blocks around inside the
   * pools the engine already owns; they never add or drop a pool.
   */
  predicate SamePools(e: Engine, e': Engine)
  {
    e.pools.Keys == e'.pools.Keys
  }
}
