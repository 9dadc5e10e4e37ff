/**
 * The built-in allocator wrapper of `lv_malloc_builtin.c`: the process-
 * wide engine handle, the two watermark counters and the pool registry,
 * and the operations that update them.
 *
 * Every call into the TLSF engine is foreign.  The outcome of malloc,
 * realloc and free enters the model as a `Reply` parameter, carrying the
 * engine's return value and the engine state it leaves behind; an
 * accepted pool enters as the engine's `Grant`.  The requirements on
 * those parameters are the engine's own contract, not demands on the
 * wrapper's callers.  Creating the engine and adding or removing a pool
 * have the fixed effects `Tlsf.CreateWithPool`, `Tlsf.AddPool` and
 * `Tlsf.RemovePool`.
 */
module BuiltinMalloc {
  import opened Tlsf
  import Registry
  import Watermark
  import Usage

  /** `lv_res_t`. */
  datatype Res = Inv | Ok

  /** Every block of the pools of `reg`, pool by pool in registry order. */
  function AllBlocks(e: Engine, reg: seq<Ptr>): seq<Block>
    requires forall h :: h in reg ==> h in e.pools
  {
    if reg == [] then []
    else AllBlocks(e, reg[..|reg| - 1]) + e.pools[reg[|reg| - 1]].blocks
  }

  /** The walk over `reg` reads only the pools listed in `reg`. */
  lemma {:induction false} AllBlocksFrame(e: Engine, e': Engine, reg: seq<Ptr>)
    requires forall h :: h in reg ==> h in e.pools && h in e'.pools && e.pools[h] == e'.pools[h]
    ensures AllBlocks(e, reg) == AllBlocks(e', reg)
    decreases |reg|
  {
    if reg != [] {
      AllBlocksFrame(e, e', reg[..|reg| - 1]);
    }
  }

  /**
   * After the engine accepts a pool and it is appended to the registry,
   * the monitor walks the old blocks followed by the new pool's: its total
   * size and both block counts grow by exactly the new pool's.
   */
  lemma AddPoolWalk(e: Engine, reg: seq<Ptr>, g: Grant)
    requires forall h :: h in reg ==> h in e.pools
    requires g.handle !in e.pools
    ensures forall h :: h in reg + [g.handle] ==> h in Tlsf.AddPool(e, g).pools
    ensures AllBlocks(Tlsf.AddPool(e, g), reg + [g.handle]) == AllBlocks(e, reg) + g.pool.blocks
    ensures Usage.SumSizes(AllBlocks(Tlsf.AddPool(e, g), reg + [g.handle]))
         == Usage.SumSizes(AllBlocks(e, reg)) + Usage.SumSizes(g.pool.blocks)
    ensures Usage.Tally(AllBlocks(Tlsf.AddPool(e, g), reg + [g.handle])).usedCnt
         == Usage.Tally(AllBlocks(e, reg)).usedCnt + Usage.Tally(g.pool.blocks).usedCnt
    ensures Usage.Tally(AllBlocks(Tlsf.AddPool(e, g), reg + [g.handle])).freeCnt
         == Usage.Tally(AllBlocks(e, reg)).freeCnt + Usage.Tally(g.pool.blocks).freeCnt
  {
    var e' := Tlsf.AddPool(e, g);
    AllBlocksFrame(e, e', reg);
    assert (reg + [g.handle])[..|reg|] == reg;
    Usage.SumSizesAppend(AllBlocks(e, reg), g.pool.blocks);
    Usage.TallyAppend(AllBlocks(e, reg), g.pool.blocks);
  }

  class Heap {
    /** `tlsf`: the engine instance. */
    var tlsf: Engine
    /** `cur_used`, `max_used`: 32-bit watermark counters. */
    var curUsed: nat
    var maxUsed: nat
    /** `pool_ll`: the registered pool handles in insertion order. */
    var poolLl: seq<Ptr>

    ghost function Counters(): Watermark.Counters
      reads this
    {
      Watermark.Counters(curUsed, maxUsed)
    }

    /**
     * The counters fit in 32 bits with current use under the mark, and
     * the registry lists, once each, exactly the non-null pools the
     * engine owns.
     */
    ghost predicate Valid()
      reads this
    {
      && Watermark.Sane(Counters())
      && Registry.Distinct(poolLl)
      && NULL !in poolLl
      && forall h :: h in poolLl <==> h in tlsf.pools
    }

    /** Every block the monitor walks. */
    ghost function Blocks(): seq<Block>
      reads this
      requires Valid()
    {
      AllBlocks(tlsf, poolLl)
    }

    /**
     * Program start: the statics are zero, then `lv_mem_init_builtin`
     * runs.  The engine created over the configured region reports
     * `primary` as its pool, laid out as `pool`.
     */
    constructor (primary: Ptr, pool: Pool)
      requires primary != NULL
      ensures Valid()
      ensures tlsf == CreateWithPool(primary, pool) && poolLl == [primary]
      ensures curUsed == 0 && maxUsed == 0
    {
      curUsed, maxUsed := 0, 0;
      tlsf := CreateWithPool(primary, pool);
      poolLl := [primary];
    }

    /**
     * `lv_mem_init_builtin`: a new engine over the configured region, and
     * a registry holding only its primary pool.  The counters are left
     * as they are.
     */
    method Init(primary: Ptr, pool: Pool)
      requires Valid() && primary != NULL
      modifies this
      ensures Valid()
      ensures tlsf == CreateWithPool(primary, pool) && poolLl == [primary]
      ensures curUsed == old(curUsed) && maxUsed == old(maxUsed)
    {
      tlsf := CreateWithPool(primary, pool);
      poolLl := [];
      poolLl := poolLl + [primary];
    }

    /**
     * `lv_mem_deinit_builtin`: clear the registry, drop the engine, and
     * initialize again.
     */
    method Deinit(primary: Ptr, pool: Pool)
      requires Valid() && primary != NULL
      modifies this
      ensures Valid()
      ensures tlsf == CreateWithPool(primary, pool) && poolLl == [primary]
      ensures curUsed == old(curUsed) && maxUsed == old(maxUsed)
    {
      poolLl := [];
      tlsf := Engine(map[], true);
      Init(primary, pool);
    }

    /**
     * `lv_mem_builtin_add_pool`.  The region only matters to the engine;
     * `grant` is its answer, `None` when it refused the region.  A
     * refused region leaves everything as it was and yields NULL; an
     * accepted one is appended to the registry and its handle returned.
     */
    method AddPool(grant: Option<Grant>) returns (r: Ptr)
      requires Valid()
      requires grant.Some? ==> grant.value.handle != NULL && grant.value.handle !in tlsf.pools
      modifies this
      ensures Valid()
      ensures grant.None? ==> r == NULL && tlsf == old(tlsf) && poolLl == old(poolLl)
      ensures grant.Some? ==>
        && r == grant.value.handle
        && tlsf == Tlsf.AddPool(old(tlsf), grant.value)
        && poolLl == old(poolLl) + [r]
      ensures curUsed == old(curUsed) && maxUsed == old(maxUsed)
    {
      if grant.None? {
        return NULL;
      }
      var newPool := grant.value.handle;
      tlsf := Tlsf.AddPool(tlsf, grant.value);
      Registry.AppendDistinct(poolLl, newPool);
      poolLl := poolLl + [newPool];
      r := newPool;
    }

    /**
     * `lv_mem_builtin_remove_pool`: scan the registry front to back; at
     * the first entry equal to `pool`, unlink it and make the engine drop
     * that pool.  An unknown handle changes nothing.
     */
    method RemovePool(pool: Ptr)
      requires Valid()
      modifies this
      ensures Valid()
      ensures pool in old(poolLl) ==>
        && poolLl == Registry.RemoveFirst(old(poolLl), pool)
        && tlsf == Tlsf.RemovePool(old(tlsf), pool)
      ensures pool !in old(poolLl) ==> poolLl == old(poolLl) && tlsf == old(tlsf)
      ensures curUsed == old(curUsed) && maxUsed == old(maxUsed)
    {
      var i := 0;
      while i < |poolLl|
        invariant 0 <= i <= |poolLl|
        invariant pool !in poolLl[..i]
        invariant poolLl == old(poolLl) && tlsf == old(tlsf)
        invariant curUsed == old(curUsed) && maxUsed == old(maxUsed)
      {
        if poolLl[i] == pool {
          Registry.IndexOfUnique(poolLl, pool, i);
          Registry.RemoveFirstDistinct(poolLl, pool);
          poolLl := poolLl[..i] + poolLl[i + 1..];
          tlsf := Tlsf.RemovePool(tlsf, pool);
          return;
        }
        i := i + 1;
      }
      assert poolLl[..i] == poolLl;
    }

    /**
     * `lv_mem_monitor_builtin` with `lv_mem_walker`: zero the record, walk
     * every block of every registered pool, then derive the percentages
     * and copy the high-water mark.  The source divides by the total
     * size, so the registered pools must hold at least one byte.
     */
    method Monitor() returns (mon: Usage.MemMonitor)
      requires Valid()
      requires Usage.SumSizes(Blocks()) > 0
      ensures mon == Usage.Report(Blocks(), maxUsed)
    {
      mon := Usage.Zero;
      var i := 0;
      while i < |poolLl|
        invariant 0 <= i <= |poolLl|
        invariant mon == Usage.Tally(AllBlocks(tlsf, poolLl[..i]))
      {
        var bs := tlsf.pools[poolLl[i]].blocks;
        ghost var before := AllBlocks(tlsf, poolLl[..i]);
        var j := 0;
        assert before + bs[..j] == before;
        while j < |bs|
          invariant 0 <= j <= |bs|
          invariant mon == Usage.Tally(before + bs[..j])
        {
          Usage.TallySnoc(before + bs[..j], bs[j]);
          assert before + bs[..j + 1] == (before + bs[..j]) + [bs[j]];
          mon := Usage.Walker(mon, bs[j]);
          j := j + 1;
        }
        assert bs[..j] == bs;
        assert poolLl[..i + 1][..i] == poolLl[..i];
        i := i + 1;
      }
      assert poolLl[..i] == poolLl;
      Usage.TallyMeans(Blocks());
      Usage.TallyBounds(Blocks());
      mon := Usage.Finish(mon, maxUsed);
    }

    /**
     * `lv_malloc_builtin`: count the request into the watermarks first,
     * whether or not the engine then finds memory, and return the
     * engine's pointer (NULL when it found none).
     */
    method Malloc(size: nat, reply: Reply<Ptr>) returns (p: Ptr)
      requires Valid() && SamePools(tlsf, reply.after)
      modifies this
      ensures Valid()
      ensures Counters() == Watermark.Alloc(old(Counters()), size)
      ensures p == reply.result && tlsf == reply.after && poolLl == old(poolLl)
    {
      curUsed := (curUsed + size) % Watermark.U32;
      maxUsed := if curUsed > maxUsed then curUsed else maxUsed;
      tlsf := reply.after;
      p := reply.result;
    }

    /** `lv_realloc_builtin`: the engine's answer, with no bookkeeping. */
    method Realloc(p: Ptr, newSize: nat, reply: Reply<Ptr>) returns (q: Ptr)
      requires Valid() && SamePools(tlsf, reply.after)
      modifies this
      ensures Valid()
      ensures curUsed == old(curUsed) && maxUsed == old(maxUsed)
      ensures q == reply.result && tlsf == reply.after && poolLl == old(poolLl)
    {
      tlsf := reply.after;
      q := reply.result;
    }

    /**
     * `lv_free_builtin`: the engine frees the block and reports its size,
     * which comes off the current use, stopping at zero.
     */
    method Free(p: Ptr, reply: Reply<nat>)
      requires Valid() && SamePools(tlsf, reply.after)
      modifies this
      ensures Valid()
      ensures Counters() == Watermark.Release(old(Counters()), reply.result)
      ensures tlsf == reply.after && poolLl == old(poolLl)
    {
      tlsf := reply.after;
      var size := reply.result;
      if curUsed > size {
        curUsed := curUsed - size;
      } else {
        curUsed := 0;
      }
    }

    /**
     * `lv_mem_test_builtin`: the whole-heap check, then each pool's check in
     * registry order, stopping at the first failure.  `checked` counts the
     * per-pool checks made.
     */
    method Test() returns (res: Res, ghost checked: nat)
      requires Valid()
      ensures res == Ok <==>
        tlsf.intact && forall k :: 0 <= k < |poolLl| ==> tlsf.pools[poolLl[k]].intact
      ensures !tlsf.intact ==> res == Inv && checked == 0
      ensures checked <= |poolLl|
      ensures forall k :: 0 <= k < checked - 1 ==> tlsf.pools[poolLl[k]].intact
      ensures res == Inv && tlsf.intact ==> 0 < checked && !tlsf.pools[poolLl[checked - 1]].intact
      ensures res == Ok ==> checked == |poolLl|
    {
      checked := 0;
      if !tlsf.intact {
        res := Inv;
        return;
      }
      var i := 0;
      while i < |poolLl|
        invariant 0 <= i <= |poolLl| && checked == i
        invariant forall k :: 0 <= k < i ==> tlsf.pools[poolLl[k]].intact
      {
        checked := checked + 1;
        if !tlsf.pools[poolLl[i]].intact {
          res := Inv;
          return;
        }
        i := i + 1;
      }
      res := Ok;
    }
  }
}
