# Built-in allocator wrapper of LVGL, modelled in Dafny

This project models `src/misc/lv_malloc_builtin.c`, the layer of LVGL's
built-in heap that sits on top of the TLSF (Two-Level Segregated Fit)
engine. That layer keeps four process-wide variables: the engine
instance `tlsf`, the watermark counters `cur_used` and `max_used`, and
the pool registry `pool_ll`. It offers these operations:

- init and deinit of the heap over the configured primary pool;
- adding and removing extra pools, recorded in an insertion-ordered
  registry;
- `malloc`, `realloc` and `free`, which pass through to the engine and
  keep the watermark counters;
- a usage monitor that walks every block of every registered pool and
  fills in an `lv_mem_monitor_t` record;
- an integrity test that runs the engine's whole-heap check and then
  checks each pool.

The four variables are the fields of the class `BuiltinMalloc.Heap`.
`Heap.Valid()` is the invariant that every operation keeps. It says that
the counters fit in 32 bits with `cur_used <= max_used`. It also says
that the registry lists each non-null pool the engine owns exactly once,
and nothing else.

The TLSF engine is foreign code. It is modelled only as far as the
wrapper can observe it (module `Tlsf`):

- a map from pool handle to pool;
- each pool's blocks `(size, used)` in address order, as its pool walk
  reports them;
- the verdicts of the whole-heap check and the per-pool check.

The engine calls fall into two kinds:

- The outcomes of the engine's `malloc`, `realloc`, `free` and
  `add_pool` are parameters of the wrapper method that makes the call.
  For the first three that parameter is a `Reply`, which holds the return
  value and the engine state after the call. For `free`, the return value
  is the size of the freed block. For `add_pool` the parameter is an
  optional `Grant`, which holds the new pool's handle and blocks.
- The two checks are not calls in the model: their verdicts are fields
  of the engine state.
- Pool bookkeeping has a fixed effect, written as the functions
  `Tlsf.CreateWithPool`, `Tlsf.AddPool` and `Tlsf.RemovePool`. The
  section on what is left out lists what those functions decide.

Modules:

- `Tlsf`: the abstract engine.
- `Registry`: the pool list and its first-match unlink.
- `Watermark`: the counter arithmetic and its invariant over any run of
  calls.
- `Usage`: the monitor record, the walker, the fold of the walker over
  the blocks, and the percentage formulas.
- `BuiltinMalloc`: the `Heap` class with the nine operations.

Two behaviours of the code are easy to misread as their opposite. The
model follows the code in both:

- `lv_malloc_builtin` adds the requested size to `cur_used` before
  calling the engine. It does so even when the engine returns NULL, so a
  failed allocation still raises the counters.
- `lv_mem_init_builtin` and `lv_mem_deinit_builtin` do not reset
  `cur_used` or `max_used`. In the model the counters are zero only at
  program start (the `Heap` constructor).

## Model

| member | source | states |
|---|---|---|
| `BuiltinMalloc.Heap.constructor` | src/misc/lv_malloc_builtin.c:49-52 | at program start both counters are zero; after the first init the registry is exactly the new engine's primary pool and the invariant holds |
| `BuiltinMalloc.Heap.Init` | src/misc/lv_malloc_builtin.c:74-97 | the engine is freshly created, the registry is exactly `[primary]`, and `cur_used`/`max_used` are unchanged (in the model only: list-node allocation is left out) |
| `BuiltinMalloc.Heap.Deinit` | src/misc/lv_malloc_builtin.c:99-104 | leaves the same one-entry registry and fresh engine as init, with the counters unchanged (in the model only: list-node release and allocation are left out) |
| `BuiltinMalloc.Heap.AddPool` | src/misc/lv_malloc_builtin.c:106-119 | if the engine refuses, returns NULL and nothing changes; otherwise the handle goes at the tail, earlier entries stay as they were, the engine owns the pool, and that same handle is returned; the counters are unchanged (in the model only: list-node allocation is left out) |
| `BuiltinMalloc.Heap.RemovePool` | src/misc/lv_malloc_builtin.c:121-133 | a known handle: the registry loses its first matching entry and the engine drops that pool; an unknown handle: neither the registry nor the engine changes; the counters never change (in the model only: list-node release is left out) |
| `BuiltinMalloc.Heap.Monitor` | src/misc/lv_malloc_builtin.c:135-158 | the record returned is `Usage.Report` of all blocks of all registered pools, in registry order, and of the current `max_used` |
| `BuiltinMalloc.Heap.Malloc` | src/misc/lv_malloc_builtin.c:160-165 | the counters become `Watermark.Alloc` of the old ones and the requested size, whatever pointer the engine returns; the engine's pointer is returned |
| `BuiltinMalloc.Heap.Realloc` | src/misc/lv_malloc_builtin.c:167-170 | neither counter changes; the engine's pointer is returned |
| `BuiltinMalloc.Heap.Free` | src/misc/lv_malloc_builtin.c:172-180 | the counters become `Watermark.Release` of the old ones and the block size the engine reports |
| `BuiltinMalloc.Heap.Test` | src/misc/lv_malloc_builtin.c:182-199 | returns OK exactly when the whole-heap check and every registered pool's check pass; a failing whole-heap check means no pool is checked; otherwise it stops at the first failing pool in registry order, after all earlier pools have passed; it changes no state |
| `BuiltinMalloc.AddPoolWalk` | src/misc/lv_malloc_builtin.c:114-116 | after a pool is appended, the monitor walks the old blocks and then the new pool's, so its total size and both block counts grow by exactly the new pool's |
| `Registry.RemoveFirst` | src/misc/lv_malloc_builtin.c:124-131 | the first-match unlink; it has no contract of its own, and its meaning is proved in `Registry.RemoveFirstSpec` and `Registry.RemoveFirstDistinct` |
| `Registry.IndexOf` | src/misc/lv_malloc_builtin.c:124-125 | the scan stops at an entry equal to the handle, and no earlier entry is equal to it |
| `Registry.RemoveFirstSpec` | src/misc/lv_malloc_builtin.c:121-133 | an absent handle leaves the list as it was; a present one loses exactly one copy (multiset minus one element); putting the handle back where it was restores the list, so all other entries keep their relative order |
| `Registry.RemoveFirstDistinct` | src/misc/lv_malloc_builtin.c:124-131 | on a duplicate-free registry, unlinking keeps it duplicate-free, and it removes that handle and only that handle |
| `Watermark.Alloc` | src/misc/lv_malloc_builtin.c:162-163 | `cur_used` becomes `cur_used + size` modulo 2^32 (exactly the sum when no wrap occurs); `max_used` becomes the larger of the new `cur_used` and the old `max_used`, so it is at least `cur_used` and never decreases |
| `Watermark.Release` | src/misc/lv_malloc_builtin.c:177-179 | `cur_used` drops by the freed size, or to 0 when the size is at least `cur_used`; it never grows; `max_used` is untouched |
| `Watermark.ReplayKeepsSane` | src/misc/lv_malloc_builtin.c:160-180 | over any sequence of malloc, realloc and free calls, `cur_used <= max_used < 2^32` holds throughout and `max_used` never decreases |
| `Watermark.ReplayWithoutMallocKeepsMax` | src/misc/lv_malloc_builtin.c:167-180 | a sequence of only reallocs and frees leaves `max_used` fixed and never raises `cur_used` |
| `Usage.Walker` | src/misc/lv_malloc_builtin.c:205-220 | `lv_mem_walker`'s update of the record for one block; it has no contract of its own, and its meaning, folded over the blocks, is proved in `Usage.TallyMeans`, `Usage.TallyBiggest` and `Usage.TallyBounds` |
| `Usage.Tally` | src/misc/lv_malloc_builtin.c:138-144 | the zeroed record after the walker has seen each block in order; it has no contract of its own, and its meaning is proved in `Usage.TallyMeans`, `Usage.TallyBiggest` and `Usage.TallyBounds` |
| `BuiltinMalloc.AllBlocks` | src/misc/lv_malloc_builtin.c:141-144 | the blocks the `_LV_LL_READ` walk visits, pool by pool in registry order; it has no contract of its own, and `Usage.Tally` of it is what `Heap.Monitor` computes, with its meaning proved in `Usage.TallyMeans`, `Usage.TallyBiggest` and `Usage.TallyBounds` |
| `Usage.TallyMeans` | src/misc/lv_malloc_builtin.c:205-220 | walking the zeroed record over the blocks gives: `total_size` = sum of all block sizes; `free_cnt` = number of free blocks; `free_size` = sum of free block sizes; `used_cnt` = number of used blocks |
| `Usage.TallyBiggest` | src/misc/lv_malloc_builtin.c:217-218 | `free_biggest_size` is at least every free block's size, and when it is positive some free block has exactly that size |
| `Usage.TallyBounds` | src/misc/lv_malloc_builtin.c:210-219 | `used_cnt + free_cnt` is the block count, and `free_biggest_size <= free_size <= total_size` |
| `Usage.TallyAppend` | src/misc/lv_malloc_builtin.c:142-144 | walking one block run after another adds the sums and counts, and the largest free block is the larger of the two |
| `Usage.UsedPct` | src/misc/lv_malloc_builtin.c:146 | `100 - 100*free_size/total_size` lies in 0..100; it is 0 exactly when all memory is free, and 100 exactly when less than one percent is free |
| `Usage.FragPct` | src/misc/lv_malloc_builtin.c:147-153 | `100 - free_biggest_size*100/free_size`, or 0 when nothing is free; it lies in 0..100, and it is 0 exactly when nothing is free or all free memory is a single block |
| `Usage.Finish` | src/misc/lv_malloc_builtin.c:146-155 | after the walk, only the two percentages and `max_used` are set; the walked fields are kept, `max_used` is copied, and both percentages are at most 100 |
| `Usage.Report` | src/misc/lv_malloc_builtin.c:135-158 | the monitor record for a block list with positive total size; the ensures spell out each field's meaning (sums, counts, largest free block as maximum, bounds, the percentage formulas, the copied `max_used`) |

## Left out

- The TLSF engine itself is not modelled: creation, malloc, free, realloc,
  the pool walk, the checks, and pool add and remove. The outcomes of
  malloc, realloc and free, and the pool an accepted add_pool yields, are
  parameters. They are bound by two engine guarantees: malloc, realloc
  and free keep the same set of pools, and a pool the engine accepts has
  a new, non-null handle.
- The handle of the primary pool is taken to be non-null. That is a
  third engine guarantee, a `requires` of the `Heap` constructor, `Init`
  and `Deinit`.
- The pool bookkeeping outcomes are fixed rather than left free:
  - `lv_tlsf_create_with_pool`, alone or after `lv_tlsf_destroy` in
    deinit, gives an engine that owns only the primary pool and whose
    whole-heap check passes (`Tlsf.CreateWithPool`).
  - `lv_tlsf_add_pool` adds the granted pool. Every earlier pool and the
    whole-heap verdict stay as they were (`Tlsf.AddPool`).
  - `lv_tlsf_remove_pool` takes no outcome parameter. It drops that pool
    and keeps every other pool and the whole-heap verdict
    (`Tlsf.RemovePool`).
- `BuiltinMalloc.Heap.RemovePool`: removing a pool that still holds used
  blocks is undefined in the program, but it is modelled as a clean
  removal. The blocks go with the pool, and the counters keep the bytes
  those blocks were charged.
- `lv_tlsf_create_with_pool` failing is not modelled. It is left out
  together with the platform acquisition of the primary region:
  `LV_MEM_ADR`, the static `work_mem_int` array, and the
  `LV_MEM_POOL_ALLOC` call, which gets the region at run time and may
  fail.
- `BuiltinMalloc.Heap.AddPool` takes no region address or length. The
  region matters only to the engine, whose answer is the `grant`
  parameter.
- The registry is a sequence. Its list nodes, which `_lv_ll_ins_tail`
  and `lv_free` take from and give back to the heap itself, are not
  modelled. Neither is the `LV_ASSERT_MALLOC` check on them. So the
  counter changes caused by node allocation and release are not
  captured either. In the program, `cur_used` goes up (and `max_used`
  may go up) when init and add_pool take a node. `cur_used` goes down
  when remove_pool frees a node with `lv_free` and when deinit clears
  the list. The "counters unchanged" ensures of `BuiltinMalloc.Heap.Init`,
  `BuiltinMalloc.Heap.Deinit`, `BuiltinMalloc.Heap.AddPool` and
  `BuiltinMalloc.Heap.RemovePool` hold of the model only.
- Logging, `MEM_TRACE` and the `LV_MEM_ADD_JUNK` debug fill are
  diagnostics only and are left out.
- `BuiltinMalloc.Heap.Monitor`: the fields of `lv_mem_monitor_t` are
  unbounded naturals, because that struct's field widths are not part of
  this model. An overflow of `100U * free_size` is therefore not
  captured.
- `BuiltinMalloc.Heap.Monitor` requires the registered pools to hold at
  least one byte. The source divides by `total_size` and has no guard
  against zero. That happens once every pool, the primary included, has
  been removed.
- `BuiltinMalloc.Heap.Test`: the per-pool and whole-heap check verdicts
  are fields of the abstract engine state. What those checks inspect
  inside the engine is not modelled.
- `src/core/lv_disp_private.h` and `src/hal/lv_hal.h` hold only type
  definitions and includes, with no behaviour to model.
