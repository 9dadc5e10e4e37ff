/**
 * The watermark counters `cur_used` and `max_used` kept by
 * `lv_malloc_builtin`, `lv_realloc_builtin` and `lv_free_builtin`.
 * Both are 32-bit unsigned, so `cur_used += size` wraps modulo 2^32.
 */
module Watermark {

  const U32: nat := 0x1_0000_0000

  datatype Counters = Counters(cur: nat, max: nat)

  /** Both counters fit in 32 bits and the high-water mark covers current use. */
  predicate Sane(c: Counters)
  {
    c.cur <= c.max < U32
  }

  /**
   * `lv_malloc_builtin`'s bookkeeping: the requested size is added to the
   * current use, whatever the engine then does, and the high-water mark
   * is raised to it.
   */
  function Alloc(c: Counters, size: nat): (r: Counters)
    ensures r.cur < U32 && (c.cur + size - r.cur) % U32 == 0
    ensures c.cur + size < U32 ==> r.cur == c.cur + size
    ensures r.cur <= r.max && c.max <= r.max
    ensures r.max == r.cur || r.max == c.max
    ensures Sane(c) ==> Sane(r)
  {
    var cur := (c.cur + size) % U32;
    Counters(cur, if cur > c.max then cur else c.max)
  }

  /**
   * `lv_free_builtin`'s bookkeeping: the size the engine reclaimed is taken
   * off the current use, stopping at zero; the high-water mark stays.
   */
  function Release(c: Counters, size: nat): (r: Counters)
    ensures r.max == c.max && r.cur <= c.cur
    ensures size < c.cur ==> r.cur == c.cur - size
    ensures c.cur <= size ==> r.cur == 0
    ensures Sane(c) ==> Sane(r)
  {
    Counters(if c.cur > size then c.cur - size else 0, c.max)
  }

  /**
   * A call to `lv_malloc_builtin`, `lv_realloc_builtin` or
   * `lv_free_builtin`, as far as the counters are concerned.
   */
  datatype Call = Malloc(size: nat) | Realloc | Free(freed: nat)

  /** The counters after one call. */
  function Step(c: Counters, call: Call): Counters
  {
    match call
    case Malloc(size) => Alloc(c, size)
    case Realloc => c
    case Free(freed) => Release(c, freed)
  }

  /**
   * The counters after a run of calls to `lv_malloc_builtin`,
   * `lv_realloc_builtin` and `lv_free_builtin`, first call first.
   */
  function Replay(c: Counters, calls: seq<Call>): Counters
    decreases calls
  {
    if calls == [] then c
    else Replay(Step(c, calls[0]), calls[1..])
  }

  /**
   * Over any run of allocations, reallocations and frees, current use
   * never exceeds the high-water mark and the mark never goes down.
   */
  lemma {:induction false} ReplayKeepsSane(c: Counters, calls: seq<Call>)
    requires Sane(c)
    ensures Sane(Replay(c, calls))
    ensures c.max <= Replay(c, calls).max
    decreases calls
  {
    if calls != [] {
      ReplayKeepsSane(Step(c, calls[0]), calls[1..]);
    }
  }

  /** Running only frees and reallocations never raises the high-water mark. */
  lemma {:induction false} ReplayWithoutMallocKeepsMax(c: Counters, calls: seq<Call>)
    requires forall k :: 0 <= k < |calls| ==> !calls[k].Malloc?
    ensures Replay(c, calls).max == c.max
    ensures Replay(c, calls).cur <= c.cur
    decreases calls
  {
    if calls != [] {
      ReplayWithoutMallocKeepsMax(Step(c, calls[0]), calls[1..]);
    }
  }
}
