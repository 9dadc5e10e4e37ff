/**
 * The usage monitor: the record `lv_mem_monitor_t`, the per-block step
 * `lv_mem_walker` that the engine's pool walk calls, the fold of that
 * step over a run of blocks, and the two percentages computed after the
 * walk.
 */
module Usage {
  import opened Tlsf

  datatype MemMonitor = MemMonitor(
    totalSize: nat,
    freeCnt: nat,
    freeSize: nat,
    freeBiggestSize: nat,
    usedCnt: nat,
    maxUsed: nat,
    usedPct: nat,
    fragPct: nat)

  /** The record after it has been zeroed. */
  const Zero := MemMonitor(0, 0, 0, 0, 0, 0, 0, 0)

  /** What `lv_mem_walker` does to the record for one block. */
  function Walker(m: MemMonitor, b: Block): MemMonitor
  {
    var m := m.(totalSize := m.totalSize + b.size);
    if b.used then m.(usedCnt := m.usedCnt + 1)
    else m.(freeCnt := m.freeCnt + 1,
            freeSize := m.freeSize + b.size,
            freeBiggestSize := if b.size > m.freeBiggestSize then b.size else m.freeBiggestSize)
  }

  /** The zeroed record after the walker has seen every block of `bs`, in order. */
  function Tally(bs: seq<Block>): MemMonitor
  {
    if bs == [] then Zero
    else Walker(Tally(bs[..|bs| - 1]), bs[|bs| - 1])
  }

  /** Sum of the payload sizes of `bs`: a reference definition for the walk. */
  function SumSizes(bs: seq<Block>): nat
  {
    if bs == [] then 0 else bs[0].size + SumSizes(bs[1..])
  }

  /** The free blocks of `bs`, in order: a reference definition for the walk. */
  function FreeBlocks(bs: seq<Block>): seq<Block>
  {
    if bs == [] then []
    else (if bs[0].used then [] else [bs[0]]) + FreeBlocks(bs[1..])
  }

  lemma {:induction false} SumSizesAppend(a: seq<Block>, b: seq<Block>)
    ensures SumSizes(a + b) == SumSizes(a) + SumSizes(b)
    decreases |a|
  {
    if a != [] {
      assert (a + b)[0] == a[0] && (a + b)[1..] == a[1..] + b;
      SumSizesAppend(a[1..], b);
    } else {
      assert a + b == b;
    }
  }

  lemma {:induction false} FreeBlocksAppend(a: seq<Block>, b: seq<Block>)
    ensures FreeBlocks(a + b) == FreeBlocks(a) + FreeBlocks(b)
    decreases |a|
  {
    if a != [] {
      assert (a + b)[0] == a[0] && (a + b)[1..] == a[1..] + b;
      FreeBlocksAppend(a[1..], b);
      var head := if a[0].used then [] else [a[0]];
      calc {
        FreeBlocks(a + b);
        head + FreeBlocks(a[1..] + b);
        head + (FreeBlocks(a[1..]) + FreeBlocks(b));
        (head + FreeBlocks(a[1..])) + FreeBlocks(b);
      }
    } else {
      assert a + b == b;
    }
  }

  /** The walker step on a run extended by one block. */
  lemma TallySnoc(bs: seq<Block>, b: Block)
    ensures Tally(bs + [b]) == Walker(Tally(bs), b)
  {
    assert (bs + [b])[..|bs|] == bs;
  }

  /**
   * The walk computes what the monitor's fields are documented to hold:
   * the total of all block sizes, the number of used and of free blocks,
   * and the total of the free block sizes.
   */
  lemma {:induction false} TallyMeans(bs: seq<Block>)
    ensures Tally(bs).totalSize == SumSizes(bs)
    ensures Tally(bs).freeCnt == |FreeBlocks(bs)|
    ensures Tally(bs).freeSize == SumSizes(FreeBlocks(bs))
    ensures Tally(bs).usedCnt == |bs| - |FreeBlocks(bs)|
    ensures Tally(bs).maxUsed == 0 && Tally(bs).usedPct == 0 && Tally(bs).fragPct == 0
    decreases |bs|
  {
    if bs != [] {
      var init, last := bs[..|bs| - 1], bs[|bs| - 1];
      assert bs == init + [last];
      TallyMeans(init);
      SumSizesAppend(init, [last]);
      FreeBlocksAppend(init, [last]);
      assert [last][1..] == [];
      assert FreeBlocks([last]) == if last.used then [] else [last];
      assert SumSizes([last]) == last.size;
      assert FreeBlocks(bs) == FreeBlocks(init) + FreeBlocks([last]);
      SumSizesAppend(FreeBlocks(init), FreeBlocks([last]));
    }
  }

  /**
   * `free_biggest_size` is the size of the largest free block: no free
   * block is bigger, and it is 0 exactly when there is no free block of
   * positive size; otherwise some free block has exactly that size.
   */
  lemma {:induction false} TallyBiggest(bs: seq<Block>)
    ensures forall k :: 0 <= k < |bs| && !bs[k].used ==> bs[k].size <= Tally(bs).freeBiggestSize
    ensures Tally(bs).freeBiggestSize > 0 ==>
      exists k :: 0 <= k < |bs| && !bs[k].used && bs[k].size == Tally(bs).freeBiggestSize
    decreases |bs|
  {
    if bs != [] {
      var init, last := bs[..|bs| - 1], bs[|bs| - 1];
      TallyBiggest(init);
      var m := Tally(init);
      forall k | 0 <= k < |bs| && !bs[k].used
        ensures bs[k].size <= Tally(bs).freeBiggestSize
      {
        if k < |init| {
          assert bs[k] == init[k];
        }
      }
      if Tally(bs).freeBiggestSize > 0 && Tally(bs).freeBiggestSize != m.freeBiggestSize {
        assert !last.used && last.size == Tally(bs).freeBiggestSize;
      } else if Tally(bs).freeBiggestSize > 0 {
        var k :| 0 <= k < |init| && !init[k].used && init[k].size == m.freeBiggestSize;
        assert bs[k] == init[k];
      }
    }
  }

  /**
   * Every walk keeps its counters consistent: each block is counted as
   * used or as free, and the largest free block is within the free total,
   * which is within the grand total.
   */
  lemma {:induction false} TallyBounds(bs: seq<Block>)
    ensures Tally(bs).usedCnt + Tally(bs).freeCnt == |bs|
    ensures Tally(bs).freeBiggestSize <= Tally(bs).freeSize <= Tally(bs).totalSize
    decreases |bs|
  {
    if bs != [] {
      TallyBounds(bs[..|bs| - 1]);
    }
  }

  /**
   * Walking two runs one after the other is the same as combining their
   * separate walks: sizes and counts add up and the largest free block is
   * the larger of the two.  So the walk over all pools does not depend on
   * how the blocks are split among them.
   */
  lemma {:induction false} TallyAppend(a: seq<Block>, b: seq<Block>)
    ensures Tally(a + b).totalSize == Tally(a).totalSize + Tally(b).totalSize
    ensures Tally(a + b).usedCnt == Tally(a).usedCnt + Tally(b).usedCnt
    ensures Tally(a + b).freeCnt == Tally(a).freeCnt + Tally(b).freeCnt
    ensures Tally(a + b).freeSize == Tally(a).freeSize + Tally(b).freeSize
    ensures Tally(a + b).freeBiggestSize ==
      if Tally(a).freeBiggestSize < Tally(b).freeBiggestSize then Tally(b).freeBiggestSize
      else Tally(a).freeBiggestSize
    decreases |b|
  {
    if b != [] {
      var init, last := b[..|b| - 1], b[|b| - 1];
      assert a + b == (a + init) + [last];
      TallySnoc(a + init, last);
      TallyAppend(a, init);
    } else {
      assert a + b == a;
    }
  }

  /**
   * `used_pct = 100 - 100 * free_size / total_size`, in integer division.
   * It is at most 100, it is 0 exactly when every byte is free, and it is
   * 100 exactly when less than one percent is free.
   */
  function UsedPct(freeSize: nat, totalSize: nat): (r: nat)
    requires 0 < totalSize && freeSize <= totalSize
    ensures r <= 100
    ensures r == 0 <==> freeSize == totalSize
    ensures r == 100 <==> 100 * freeSize < totalSize
  {
    var q := (100 * freeSize) / totalSize;
    DivBelow(100 * freeSize, totalSize, 100);
    100 - q
  }

  /**
   * `frag_pct = 100 - free_biggest_size * 100 / free_size` when anything
   * is free, else 0.  It is at most 100, and it is 0 exactly when nothing
   * is free or all free memory is one block.
   */
  function FragPct(freeBiggestSize: nat, freeSize: nat): (r: nat)
    requires freeBiggestSize <= freeSize
    ensures r <= 100
    ensures r == 0 <==> freeSize == 0 || freeBiggestSize == freeSize
  {
    if freeSize > 0 then
      var q := freeBiggestSize * 100 / freeSize;
      DivBelow(100 * freeBiggestSize, freeSize, 100);
      100 - q
    else 0
  }

  /**
   * For `n <= c * d`: `n / d <= c`, with equality exactly when `n == c * d`
   * (given `n <= c * d`), and `n / d == 0` exactly when `n < d`.
   */
  lemma DivBelow(n: nat, d: nat, c: nat)
    requires 0 < d && n <= c * d
    ensures n / d <= c
    ensures n / d == c <==> n == c * d
    ensures n / d == 0 <==> n < d
  {
    var q, r := n / d, n % d;
    assert n == q * d + r && 0 <= r < d;
    if q > c {
      MulLe(c + 1, q, d);
      assert false;
    }
    if q == c {
      MulLe(c, q, d);
    }
    if n == c * d {
      DivExact(c, d);
    }
    if q > 0 {
      MulLe(1, q, d);
    }
  }

  lemma DivExact(c: nat, d: nat)
    requires 0 < d
    ensures (c * d) / d == c
  {
    var q, r := (c * d) / d, (c * d) % d;
    assert c * d == q * d + r && 0 <= r < d;
    if q < c {
      MulLe(q + 1, c, d);
    } else if q > c {
      MulLe(c + 1, q, d);
    }
  }

  lemma MulLe(a: nat, b: nat, d: nat)
    requires a <= b
    ensures a * d <= b * d
    ensures a * d + d == (a + 1) * d
  {
    assert b * d == a * d + (b - a) * d;
  }

  /**
   * The record after the walk: the two percentages and the copied
   * high-water mark.
   */
  function Finish(m: MemMonitor, maxUsed: nat): (r: MemMonitor)
    requires 0 < m.totalSize && m.freeBiggestSize <= m.freeSize <= m.totalSize
    ensures r.usedPct <= 100 && r.fragPct <= 100
    ensures r.maxUsed == maxUsed
    ensures r.(usedPct := 0, fragPct := 0, maxUsed := 0) == m.(usedPct := 0, fragPct := 0, maxUsed := 0)
  {
    m.(usedPct := UsedPct(m.freeSize, m.totalSize),
       fragPct := FragPct(m.freeBiggestSize, m.freeSize),
       maxUsed := maxUsed)
  }

  /**
   * The record `lv_mem_monitor_builtin` fills in from the blocks `bs` of
   * the registered pools and the high-water mark `maxUsed`.  The source
   * divides by the total size, so there must be at least one byte.
   */
  function Report(bs: seq<Block>, maxUsed: nat): (r: MemMonitor)
    requires SumSizes(bs) > 0
    ensures r.totalSize == SumSizes(bs)
    ensures r.freeSize == SumSizes(FreeBlocks(bs))
    ensures r.freeCnt == |FreeBlocks(bs)|
    ensures r.usedCnt + r.freeCnt == |bs|
    ensures forall k :: 0 <= k < |bs| && !bs[k].used ==> bs[k].size <= r.freeBiggestSize
    ensures r.freeBiggestSize > 0 ==>
      exists k :: 0 <= k < |bs| && !bs[k].used && bs[k].size == r.freeBiggestSize
    ensures r.freeBiggestSize <= r.freeSize <= r.totalSize
    ensures r.usedPct == UsedPct(r.freeSize, r.totalSize)
    ensures r.fragPct == FragPct(r.freeBiggestSize, r.freeSize)
    ensures r.maxUsed == maxUsed
  {
    TallyMeans(bs);
    TallyBounds(bs);
    TallyBiggest(bs);
    Finish(Tally(bs), maxUsed)
  }
}
