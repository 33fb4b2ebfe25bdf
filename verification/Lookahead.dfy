/** The block allocator: a window of one bit per block that moves around the device, and a budget of blocks it may still
    look at before an acknowledgement. */
module Lookahead {
  import opened Wrappers
  import opened Words

  // ---------------------------------------------------------------- the ring of blocks

  /** Block number k steps after `first` on a device of `count` blocks. */
  function Step(first: nat, k: nat, count: nat): (b: nat)
    requires count > 0
    ensures b < count
  {
    (first + k) % count
  }

  lemma ModShift(a: nat, b: nat, m: nat)
    requires m > 0
    ensures (a % m + b) % m == (a + b) % m
  {
    var x := a % m;
    var q, p, r := a / m, (x + b) / m, (x + b) % m;
    Distribute(q, p, m);
    ModUnique(a + b, m, q + p, r);
  }

  lemma StepStep(first: nat, j: nat, k: nat, count: nat)
    requires count > 0
    ensures Step(Step(first, j, count), k, count) == Step(first, j + k, count)
  {
    ModShift(first + j, k, count);
    assert first + j + k == first + (j + k);
  }

  /** How many steps after `first` a block lies. */
  function Distance(first: nat, b: nat, count: nat): (k: nat)
    requires count > 0 && b < count && first < count
    ensures k < count
  {
    if b >= first then b - first else b + count - first
  }

  lemma DistanceOfStep(first: nat, k: nat, count: nat)
    requires first < count && k < count
    ensures Distance(first, Step(first, k, count), count) == k
  {
    if first + k >= count { ModUnique(first + k, count, 1, first + k - count); }
  }

  lemma StepOfDistance(first: nat, b: nat, count: nat)
    requires first < count && b < count
    ensures Step(first, Distance(first, b, count), count) == b
  {
    if b < first { ModUnique(b + count, count, 1, b); }
  }

  /** The window slot lfs_alloc_lookahead computes for a block, in 32-bit arithmetic. */
  function Slot(off: nat, b: nat, count: nat): nat
    requires 0 < count < WORD_LIMIT && off < count && b < count
  {
    Add32(Sub32(b, off), count) % count
  }

  /** It is the block's distance from the window unless the sum wraps around. */
  lemma SlotIsDistance(off: nat, b: nat, count: nat)
    requires 0 < count < WORD_LIMIT && off < count && b < count
    ensures Slot(off, b, count) == Distance(off, b, count) <==> (b < off || b - off + count < WORD_LIMIT)
  {
    var x := Add32(Sub32(b, off), count);
    if b < off || b - off + count >= WORD_LIMIT {
      ModUnique(x, count, 0, x);
    } else {
      ModUnique(x, count, 1, b - off);
    }
  }

  /** So devices of up to 2^31 blocks are safe, and larger ones are not. */
  lemma SlotsSafe(count: nat)
    requires 0 < count < WORD_LIMIT
    ensures (forall off: nat, b: nat :: off < count && b < count ==> Slot(off, b, count) == Distance(off, b, count))
            <==> count <= TOP_BIT
  {
    hide Slot, Distance;
    forall off: nat, b: nat | off < count && b < count
      ensures count <= TOP_BIT ==> Slot(off, b, count) == Distance(off, b, count)
    {
      SlotIsDistance(off, b, count);
    }
    if count > TOP_BIT {
      SlotIsDistance(0, count - 1, count);
    }
  }

  // ---------------------------------------------------------------- the allocator

  /** lfs->free: `marked` is the bitmap, one entry a bit. */
  class Allocator {
    const blockCount: nat
    const marked: array<bool>
    var off: nat
    var size: nat
    var i: nat
    var ack: nat

    /** The first block to be looked at after the last acknowledgement. */
    ghost var first: nat
    /** Blocks handed out since then. */
    ghost var taken: set<nat>
    /** Blocks the traversal reported that filled the present window. */
    ghost var scan: set<nat>
    /** Blocks reported by any traversal whose window was used since the last acknowledgement. */
    ghost var reported: set<nat>

    /** How many blocks have been looked at since the last acknowledgement. */
    ghost function Looked(): int
      reads this
    {
      blockCount - ack
    }

    ghost predicate Window()
      reads this, marked
    {
      && size - i <= ack <= blockCount && i <= size <= blockCount && size <= marked.Length
      && 0 < blockCount <= TOP_BIT && marked.Length > 0
      && (size > 0 ==> off < blockCount)
      && (forall k :: 0 <= k < size ==> (marked[k] <==> Step(off, k, blockCount) in scan))
    }

    ghost predicate History()
      reads this
    {
      && 0 < blockCount && ack <= blockCount && first < blockCount
      && Step(off, i, blockCount) == Step(first, blockCount - ack, blockCount)
      && scan <= reported
      && (forall b :: b in taken ==> b < blockCount && Distance(first, b, blockCount) < Looked())
      && (forall k :: 0 <= k < Looked() ==> Step(first, k, blockCount) in taken + reported)
    }

    ghost predicate Valid()
      reads this, marked
    {
      Window() && History()
    }

    /** The state lfs_mount leaves. */
    constructor Mounted(blockCount: nat, lookaheadBits: nat, start: nat)
      requires 0 < blockCount <= TOP_BIT && lookaheadBits > 0
      ensures Valid() && this.blockCount == blockCount && ack == blockCount && size == i == 0 && off == start
      ensures taken == {} && fresh(marked) && marked.Length == lookaheadBits
    {
      this.blockCount, off, size, i, ack := blockCount, start, 0, 0, blockCount;
      marked := new bool[lookaheadBits];
      first, taken, scan, reported := start % blockCount, {}, {}, {};
      new;
      ModShift(start, 0, blockCount);
    }

    /** The state lfs_format leaves: a first window in which every block is free. */
    constructor Formatted(blockCount: nat, lookaheadBits: nat)
      requires 0 < blockCount <= TOP_BIT && lookaheadBits > 0
      ensures Valid() && this.blockCount == blockCount && ack == blockCount && scan == {}
      ensures taken == {} && fresh(marked) && marked.Length == lookaheadBits
    {
      this.blockCount, off, i, ack := blockCount, 0, 0, blockCount;
      size := Min(lookaheadBits, blockCount);
      marked := new bool[lookaheadBits](_ => false);
      first, taken, scan, reported := 0, {}, {}, {};
    }

    /** lfs_alloc_ack */
    method Ack()
      requires Valid()
      modifies this`ack, this`first, this`taken, this`reported
      ensures Valid() && ack == blockCount && taken == {} && reported == scan
      ensures first == Step(old(first), old(Looked()), blockCount)
    {
      StepStep(off, i, 0, blockCount);
      first, taken, reported := Step(off, i, blockCount), {}, scan;
      ack := blockCount;
    }

    /** lfs_alloc_lookahead */
    method Mark(block: nat)
      requires 0 < blockCount <= TOP_BIT && off < blockCount && block < blockCount && size <= marked.Length
      requires size <= blockCount
      modifies marked
      ensures forall k :: 0 <= k < size ==> (marked[k] <==> old(marked[k]) || Step(off, k, blockCount) == block)
    {
      var slot := Slot(off, block, blockCount);
      SlotIsDistance(off, block, blockCount);
      StepOfDistance(off, block, blockCount);
      forall k | 0 <= k < size
        ensures Step(off, k, blockCount) == block <==> k == slot
      {
        DistanceOfStep(off, k, blockCount);
      }
      if slot < size {
        marked[slot] := true;
      }
    }

    method Clear()
      modifies marked
      ensures forall k :: 0 <= k < marked.Length ==> !marked[k]
    {
      for k := 0 to marked.Length
        invariant forall j :: 0 <= j < k ==> !marked[j]
      {
        marked[k] := false;
      }
    }

    /** lfs_fs_traverse, calling lfs_alloc_lookahead on each block in use. */
    method MarkAll(used: seq<nat>)
      requires 0 < blockCount <= TOP_BIT && off < blockCount && size <= marked.Length && size <= blockCount
      requires forall b :: b in used ==> b < blockCount
      requires forall k :: 0 <= k < size ==> !marked[k]
      modifies marked
      ensures forall k :: 0 <= k < size ==> (marked[k] <==> Step(off, k, blockCount) in used)
    {
      hide Step;
      for n := 0 to |used|
        invariant forall k :: 0 <= k < size ==> (marked[k] <==> Step(off, k, blockCount) in used[..n])
      {
        assert used[n] in used;
        Mark(used[n]);
        assert used[..n + 1] == used[..n] + [used[n]];
      }
      assert used[..|used|] == used;
    }

    /** The next window: the blocks the traversal of the file system reports are marked. */
    method Refill(used: seq<nat>)
      requires Valid() && i == size && ack > 0
      requires forall b :: b in used ==> b < blockCount
      modifies this`off, this`size, this`i, this`scan, this`reported, marked
      ensures Valid() && i == 0 < size && scan == (set b | b in used) && reported == old(reported) + scan
    {
      hide Distance;
      StepStep(off, size, 0, blockCount);
      assert (off + size) % blockCount == Step(off, size, blockCount);
      off := (off + size) % blockCount;
      size := Min(marked.Length, ack);
      i := 0;
      hide Step;
      Clear();
      MarkAll(used);
      scan := set b | b in used;
      reported := reported + scan;
    }

    /** The block under the window's cursor is the next one since the acknowledgement. */
    lemma Here()
      requires Valid() && i < size
      ensures var b := Step(off, i, blockCount);
              && b == Step(first, Looked(), blockCount) && Distance(first, b, blockCount) == Looked() && b !in taken
              && Step(off, i + 1, blockCount) == Step(first, Looked() + 1, blockCount)
    {
      hide Step, Distance;
      DistanceOfStep(first, Looked(), blockCount);
      StepStep(off, i, 1, blockCount);
      StepStep(first, Looked(), 1, blockCount);
    }

    /** Passing a block that is in use. */
    method Pass()
      requires Valid() && i < size && marked[i]
      modifies this`i, this`ack
      ensures Valid() && i == old(i) + 1 && ack == old(ack) - 1
    {
      hide Step, Distance;
      Here();
      i := i + 1;
      ack := ack - 1;
    }

    /** Taking a block that is free. */
    method Take() returns (block: nat)
      requires Valid() && i < size && !marked[i]
      modifies this`i, this`ack, this`taken
      ensures Valid() && i == old(i) + 1 && ack == old(ack) - 1
      ensures block < blockCount && block !in old(taken) && block !in scan && taken == old(taken) + {block}
    {
      Here();
      block := (off + i) % blockCount;
      assert block == Step(off, i, blockCount);
      hide Step, Distance;
      i := i + 1;
      ack := ack - 1;
      taken := taken + {block};
    }

    /** Every block was looked at when the budget is used up. */
    lemma AllLooked()
      requires Valid() && ack == 0
      ensures forall b :: 0 <= b < blockCount ==> b in taken + reported
    {
      hide Step, Distance;
      forall b | 0 <= b < blockCount
        ensures b in taken + reported
      {
        StepOfDistance(first, b, blockCount);
      }
    }

    /** lfs_alloc; `used` is what lfs_fs_traverse reports. A block that was handed out since the acknowledgement, or was
        reported for the window it lies in, is never handed out; failure means that all blocks were looked at since the
        acknowledgement and each of them was handed out or reported. */
    method Alloc(used: seq<nat>) returns (r: Option<nat>)
      requires Valid() && forall b :: b in used ==> b < blockCount
      modifies this, marked
      ensures Valid() && first == old(first)
      ensures r.Some? ==> r.value < blockCount && r.value !in old(taken) && taken == old(taken) + {r.value}
      ensures r.Some? ==> r.value !in scan
      ensures r.None? ==> ack == 0 && taken == old(taken) && forall b :: 0 <= b < blockCount ==> b in taken + reported
      ensures (scan == old(scan) && reported == old(reported))
              || (scan == (set b | b in used) && reported == old(reported) + scan)
    {
      hide Step, Distance;
      ghost var all := set b | b in used;
      while true
        invariant Valid() && taken == old(taken) && first == old(first)
        invariant (scan == old(scan) && reported == old(reported)) || (scan == all && reported == old(reported) + all)
        decreases ack + if i == size then 1 else 0
      {
        ghost var ack0, left := ack, size - i;
        while i != size
          invariant Valid() && taken == old(taken) && first == old(first)
          invariant (scan == old(scan) && reported == old(reported)) || (scan == all && reported == old(reported) + all)
          invariant size - i <= left && ack == ack0 - left + (size - i)
          decreases size - i
        {
          if !marked[i] {
            // the block is handed out
            var block := Take();
            // blocks known as used need not wait for the next call
            while i != size && marked[i]
              invariant Valid() && taken == old(taken) + {block} && first == old(first) && block !in scan
              invariant (scan == old(scan) && reported == old(reported)) || (scan == all && reported == old(reported) + all)
              decreases size - i
            {
              Pass();
            }
            return Some(block);
          }
          Pass();
        }
        // the budget says whether the ring has been walked around
        if ack == 0 {
          AllLooked();
          return None;
        }
        Refill(used);
      }
    }
  }
}
