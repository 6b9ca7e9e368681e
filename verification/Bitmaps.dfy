/**
 Bitmaps of used and free items, as the page allocator and the block allocator
 keep them, seen as sequences of booleans: true is used, false is free.
 */
module Bitmaps {
  import opened Bytes

  /** The bit of a bitmap that stands for item `i`. */
  predicate BitmapBit(bitmap: seq<byte>, i: nat)
    requires i / 8 < |bitmap|
  {
    Bit(bitmap[i / 8], i % 8)
  }

  /** `bitmap[i / 8] |= 1 << (i % 8)` */
  function BitmapSet(bitmap: seq<byte>, i: nat): (r: seq<byte>)
    requires i / 8 < |bitmap|
    ensures |r| == |bitmap|
    ensures forall k: nat {:trigger BitmapBit(r, k)} :: k / 8 < |bitmap| ==>
              BitmapBit(r, k) == (k == i || BitmapBit(bitmap, k))
  {
    bitmap[i / 8 := WithBit(bitmap[i / 8], i % 8)]
  }

  /** The states of the first `n` items. */
  function BitStates(bitmap: seq<byte>, n: nat): (s: seq<bool>)
    requires n <= 8 * |bitmap|
    ensures |s| == n
  {
    seq(n, i requires 0 <= i < n => BitmapBit(bitmap, i))
  }

  /** `used` with the `n` pages from `i` on set to `v`. */
  function Fill(used: seq<bool>, i: nat, n: nat, v: bool): (r: seq<bool>)
    ensures |r| == |used|
  {
    seq(|used|, k requires 0 <= k < |used| => if i <= k < i + n then v else used[k])
  }

  /** Pages `i .. i + n` exist and are all free. */
  ghost predicate FreeRun(used: seq<bool>, i: nat, n: nat) {
    i + n <= |used| && forall k :: i <= k < i + n ==> !used[k]
  }

  /** The lowest run of `n` free pages starts at `i`. */
  ghost predicate FirstFreeRun(used: seq<bool>, i: nat, n: nat) {
    FreeRun(used, i, n) && forall j: nat :: j < i ==> !FreeRun(used, j, n)
  }

  /** The scan has reached page `i`, the last `found` pages were free, and no run starts before them. */
  ghost predicate NoRunYet(used: seq<bool>, i: nat, found: nat, n: nat) {
    && found <= i <= |used|
    && (forall k :: i - found <= k < i ==> !used[k])
    && (forall j: nat :: j < i - found ==> !FreeRun(used, j, n))
  }

  function Count(used: seq<bool>, v: bool): (c: nat) {
    if used == [] then 0 else Count(used[..|used| - 1], v) + (if used[|used| - 1] == v then 1 else 0)
  }

  lemma {:induction false} CountsSplit(used: seq<bool>)
    ensures Count(used, true) + Count(used, false) == |used|
  {
    if used != [] {
      CountsSplit(used[..|used| - 1]);
    }
  }

  lemma FillFront(used: seq<bool>, i: nat, n: nat, v: bool)
    requires 0 < n && i + n <= |used|
    ensures var last := |used| - 1;
            && Fill(used, i, n, v)[..last] == Fill(used[..last], i, if i + n == |used| then n - 1 else n, v)
            && Fill(used, i, n, v)[last] == if i + n == |used| then v else used[last]
  {
  }

  lemma CountOne(used: seq<bool>, i: nat)
    requires i < |used| && !used[i]
    ensures Count(used[i := true], false) == Count(used, false) - 1
  {
    CountFill(used, i, 1, true);
    assert Fill(used, i, 1, true) == used[i := true];
  }

  /** Nothing is free exactly when the count says so. */
  lemma {:induction false} CountNone(used: seq<bool>)
    ensures Count(used, false) == 0 <==> forall i: nat :: !FreeRun(used, i, 1)
  {
    if used == [] {
    } else {
      var init := used[..|used| - 1];
      CountNone(init);
      if i: nat :| FreeRun(init, i, 1) {
        assert FreeRun(used, i, 1);
      } else if !used[|used| - 1] {
        assert FreeRun(used, |used| - 1, 1);
      } else {
        forall i: nat ensures !FreeRun(used, i, 1) {
          assert !FreeRun(init, i, 1);
          assert i + 1 < |used| ==> init[i] == used[i];
        }
      }
    }
  }

  /** Filling a run that held the opposite state moves exactly `n` pages. */
  lemma {:induction false} CountFill(used: seq<bool>, i: nat, n: nat, v: bool)
    requires i + n <= |used| && forall k :: i <= k < i + n ==> used[k] == !v
    ensures Count(Fill(used, i, n, v), v) == Count(used, v) + n
    ensures Count(Fill(used, i, n, v), !v) == Count(used, !v) - n
    decreases |used|
  {
    if used != [] {
      var last := |used| - 1;
      if n == 0 {
        assert Fill(used, i, n, v) == used;
      } else {
        var m := if i + n == |used| then n - 1 else n;
        CountFill(used[..last], i, m, v);
        FillFront(used, i, n, v);
      }
    }
  }
}
