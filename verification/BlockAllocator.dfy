/**
 The block allocator of the EXT2 driver (kernel/src/fs/ext2.c:210-278): first
 clear bit of the first group with free blocks, with the free counts of groups
 and superblock kept in memory.
 */
module BlockAllocator {
  import opened Bytes
  import opened Bitmaps
  import opened Volume
  import opened InodeTable

  // ---------- bitmaps on a volume ----------

  ghost predicate BlocksOk(vol: seq<Block>, g: Geometry) {
    && GeometryOk(g) && g.blocksPerGroup > 0 && |vol| <= 0x1_0000_0000
    && (forall b :: 0 <= b < |vol| ==> |vol[b]| == g.blockSize)
    && (forall k :: 0 <= k < |g.bitmaps| ==> g.bitmaps[k] < |vol|)
    && (forall j, k :: 0 <= j < k < |g.bitmaps| ==> g.bitmaps[j] != g.bitmaps[k])
  }

  ghost function GroupBits(vol: seq<Block>, g: Geometry, k: nat): (bits: seq<bool>)
    requires BlocksOk(vol, g) && k < |g.bitmaps|
    ensures |bits| == 8 * g.blockSize
  {
    BitStates(vol[g.bitmaps[k]], 8 * g.blockSize)
  }

  /** The block that bit `i` of group `k` stands for. */
  function BlockAt(g: Geometry, k: nat, i: nat): nat {
    k * g.blocksPerGroup + i + g.firstDataBlock
  }

  /** The first bit of the first group is the first data block, and blocks are counted from there. */
  lemma BlockLayout(g: Geometry, k: nat, i: nat)
    ensures BlockAt(g, 0, 0) == g.firstDataBlock
    ensures BlockAt(g, k, i + 1) == BlockAt(g, k, i) + 1
    ensures BlockAt(g, k + 1, i) == BlockAt(g, k, i) + g.blocksPerGroup
  {
    assert (k + 1) * g.blocksPerGroup == k * g.blocksPerGroup + g.blocksPerGroup;
  }

  /** Bit `i` of group `k` is clear. */
  ghost predicate Clear(vol: seq<Block>, g: Geometry, k: nat, i: nat)
    requires BlocksOk(vol, g)
  {
    k < |g.bitmaps| && i < 8 * g.blockSize && !GroupBits(vol, g, k)[i]
  }

  /** No clear bit stands for block `b`. */
  ghost predicate UsedBlock(vol: seq<Block>, g: Geometry, b: nat)
    requires BlocksOk(vol, g)
  {
    forall k: nat, i: nat :: Clear(vol, g, k, i) ==> BlockAt(g, k, i) != b
  }

  function Sum(s: seq<nat>): nat {
    if s == [] then 0 else Sum(s[..|s| - 1]) + s[|s| - 1]
  }

  lemma {:induction false} SumUpdate(s: seq<nat>, k: nat, x: nat)
    requires k < |s|
    ensures Sum(s[k := x]) == Sum(s) - s[k] + x
  {
    var n := |s| - 1;
    if k < n {
      SumUpdate(s[..n], k, x);
      assert s[k := x][..n] == s[..n][k := x];
    } else {
      assert s[k := x][..n] == s[..n];
    }
  }

  lemma {:induction false} SumAtLeast(s: seq<nat>, k: nat)
    requires k < |s|
    ensures s[k] <= Sum(s)
  {
    if k < |s| - 1 {
      SumAtLeast(s[..|s| - 1], k);
    }
  }

  lemma {:induction false} SumZero(s: seq<nat>)
    requires forall k :: 0 <= k < |s| ==> s[k] == 0
    ensures Sum(s) == 0
  {
    if s != [] {
      SumZero(s[..|s| - 1]);
    }
  }

  /**
   The allocator's counters agree with the bitmaps, every clear bit stands for a
   nonzero block of the volume, and the bitmap blocks themselves are in use.
   */
  ghost predicate AllocOk(vol: seq<Block>, g: Geometry, groupFree: seq<nat>, superFree: nat) {
    && BlocksOk(vol, g)
    && |groupFree| == |g.bitmaps|
    && (forall k :: 0 <= k < |groupFree| ==> groupFree[k] == Count(GroupBits(vol, g, k), false))
    && superFree == Sum(groupFree)
    && (forall k: nat, i: nat :: Clear(vol, g, k, i) ==> i < g.blocksPerGroup && 0 < BlockAt(g, k, i) < |vol|)
    && (forall k :: 0 <= k < |g.bitmaps| ==> UsedBlock(vol, g, g.bitmaps[k]))
  }

  /** Within the group size, a block has one bit. */
  lemma BlockAtInjective(g: Geometry, k: nat, i: nat, k': nat, i': nat)
    requires g.blocksPerGroup > 0 && i < g.blocksPerGroup && i' < g.blocksPerGroup
    requires BlockAt(g, k, i) == BlockAt(g, k', i')
    ensures k == k' && i == i'
  {
    ModOfSum(k, g.blocksPerGroup, i);
    ModOfSum(k', g.blocksPerGroup, i');
  }

  /** The volume after taking bit `i` of group `k` and zeroing its block. */
  ghost function Taken(vol: seq<Block>, g: Geometry, k: nat, i: nat): (r: seq<Block>)
    requires BlocksOk(vol, g) && k < |g.bitmaps| && i < 8 * g.blockSize && BlockAt(g, k, i) < |vol|
    ensures |r| == |vol|
  {
    vol[g.bitmaps[k] := BitmapSet(vol[g.bitmaps[k]], i)][BlockAt(g, k, i) := Zeros(g.blockSize)]
  }

  function Zeros(n: nat): (z: seq<byte>)
    ensures |z| == n && forall i :: 0 <= i < n ==> z[i] == 0
  {
    seq(n, i => 0)
  }

  lemma SetOne(bitmap: seq<byte>, i: nat)
    requires i < 8 * |bitmap|
    ensures BitStates(BitmapSet(bitmap, i), 8 * |bitmap|) == Fill(BitStates(bitmap, 8 * |bitmap|), i, 1, true)
  {
    var r := BitmapSet(bitmap, i);
    forall k: nat | k < 8 * |bitmap| ensures BitmapBit(r, k) == (k == i || BitmapBit(bitmap, k)) {
      assert k / 8 < |bitmap|;
    }
  }

  lemma BitsAfter(vol: seq<Block>, g: Geometry, k: nat, i: nat, h: nat)
    requires BlocksOk(vol, g) && Clear(vol, g, k, i) && BlockAt(g, k, i) < |vol| && h < |g.bitmaps|
    requires forall j :: 0 <= j < |g.bitmaps| ==> g.bitmaps[j] != BlockAt(g, k, i)
    ensures BlocksOk(Taken(vol, g, k, i), g)
    ensures GroupBits(Taken(vol, g, k, i), g, h) ==
            if h == k then Fill(GroupBits(vol, g, k), i, 1, true) else GroupBits(vol, g, h)
  {
    hide BitStates, Fill, BitmapSet;
    SetOne(vol[g.bitmaps[k]], i);
  }

  /** Taking a clear bit keeps the counters right and makes exactly one block used. */
  lemma TakeKeeps(vol: seq<Block>, g: Geometry, groupFree: seq<nat>, superFree: nat, k: nat, i: nat)
    requires AllocOk(vol, g, groupFree, superFree) && Clear(vol, g, k, i)
    ensures groupFree[k] > 0 && superFree > 0
    ensures BlockAt(g, k, i) < |vol| && forall j :: 0 <= j < |g.bitmaps| ==> g.bitmaps[j] != BlockAt(g, k, i)
    ensures AllocOk(Taken(vol, g, k, i), g, groupFree[k := groupFree[k] - 1], superFree - 1)
    ensures forall c: nat :: UsedBlock(Taken(vol, g, k, i), g, c) <==> c == BlockAt(g, k, i) || UsedBlock(vol, g, c)
  {
    hide BlockAt, GroupBits, Count, Fill, BlocksOk;
    var b := BlockAt(g, k, i);
    forall j | 0 <= j < |g.bitmaps| ensures g.bitmaps[j] != b {
      assert UsedBlock(vol, g, g.bitmaps[j]);
    }
    CountTaken(GroupBits(vol, g, k), i);
    SumUpdate(groupFree, k, groupFree[k] - 1);
    SumAtLeast(groupFree, k);
    var vol' := Taken(vol, g, k, i);
    forall h: nat | h < |g.bitmaps|
      ensures BlocksOk(vol', g) && GroupBits(vol', g, h) == if h == k then Fill(GroupBits(vol, g, k), i, 1, true)
              else GroupBits(vol, g, h)
    {
      BitsAfter(vol, g, k, i, h);
    }
    ClearAfter(vol, g, k, i);
    forall c: nat ensures UsedBlock(vol', g, c) <==> c == b || UsedBlock(vol, g, c) {
      UsedAfter(vol, g, k, i, c);
    }
  }

  lemma CountTaken(bits: seq<bool>, i: nat)
    requires i < |bits| && !bits[i]
    ensures Count(bits, false) > 0
    ensures Count(Fill(bits, i, 1, true), false) == Count(bits, false) - 1
  {
    CountFill(bits, i, 1, true);
  }

  lemma ClearAfter(vol: seq<Block>, g: Geometry, k: nat, i: nat)
    requires BlocksOk(vol, g) && Clear(vol, g, k, i) && BlockAt(g, k, i) < |vol|
    requires forall j :: 0 <= j < |g.bitmaps| ==> g.bitmaps[j] != BlockAt(g, k, i)
    ensures BlocksOk(Taken(vol, g, k, i), g)
    ensures forall h: nat, j: nat :: Clear(Taken(vol, g, k, i), g, h, j) <==> Clear(vol, g, h, j) && (h != k || j != i)
  {
    hide BlockAt, GroupBits, BlocksOk;
    BitsAfter(vol, g, k, i, k);
    forall h: nat, j: nat
      ensures Clear(Taken(vol, g, k, i), g, h, j) <==> Clear(vol, g, h, j) && (h != k || j != i)
    {
      if h < |g.bitmaps| {
        BitsAfter(vol, g, k, i, h);
      }
    }
  }

  lemma UsedAfter(vol: seq<Block>, g: Geometry, k: nat, i: nat, c: nat)
    requires BlocksOk(vol, g) && Clear(vol, g, k, i) && BlockAt(g, k, i) < |vol|
    requires forall j :: 0 <= j < |g.bitmaps| ==> g.bitmaps[j] != BlockAt(g, k, i)
    requires forall h: nat, j: nat :: Clear(vol, g, h, j) ==> j < g.blocksPerGroup
    ensures BlocksOk(Taken(vol, g, k, i), g)
    ensures UsedBlock(Taken(vol, g, k, i), g, c) <==> c == BlockAt(g, k, i) || UsedBlock(vol, g, c)
  {
    hide BlockAt, GroupBits, BlocksOk;
    ClearAfter(vol, g, k, i);
    var vol' := Taken(vol, g, k, i);
    if c == BlockAt(g, k, i) {
      forall h: nat, j: nat | Clear(vol', g, h, j) ensures BlockAt(g, h, j) != c {
        if BlockAt(g, h, j) == c {
          PositiveGroup(vol, g);
          BlockAtInjective(g, k, i, h, j);
        }
      }
    } else if UsedBlock(vol', g, c) {
      forall h: nat, j: nat | Clear(vol, g, h, j) ensures BlockAt(g, h, j) != c {
        if h != k || j != i { assert Clear(vol', g, h, j); }
      }
    }
  }

  lemma PositiveGroup(vol: seq<Block>, g: Geometry)
    requires BlocksOk(vol, g)
    ensures g.blocksPerGroup > 0
  {
  }

  // ---------- the search and the allocation ----------

  /** Position of the first clear bit among the first `size` bytes, or -1. */
  method FindFreeBit(bitmap: array<byte>, size: nat) returns (bit: int)
    requires size <= bitmap.Length
    ensures -1 <= bit < 8 * size
    ensures bit == -1 ==> forall i: nat :: i < 8 * size ==> BitStates(bitmap[..size], 8 * size)[i]
    ensures bit >= 0 ==> FirstFreeRun(BitStates(bitmap[..size], 8 * size), bit, 1)
  {
    ghost var bits := BitStates(bitmap[..size], 8 * size);
    for i := 0 to size
      invariant forall k: nat :: k < 8 * i ==> bits[k]
    {
      var b := bitmap[i];
      assert forall j: nat :: j < 8 ==> bits[8 * i + j] == Bit(b, j) by { ByteOfBits(bitmap[..size], i); }
      if b == 0xFF {
        FullByte(b);
        ExtendFull(bits, i, b);
      } else {
        bit := FindInByte(b);
        if bit < 8 {
          ghost var at := 8 * i + bit;
          forall k: nat | k < at ensures bits[k] {
            if k >= 8 * i { assert bits[8 * i + (k - 8 * i)] == Bit(b, k - 8 * i); }
          }
          FirstClearIsRun(bits, at);
          return 8 * i + bit;
        }
        ExtendFull(bits, i, b);
      }
    }
    bit := -1;
  }

  /** The inner loop: the first clear bit of a byte, or 8. */
  method FindInByte(b: byte) returns (bit: nat)
    ensures bit <= 8
    ensures forall k: nat :: k < bit ==> Bit(b, k)
    ensures bit < 8 ==> !Bit(b, bit)
  {
    bit := 0;
    while bit < 8
      invariant bit <= 8
      invariant forall k: nat :: k < bit ==> Bit(b, k)
    {
      if !Bit(b, bit) {
        return;
      }
      bit := bit + 1;
    }
  }

  lemma ByteOfBits(bitmap: seq<byte>, i: nat)
    requires i < |bitmap|
    ensures forall j: nat :: j < 8 ==> BitStates(bitmap, 8 * |bitmap|)[8 * i + j] == Bit(bitmap[i], j)
  {
  }

  lemma FullByte(b: byte)
    requires b == 0xFF
    ensures forall j: nat :: j < 8 ==> Bit(b, j)
  {
    Pow2Eight();
    AllOnes(b, 8);
  }

  lemma ExtendFull(bits: seq<bool>, i: nat, b: byte)
    requires 8 * i + 8 <= |bits| && (forall k: nat :: k < 8 * i ==> bits[k])
    requires forall j: nat :: j < 8 ==> bits[8 * i + j] == Bit(b, j)
    requires forall j: nat :: j < 8 ==> Bit(b, j)
    ensures forall k: nat :: k < 8 * (i + 1) ==> bits[k]
  {
    forall k: nat | k < 8 * (i + 1) ensures bits[k] {
      if k >= 8 * i { assert bits[8 * i + (k - 8 * i)] == Bit(b, k - 8 * i); }
    }
  }

  lemma FirstClearIsRun(bits: seq<bool>, at: nat)
    requires at < |bits| && !bits[at] && forall k: nat :: k < at ==> bits[k]
    ensures FirstFreeRun(bits, at, 1)
  {
    forall j: nat | j < at ensures !FreeRun(bits, j, 1) {
      assert bits[j];
    }
  }
}
