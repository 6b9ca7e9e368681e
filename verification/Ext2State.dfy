/**
 The state of a mounted EXT2 volume (ext2_fs_t in kernel/src/fs/ext2.h): the
 block device, the geometry read at mount, the free counters and the open files.
 */
module Ext2State {
  import opened Bytes
  import opened Bitmaps
  import opened BlockCache
  import opened Volume
  import opened InodeTable
  import opened BlockAllocator

  const MAX_FILES: nat := 64

  /** What a block in use is for; a file's blocks are named by the path of pointers that leads to them. */
  datatype Role = Reserved | Bitmap(group: nat) | Table | FileBlock(ino: u32, path: seq<nat>)

  type Owners = map<nat, Role>

  datatype OpenFile = OpenFile(inodeNum: u32, inode: Inode, flags: u32, position: u64, isOpen: bool)

  class Fs {
    const dev: Device
    const geo: Geometry
    var groupFree: seq<nat>
    var superFree: nat
    var openFiles: seq<OpenFile>
    /** The role of every block in use by the modelled metadata and files. */
    ghost var owner: Owners
    /** The contents of the regular files, by inode number. */
    ghost var files: map<u32, seq<byte>>

    ghost predicate Valid()
      reads this`groupFree, this`openFiles, dev
    {
      && dev.Valid() && GeometryOk(geo) && geo.blockSize == dev.blockSize
      && |groupFree| == |geo.bitmaps|
      && |openFiles| == MAX_FILES
      && (forall i :: 0 <= i < MAX_FILES ==> InodeOk(openFiles[i].inode))
    }

    constructor (dev: Device, geo: Geometry, groupFree: seq<nat>, superFree: nat, openFiles: seq<OpenFile>,
                 ghost owner: Owners, ghost files: map<u32, seq<byte>>)
      requires dev.Valid() && GeometryOk(geo) && geo.blockSize == dev.blockSize && |groupFree| == |geo.bitmaps|
      requires |openFiles| == MAX_FILES && forall i :: 0 <= i < MAX_FILES ==> InodeOk(openFiles[i].inode)
      ensures Valid() && this.dev == dev && this.geo == geo
      ensures this.groupFree == groupFree && this.superFree == superFree && this.openFiles == openFiles
      ensures this.owner == owner && this.files == files
    {
      this.dev, this.geo, this.groupFree, this.superFree, this.openFiles := dev, geo, groupFree, superFree, openFiles;
      this.owner, this.files := owner, files;
    }

    /** No transfer fails and the allocator's counters agree with the volume. */
    ghost predicate Ready()
      reads this`groupFree, this`superFree, this`openFiles, dev
    {
      Valid() && Reliable(dev) && AllocOk(Vol(dev), geo, groupFree, superFree)
    }
  }

  lemma {:induction false} NoneFree(bits: seq<bool>)
    requires forall i: nat :: i < |bits| ==> bits[i]
    ensures Count(bits, false) == 0
  {
    if bits != [] {
      NoneFree(bits[..|bits| - 1]);
    }
  }

  /** `memset(io_buffer, 0, block_size)` */
  method ZeroBuffer(d: Device)
    requires d.Valid()
    modifies d.ioBuffer
    ensures d.ioBuffer[..d.blockSize] == Zeros(d.blockSize)
    ensures d.ioBuffer[d.blockSize..] == old(d.ioBuffer[d.blockSize..])
  {
    Memcpy(d.ioBuffer, 0, Zeros(d.blockSize));
  }

  /** The first clear bit of the group's bitmap, set on the disk; -1 when there is none, -2 when the write fails. */
  method TakeBit(fs: Fs, k: nat) returns (bit: int)
    requires fs.Valid() && k < |fs.geo.bitmaps|
    modifies fs.dev`transfers, fs.dev`cache, fs.dev`pageRequests, fs.dev`sectors, fs.dev.ioBuffer
    ensures fs.Valid() && -2 <= bit < 8 * fs.geo.blockSize
    ensures old(fs.Ready()) && fs.groupFree[k] > 0 ==>
              && bit >= 0 && Reliable(fs.dev) && BlocksOk(old(Vol(fs.dev)), fs.geo)
              && Clear(old(Vol(fs.dev)), fs.geo, k, bit)
              && FirstFreeRun(GroupBits(old(Vol(fs.dev)), fs.geo, k), bit, 1)
              && Vol(fs.dev)
                 == old(Vol(fs.dev))[fs.geo.bitmaps[k] := BitmapSet(old(Vol(fs.dev))[fs.geo.bitmaps[k]], bit)]
  {
    hide Reliable, Vol, AllocOk, BitStates, BitmapSet;
    var d, bitmapBlock := fs.dev, fs.geo.bitmaps[k];
    ghost var v0, ready := Vol(d), fs.Ready() && fs.groupFree[k] > 0;
    if ready {
      GroupFacts(v0, fs.geo, fs.groupFree, fs.superFree, k);
    }
    var ok := LoadBlock(d, bitmapBlock);
    if !ok {
      return -1;
    }
    bit := FindFreeBit(d.ioBuffer, d.blockSize);
    assert ready ==> d.ioBuffer[..d.blockSize] == v0[bitmapBlock];
    assert ready ==> bit != -1;
    if bit == -1 {
      return;
    }
    var byteAt := bit / 8;
    ghost var bitmap := d.ioBuffer[..d.blockSize];
    SpliceBuffer(d, byteAt, [WithBit(d.ioBuffer[byteAt], bit % 8)]);
    SpliceIsSet(bitmap, bit);
    ok := StoreBlock(d, bitmapBlock);
    if !ok {
      return -2;
    }
  }

  lemma SpliceIsSet(bitmap: seq<byte>, bit: nat)
    requires bit / 8 < |bitmap|
    ensures Splice(bitmap, bit / 8, [WithBit(bitmap[bit / 8], bit % 8)]) == BitmapSet(bitmap, bit)
  {
  }

  lemma GroupFacts(vol: seq<Block>, g: Geometry, groupFree: seq<nat>, superFree: nat, k: nat)
    requires AllocOk(vol, g, groupFree, superFree) && k < |g.bitmaps|
    ensures g.bitmaps[k] < |vol| && |vol[g.bitmaps[k]]| == g.blockSize && BlocksOk(vol, g)
    ensures groupFree[k] > 0 ==>
              exists i: nat :: i < 8 * g.blockSize && !BitStates(vol[g.bitmaps[k]], 8 * g.blockSize)[i]
    ensures groupFree[k] == 0 ==> forall i: nat :: !Clear(vol, g, k, i)
  {
    var bits := GroupBits(vol, g, k);
    if forall i: nat :: i < |bits| ==> bits[i] {
      NoneFree(bits);
    }
    forall i: nat | Clear(vol, g, k, i) ensures groupFree[k] > 0 {
      CountTaken(bits, i);
    }
  }

  /** Bit `i` is the first clear one of group `k`, the first group with a nonzero free count. */
  ghost predicate IsFirstFree(vol: seq<Block>, g: Geometry, groupFree: seq<nat>, k: nat, i: nat) {
    && BlocksOk(vol, g) && k < |g.bitmaps| && |groupFree| == |g.bitmaps| && groupFree[k] > 0
    && FirstFreeRun(GroupBits(vol, g, k), i, 1)
    && forall h: nat :: h < k ==> groupFree[h] == 0
  }

  /** Block `b`, which stood for a clear bit, was taken and zeroed. */
  ghost predicate Took(vol: seq<Block>, vol': seq<Block>, g: Geometry, b: nat, k: nat, i: nat) {
    && BlocksOk(vol, g) && Clear(vol, g, k, i) && 0 < b == BlockAt(g, k, i) < |vol|
    && vol' == Taken(vol, g, k, i)
  }

  /**
   Allocates and zeroes a block. On a consistent volume it returns 0 exactly when
   nothing is free; otherwise a nonzero block that was free, the first of the
   first group that has one, and one block and two counters change accordingly.
   */
  method AllocateBlock(fs: Fs) returns (b: u32, ghost k: nat, ghost i: nat)
    requires fs.Valid()
    modifies fs`groupFree, fs`superFree
    modifies fs.dev`transfers, fs.dev`cache, fs.dev`pageRequests, fs.dev`sectors, fs.dev.ioBuffer
    ensures fs.Valid()
    ensures old(fs.Ready()) ==> fs.Ready() && (b == 0 <==> old(fs.superFree) == 0)
    ensures old(fs.Ready()) && b == 0 ==>
              fs.superFree == old(fs.superFree) && fs.groupFree == old(fs.groupFree) && Vol(fs.dev) == old(Vol(fs.dev))
    ensures old(fs.Ready()) && b != 0 ==>
              && IsFirstFree(old(Vol(fs.dev)), fs.geo, old(fs.groupFree), k, i)
              && Took(old(Vol(fs.dev)), Vol(fs.dev), fs.geo, b, k, i)
              && fs.superFree == old(fs.superFree) - 1
              && k < |old(fs.groupFree)| && fs.groupFree == old(fs.groupFree)[k := old(fs.groupFree)[k] - 1]
              && b == fs.geo.firstDataBlock + k * fs.geo.blocksPerGroup + i
  {
    hide Reliable, Vol, AllocOk, FirstFreeRun, GroupBits, BlockAt, Taken;
    k, i := 0, 0;
    if !fs.dev.mounted || fs.superFree == 0 {
      MountedWhenReady(fs);
      return 0, 0, 0;
    }
    ghost var ready := fs.Ready();
    for bg := 0 to |fs.geo.bitmaps|
      invariant fs.Valid() && fs.groupFree == old(fs.groupFree) && fs.superFree == old(fs.superFree)
      invariant ready ==> fs.Ready() && Vol(fs.dev) == old(Vol(fs.dev))
      invariant ready ==> forall h: nat :: h < bg ==> fs.groupFree[h] == 0
    {
      if fs.groupFree[bg] != 0 {
        var bit := TakeBit(fs, bg);
        if bit == -2 {
          return 0, 0, 0;
        }
        if bit >= 0 {
          b := Finish(fs, bg, bit, old(Vol(fs.dev)), ready);
          return b, bg, bit;
        }
      }
    }
    if ready {
      SumIsSuper(Vol(fs.dev), fs.geo, fs.groupFree, fs.superFree);
    }
    b := 0;
  }

  /** The steps after the bitmap has been written: counters, block number, zeroing. */
  method Finish(fs: Fs, bg: nat, bit: nat, ghost v0: seq<Block>, ghost ready: bool) returns (b: u32)
    requires fs.Valid() && bg < |fs.groupFree| && fs.groupFree[bg] > 0 && fs.superFree > 0 && bit < 8 * fs.geo.blockSize
    requires ready ==>
               && Reliable(fs.dev) && AllocOk(v0, fs.geo, fs.groupFree, fs.superFree) && Clear(v0, fs.geo, bg, bit)
               && Vol(fs.dev) == v0[fs.geo.bitmaps[bg] := BitmapSet(v0[fs.geo.bitmaps[bg]], bit)]
    modifies fs`groupFree, fs`superFree
    modifies fs.dev`transfers, fs.dev`cache, fs.dev`pageRequests, fs.dev`sectors, fs.dev.ioBuffer
    ensures fs.Valid()
    ensures fs.superFree == old(fs.superFree) - 1 && fs.groupFree == old(fs.groupFree)[bg := old(fs.groupFree)[bg] - 1]
    ensures ready ==>
              && fs.Ready() && Took(v0, Vol(fs.dev), fs.geo, b, bg, bit)
              && b == fs.geo.firstDataBlock + bg * fs.geo.blocksPerGroup + bit
  {
    hide Reliable, Vol, AllocOk, GroupBits, BlockAt, BitmapSet;
    b := Wrap32(bg * fs.geo.blocksPerGroup + bit + fs.geo.firstDataBlock);
    if ready {
      TakeKeeps(v0, fs.geo, fs.groupFree, fs.superFree, bg, bit);
      TakenNumber(v0, fs.geo, fs.groupFree, fs.superFree, bg, bit);
      GroupFacts(v0, fs.geo, fs.groupFree, fs.superFree, bg);
    }
    fs.superFree := fs.superFree - 1;
    fs.groupFree := fs.groupFree[bg := fs.groupFree[bg] - 1];
    ZeroBuffer(fs.dev);
    var stored := StoreBlock(fs.dev, b);
  }

  lemma TakenNumber(vol: seq<Block>, g: Geometry, groupFree: seq<nat>, superFree: nat, k: nat, i: nat)
    requires AllocOk(vol, g, groupFree, superFree) && Clear(vol, g, k, i)
    ensures 0 < BlockAt(g, k, i) < |vol| && Wrap32(BlockAt(g, k, i)) == BlockAt(g, k, i)
    ensures BlockAt(g, k, i) == k * g.blocksPerGroup + i + g.firstDataBlock
  {
  }

  lemma MountedWhenReady(fs: Fs)
    ensures fs.Ready() ==> fs.dev.mounted
  {
  }

  lemma SumIsSuper(vol: seq<Block>, g: Geometry, groupFree: seq<nat>, superFree: nat)
    requires AllocOk(vol, g, groupFree, superFree) && forall h: nat :: h < |groupFree| ==> groupFree[h] == 0
    ensures superFree == 0
  {
    SumZero(groupFree);
  }

  /** Allocating a block makes exactly that block used. */
  lemma TookUses(vol: seq<Block>, vol': seq<Block>, g: Geometry, groupFree: seq<nat>, superFree: nat, b: nat, k: nat,
                 i: nat)
    requires AllocOk(vol, g, groupFree, superFree) && Took(vol, vol', g, b, k, i)
    ensures BlocksOk(vol', g) && !UsedBlock(vol, g, b)
    ensures forall c: nat :: UsedBlock(vol', g, c) <==> c == b || UsedBlock(vol, g, c)
  {
    hide BlockAt, GroupBits, Count;
    TakeKeeps(vol, g, groupFree, superFree, k, i);
  }

  /** Any number of allocations in a row: the blocks are nonzero, distinct and were free. */
  method AllocateMany(fs: Fs, n: nat) returns (blocks: seq<u32>)
    requires fs.Ready()
    modifies fs`groupFree, fs`superFree
    modifies fs.dev`transfers, fs.dev`cache, fs.dev`pageRequests, fs.dev`sectors, fs.dev.ioBuffer
    ensures fs.Ready()
    ensures |blocks| <= n && |blocks| + fs.superFree == old(fs.superFree) && (|blocks| < n ==> fs.superFree == 0)
    ensures forall i, j :: 0 <= i < j < |blocks| ==> blocks[i] != blocks[j]
    ensures forall b :: b in blocks ==> b != 0 && WasFree(old(Vol(fs.dev)), fs.geo, b)
  {
    hide Reliable, Vol, AllocOk, Took, IsFirstFree, UsedBlock;
    blocks := [];
    ghost var v0 := Vol(fs.dev);
    ReadyBlocksOk(v0, fs.geo, fs.groupFree, fs.superFree);
    while |blocks| < n
      invariant fs.Ready() && BlocksOk(Vol(fs.dev), fs.geo)
      invariant |blocks| <= n && |blocks| + fs.superFree == old(fs.superFree)
      invariant forall i, j :: 0 <= i < j < |blocks| ==> blocks[i] != blocks[j]
      invariant forall b :: b in blocks ==> b != 0 && WasFree(v0, fs.geo, b)
      invariant forall c: nat :: UsedBlock(Vol(fs.dev), fs.geo, c) <==> c in blocks || UsedBlock(v0, fs.geo, c)
      decreases n - |blocks|
    {
      ghost var v1, gf, sf := Vol(fs.dev), fs.groupFree, fs.superFree;
      var b, k, i := AllocateBlock(fs);
      if b == 0 {
        return;
      }
      TookUses(v1, Vol(fs.dev), fs.geo, gf, sf, b, k, i);
      assert b !in blocks;
      blocks := blocks + [b];
    }
  }

  ghost predicate WasFree(vol: seq<Block>, g: Geometry, b: nat) {
    BlocksOk(vol, g) && !UsedBlock(vol, g, b)
  }

  lemma ReadyBlocksOk(vol: seq<Block>, g: Geometry, groupFree: seq<nat>, superFree: nat)
    requires AllocOk(vol, g, groupFree, superFree)
    ensures BlocksOk(vol, g) && |groupFree| == |g.bitmaps|
  {
  }
}
