/**
 ext2_read and ext2_write (kernel/src/fs/ext2.c:1201-1359): open files as byte
 strings with a position.
 */
module FileIO {
  import opened Bytes
  import opened BlockCache
  import opened Volume
  import opened InodeTable
  import opened BlockAllocator
  import opened Ext2State
  import opened BlockMap
  import opened FileImage
  import opened FileWorld
  import opened FileSteps

  // ---------- one file in the middle of a call ----------

  /** Everything is in order, and file `ino` is at (inode, count, data) in memory and in its blocks. */
  ghost predicate Busy(fs: Fs, ino: u32, inode: Inode, count: nat, data: seq<byte>, v0: seq<Block>)
    reads fs, fs.dev
  {
    fs.Ready() && Editing(Vol(fs.dev), fs.geo, fs.owner, fs.files, ino, inode, count, data, v0)
  }

  /** The driver finds block `idx` by the file size exactly when the file covers it. */
  ghost predicate AtFront(inode: Inode, idx: nat, count: nat, bs: nat)
    requires bs > 0
  {
    idx <= count && (idx < count <==> idx < MaxBlocks(inode.size, bs))
  }

  lemma EditMapped(vol: seq<Block>, g: Geometry, owner: Owners, files: Files, ino: u32, inode: Inode, count: nat,
                   data: seq<byte>, v0: seq<Block>, idx: nat)
    requires Editing(vol, g, owner, files, ino, inode, count, data, v0) && idx < count
    ensures MapOk(vol, inode, idx, Fanout(g.blockSize)) && 0 < BlockOf(vol, inode, idx, Fanout(g.blockSize)) < |vol|
  {
    hide Rest, Capacity, ByteAt, Path, Mapped, BlockOf;
    assert Mapped(vol, owner, ino, inode, idx, Fanout(g.blockSize));
    MappedBlock(vol, owner, ino, inode, idx, Fanout(g.blockSize));
  }

  lemma EditPointers(vol: seq<Block>, g: Geometry, owner: Owners, files: Files, ino: u32, inode: Inode, inode': Inode,
                     count: nat, data: seq<byte>, v0: seq<Block>)
    requires Editing(vol, g, owner, files, ino, inode, count, data, v0) && InodeOk(inode')
             && inode'.block == inode.block
    ensures Editing(vol, g, owner, files, ino, inode', count, data, v0)
  {
    hide Rest, Holds;
    HoldsPointers(vol, owner, ino, inode, inode', count, data, g.blockSize);
  }

  /** The sectors of a block, in which `i_blocks` counts. */
  function SectorCount(fs: Fs): (n: nat)
    ensures BlockSizeOk(fs.dev.blockSize) ==> 512 * n == fs.dev.blockSize
  {
    fs.dev.blockSize / SECTOR_SIZE
  }

  /**
   A new block for index `idx`, zeroed and entered in the inode. When the inode
   cannot take it the block stays allocated without a role.
   */
  method AddBlock(fs: Fs, inode: Inode, idx: u32, ghost ino: u32, ghost data: seq<byte>, ghost v0: seq<Block>)
    returns (ok: bool, b: u32, inode': Inode)
    requires fs.Valid() && InodeOk(inode)
    modifies fs`groupFree, fs`superFree, fs`owner
    modifies fs.dev`transfers, fs.dev`cache, fs.dev`pageRequests, fs.dev`sectors, fs.dev.ioBuffer
    ensures fs.Valid() && InodeOk(inode')
    ensures inode' == inode.(block := inode'.block, blocks := Wrap32(inode.blocks + if ok then SectorCount(fs) else 0))
    ensures old(Busy(fs, ino, inode, idx, data, v0)) ==>
              && inode'.size == inode.size
              && Busy(fs, ino, inode', if ok then idx + 1 else idx, data, v0)
              && (ok ==> idx < DIRECT + Fanout(fs.geo.blockSize)
                         && b == BlockOf(Vol(fs.dev), inode', idx, Fanout(fs.geo.blockSize)))
              && (!ok ==> fs.superFree == 0 || idx >= DIRECT + Fanout(fs.geo.blockSize))
  {
    hide Reliable, Vol, AllocOk, Editing, BlockOf, UsedBlock, BlockAt, Taken, GroupBits, SetWord;
    ghost var v1, gf, sf, good := Vol(fs.dev), fs.groupFree, fs.superFree, Busy(fs, ino, inode, idx, data, v0);
    ghost var k, i;
    ok, inode' := false, inode;
    b, k, i := AllocateIndex(fs);
    if b == 0 {
      return;
    }
    ghost var v2, gf2, sf2 := Vol(fs.dev), fs.groupFree, fs.superFree;
    if good {
      EditTake(v1, fs.geo, fs.owner, gf, sf, fs.files, ino, inode, idx, data, v0, k, i);
      EditSingleOk(v2, fs.geo, fs.owner, fs.files, ino, inode, idx, data, v0);
    }
    ghost var k', i';
    ok, inode', k', i' := SetBlock(fs, inode, idx, b);
    if !ok {
      return;
    }
    if good {
      EditAppend(v2, Vol(fs.dev), fs.geo, fs.owner, gf2, sf2, fs.files, ino, inode, inode', v0, idx, b, k', i', data);
      fs.owner := AddedOwners(fs.owner, ino, inode, inode', idx, b, Fanout(fs.geo.blockSize));
      SetThenLookupLow(v2, Vol(fs.dev), fs.geo, inode, inode', idx, b, k', i', idx);
    }
    ghost var inode1 := inode';
    inode' := inode'.(blocks := Wrap32(inode'.blocks + SectorCount(fs)));
    if good {
      EditPointers(Vol(fs.dev), fs.geo, fs.owner, fs.files, ino, inode1, inode', idx + 1, data, v0);
      SamePointers(Vol(fs.dev), inode1, inode', idx, Fanout(fs.geo.blockSize));
    }
  }

  lemma SamePointers(vol: seq<Block>, inode: Inode, inode': Inode, idx: nat, n: nat)
    requires InodeOk(inode) && InodeOk(inode') && n > 0 && inode.block == inode'.block
    ensures BlockOf(vol, inode, idx, n) == BlockOf(vol, inode', idx, n)
  {
  }

  /** The block behind index `idx`, allocated if the file has none yet. */
  method ObtainBlock(fs: Fs, inode: Inode, idx: u32, ghost ino: u32, ghost count: nat, ghost data: seq<byte>,
                     ghost v0: seq<Block>)
    returns (ok: bool, b: u32, inode': Inode)
    requires fs.Valid() && InodeOk(inode)
    modifies fs`groupFree, fs`superFree, fs`owner
    modifies fs.dev`transfers, fs.dev`cache, fs.dev`pageRequests, fs.dev`sectors, fs.dev.ioBuffer
    ensures fs.Valid() && InodeOk(inode') && inode' == inode.(block := inode'.block, blocks := inode'.blocks)
    ensures old(Busy(fs, ino, inode, count, data, v0)) && AtFront(inode, idx, count, fs.geo.blockSize) ==>
              && inode'.size == inode.size
              && Busy(fs, ino, inode', if ok then Max(count, idx + 1) else count, data, v0)
              && (ok ==> (idx < count || idx < DIRECT + Fanout(fs.geo.blockSize))
                         && b == BlockOf(Vol(fs.dev), inode', idx, Fanout(fs.geo.blockSize)))
              && (!ok ==> fs.superFree == 0 || idx >= DIRECT + Fanout(fs.geo.blockSize))
              && inode'.blocks == Wrap32(inode.blocks + if ok && idx == count then SectorCount(fs) else 0)
  {
    hide Reliable, Vol, AllocOk, Editing, BlockOf, MapOk;
    ghost var v1, good := Vol(fs.dev), Busy(fs, ino, inode, count, data, v0)
              && AtFront(inode, idx, count, fs.geo.blockSize);
    if good && idx < count {
      EditMapped(v1, fs.geo, fs.owner, fs.files, ino, inode, count, data, v0, idx);
    }
    inode' := inode;
    ok, b := GetBlock(fs.dev, inode, idx);
    if !ok {
      ok, b, inode' := AddBlock(fs, inode, idx, ino, data, v0);
    }
  }

  /** One block's share of a write: read first unless the whole block is replaced. */
  method PutChunk(d: Device, b: u32, off: nat, t: seq<byte>, partial: bool) returns (ok: bool)
    requires d.Valid() && off + |t| <= d.blockSize && (partial || |t| == d.blockSize)
    modifies d`transfers, d`cache, d`pageRequests, d`sectors, d.ioBuffer
    ensures d.Valid()
    ensures old(Reliable(d)) && b < |old(Vol(d))| && |old(Vol(d))[b]| == d.blockSize ==>
              ok && Reliable(d) && Vol(d) == old(Vol(d))[b := Splice(old(Vol(d))[b], off, t)]
  {
    hide Reliable, Vol;
    ghost var v0 := Vol(d);
    if partial {
      ok := LoadBlock(d, b);
      if !ok {
        return;
      }
    }
    SpliceBuffer(d, off, t);
    assert !partial && b < |v0| && |v0[b]| == d.blockSize ==> d.ioBuffer[..d.blockSize] == Splice(v0[b], off, t);
    ok := StoreBlock(d, b);
  }

  /** A write of `buf` at `p` after `w` bytes, about to go on at offset `off` of block `idx`. */
  ghost predicate Progress(fs: Fs, ino: u32, inode: Inode, count: nat, data: seq<byte>, v0: seq<Block>, p: nat,
                           buf: seq<byte>, w: nat, idx: nat, off: nat)
    reads fs, fs.dev
  {
    && BlockSizeOk(fs.geo.blockSize) && w <= |buf| && p <= |data| == inode.size
    && |data| + fs.geo.blockSize <= 0x1_0000_0000
    && count == Max(MaxBlocks(|data|, fs.geo.blockSize), idx)
    && (count > MaxBlocks(|data|, fs.geo.blockSize) ==> count <= DIRECT + Fanout(fs.geo.blockSize))
    && (w < |buf| ==> p + w == idx * fs.geo.blockSize + off)
    && (if w == 0 then idx <= MaxBlocks(|data|, fs.geo.blockSize) else p + w > (idx - 1) * fs.geo.blockSize)
    && Busy(fs, ino, inode, count, Overlay(data, p, buf[..w]), v0)
  }

  function Product(a: nat, b: nat): nat {
    a * b
  }

  /** `i_blocks` has grown by the sectors of the blocks that the file has more. */
  ghost predicate Counted(fs: Fs, inode0: Inode, inode: Inode, was: nat, count: nat) {
    was <= count && inode.blocks == Wrap32(inode0.blocks + Product(count - was, SectorCount(fs)))
  }

  /** The same for one block at most. */
  ghost predicate StepCounted(fs: Fs, inode: Inode, inode': Inode, count: nat, count': nat) {
    && count <= count' <= count + 1
    && inode'.blocks == Wrap32(inode.blocks + if count' == count then 0 else SectorCount(fs))
  }

  lemma CountedNone(fs: Fs, inode: Inode, count: nat)
    ensures Counted(fs, inode, inode, count, count)
  {
  }

  lemma CountedMore(fs: Fs, inode0: Inode, inode: Inode, inode': Inode, was: nat, count: nat, count': nat)
    requires Counted(fs, inode0, inode, was, count) && StepCounted(fs, inode, inode', count, count')
    ensures Counted(fs, inode0, inode', was, count')
  {
    hide Wrap32, SectorCount;
    var n := SectorCount(fs);
    if count' > count {
      assert Product(count' - was, n) == Product(count - was, n) + n;
      WrapTwice(inode0.blocks + Product(count - was, n), n);
    } else {
      WrapTwice(inode0.blocks + Product(count - was, n), 0);
    }
  }

  lemma WrapTwice(x: nat, y: nat)
    ensures Wrap32(Wrap32(x) + y) == Wrap32(x + y)
  {
    var m := 0x1_0000_0000;
    assert x == x / m * m + x % m;
    assert x + y == x / m * m + (x % m + y);
  }

  /** What a finished or stopped write loop has achieved. */
  ghost predicate Written(fs: Fs, ino: u32, inode: Inode, count: nat, data: seq<byte>, v0: seq<Block>, p: nat,
                          buf: seq<byte>, w: nat)
    reads fs, fs.dev
  {
    && BlockSizeOk(fs.geo.blockSize) && w <= |buf| && p <= |data| == inode.size
    && |Overlay(data, p, buf[..w])| + fs.geo.blockSize <= 0x1_0000_0000
    && (w < |buf| ==> fs.superFree == 0 || p + w >= SizeLimit(fs.geo.blockSize))
    && count == MaxBlocks(|Overlay(data, p, buf[..w])|, fs.geo.blockSize)
    && Busy(fs, ino, inode, count, Overlay(data, p, buf[..w]), v0)
  }

  /** Sizes stay below the wrap-around of the driver's block count. */
  lemma SizeFits(size: u32, bs: nat, count: nat, len: nat)
    requires BlockSizeOk(bs) && size + bs <= 0x1_0000_0000 && len <= count * bs
    requires count <= MaxBlocks(size, bs) || count <= DIRECT + Fanout(bs)
    ensures len + bs <= 0x1_0000_0000
  {
    CeilBlocks(size, bs);
    if count <= MaxBlocks(size, bs) {
      assert count * bs <= MaxBlocks(size, bs) * bs;
    } else {
      assert count * bs <= 1036 * bs;
    }
  }

  lemma EditLength(vol: seq<Block>, g: Geometry, owner: Owners, files: Files, ino: u32, inode: Inode, count: nat,
                   data: seq<byte>, v0: seq<Block>)
    requires Editing(vol, g, owner, files, ino, inode, count, data, v0)
    ensures |data| <= count * g.blockSize
  {
  }

  lemma ProgressStops(fs: Fs, ino: u32, inode: Inode, count: nat, data: seq<byte>, v0: seq<Block>, p: nat,
                      buf: seq<byte>, w: nat, idx: nat, off: nat)
    requires Progress(fs, ino, inode, count, data, v0, p, buf, w, idx, off)
    requires w < |buf| ==> fs.superFree == 0 || idx >= DIRECT + Fanout(fs.geo.blockSize)
    ensures Written(fs, ino, inode, count, data, v0, p, buf, w)
  {
    hide Vol, Reliable, AllocOk, Editing, Overlay;
    var bs := fs.geo.blockSize;
    EditLength(Vol(fs.dev), fs.geo, fs.owner, fs.files, ino, inode, count, Overlay(data, p, buf[..w]), v0);
    SizeFits(|data|, bs, count, |Overlay(data, p, buf[..w])|);
    CountIsLeast(|data|, |Overlay(data, p, buf[..w])|, bs, count);
    if idx >= DIRECT + Fanout(bs) {
      assert idx * bs >= (DIRECT + Fanout(bs)) * bs;
    }
  }

  /** A file that has grown covers no more blocks than its size needs. */
  lemma CountIsLeast(was: nat, len: nat, bs: nat, count: nat)
    requires BlockSizeOk(bs) && was <= len && len + bs <= 0x1_0000_0000 && len <= count * bs
    requires count == MaxBlocks(was, bs) || len > (count - 1) * bs
    ensures count == MaxBlocks(len, bs)
  {
    LeastBlocks(len, bs, count);
    CeilBlocks(len, bs);
    if count == MaxBlocks(was, bs) {
      LeastBlocks(was, bs, MaxBlocks(len, bs));
    }
  }

  lemma ProgressStarts(fs: Fs, ino: u32, inode: Inode, data: seq<byte>, v0: seq<Block>, p: nat, buf: seq<byte>)
    requires |data| + fs.geo.blockSize <= 0x1_0000_0000 && BlockSizeOk(fs.geo.blockSize)
    requires Busy(fs, ino, inode, MaxBlocks(|data|, fs.geo.blockSize), data, v0) && p <= |data| == inode.size
    ensures Progress(fs, ino, inode, MaxBlocks(|data|, fs.geo.blockSize), data, v0, p, buf, 0,
                     Wrap32(p / fs.geo.blockSize), p % fs.geo.blockSize)
  {
    hide Vol, Reliable, AllocOk, Editing;
    var bs := fs.geo.blockSize;
    assert Overlay(data, p, buf[..0]) == data;
    CeilBlocks(|data|, bs);
    StartBelow(p, MaxBlocks(|data|, bs), bs);
  }

  lemma StartBelow(p: nat, count: nat, bs: nat)
    requires BlockSizeOk(bs) && p <= count * bs && p < 0x1_0000_0000
    ensures p / bs <= count && Wrap32(p / bs) == p / bs && p == p / bs * bs + p % bs
  {
    if p / bs > count {
      assert false;
    }
  }

  /** The loop of ext2_write. */
  method WriteLoop(fs: Fs, inode0: Inode, p: nat, buf: seq<byte>, ghost ino: u32, ghost data: seq<byte>,
                   ghost v0: seq<Block>)
    returns (w: nat, inode: Inode, ghost count: nat)
    requires fs.Valid() && InodeOk(inode0)
    modifies fs`groupFree, fs`superFree, fs`owner
    modifies fs.dev`transfers, fs.dev`cache, fs.dev`pageRequests, fs.dev`sectors, fs.dev.ioBuffer
    ensures fs.Valid() && InodeOk(inode) && w <= |buf|
    ensures inode == inode0.(block := inode.block, blocks := inode.blocks)
    ensures old(Busy(fs, ino, inode0, MaxBlocks(|data| % 0x1_0000_0000, fs.geo.blockSize), data, v0))
            && p <= |data| == inode0.size
            && |data| + fs.geo.blockSize <= 0x1_0000_0000 ==>
              && Written(fs, ino, inode, count, data, v0, p, buf, w)
              && Counted(fs, inode0, inode, MaxBlocks(|data|, fs.geo.blockSize), count)
  {
    hide Reliable, Vol, AllocOk, Editing, BlockOf, Overlay, Busy, Progress, Written, Counted, SectorCount;
    var bs := fs.dev.blockSize;
    var idx: u32, off: nat := Wrap32(p / bs), p % bs;
    w, inode, count := 0, inode0, MaxBlocks(|data| % 0x1_0000_0000, bs);
    ghost var good := Busy(fs, ino, inode0, count, data, v0) && p <= |data| == inode0.size
              && |data| + bs <= 0x1_0000_0000;
    if good {
      ProgressStarts(fs, ino, inode0, data, v0, p, buf);
      CountedNone(fs, inode0, count);
    }
    while w < |buf|
      invariant fs.Valid() && InodeOk(inode) && w <= |buf| && off < bs
      invariant inode == inode0.(block := inode.block, blocks := inode.blocks)
      invariant good ==> Progress(fs, ino, inode, count, data, v0, p, buf, w, idx, off)
      invariant good ==> Counted(fs, inode0, inode, MaxBlocks(|data|, bs), count)
      decreases |buf| - w
    {
      var ok, len;
      ghost var inode1, count1 := inode, count;
      ok, inode, len, count := WriteStep(fs, inode, idx, off, buf[w..], ino, count, data, v0, p, buf, w, good);
      if good {
        CountedMore(fs, inode0, inode1, inode, MaxBlocks(|data|, bs), count1, count);
      }
      if !ok {
        return;
      }
      w, idx, off := w + len, Wrap32(idx + 1), 0;
    }
    if good {
      ProgressStops(fs, ino, inode, count, data, v0, p, buf, w, idx, off);
    }
  }

  /** One turn of the loop of ext2_write. */
  method WriteStep(fs: Fs, inode: Inode, idx: u32, off: nat, rest: seq<byte>, ghost ino: u32, ghost count: nat,
                   ghost data: seq<byte>, ghost v0: seq<Block>, ghost p: nat, ghost buf: seq<byte>, ghost w: nat,
                   ghost good: bool)
    returns (ok: bool, inode': Inode, len: nat, ghost count': nat)
    requires fs.Valid() && InodeOk(inode) && off < fs.geo.blockSize && rest != [] && w < |buf| && rest == buf[w..]
    requires good ==> Progress(fs, ino, inode, count, data, v0, p, buf, w, idx, off)
    modifies fs`groupFree, fs`superFree, fs`owner
    modifies fs.dev`transfers, fs.dev`cache, fs.dev`pageRequests, fs.dev`sectors, fs.dev.ioBuffer
    ensures fs.Valid() && InodeOk(inode') && (ok ==> 0 < len <= |rest|)
    ensures inode' == inode.(block := inode'.block, blocks := inode'.blocks)
    ensures good ==> StepCounted(fs, inode, inode', count, count')
    ensures good && ok ==> Progress(fs, ino, inode', count', data, v0, p, buf, w + len, Wrap32(idx + 1), 0)
    ensures good && !ok ==> Written(fs, ino, inode', count', data, v0, p, buf, w)
  {
    hide Reliable, Vol, AllocOk, Editing, BlockOf, Overlay, Written, SectorCount;
    var b;
    len, count' := 0, count;
    ghost var data1 := if good then Overlay(data, p, buf[..w]) else [];
    ok, b, inode' := ObtainBlock(fs, inode, idx, ino, count, data1, v0);
    if !ok {
      if good {
        ProgressStops(fs, ino, inode', count, data, v0, p, buf, w, idx, off);
      }
      return;
    }
    count' := Max(count, idx + 1);
    var bs := fs.dev.blockSize;
    len := if bs - off > |rest| then |rest| else bs - off;
    ghost var vol, gf, sf := Vol(fs.dev), fs.groupFree, fs.superFree;
    if good {
      EditChunk(vol, fs.geo, fs.owner, gf, sf, fs.files, ino, inode', count', data1, v0, idx, off, rest[..len]);
    }
    ok := PutChunk(fs.dev, b, off, rest[..len], off > 0 || |rest| < bs);
    if good {
      ProgressGoesOn(fs, ino, inode', count', data, v0, p, buf, w, idx, off, len);
    }
  }

  lemma ProgressGoesOn(fs: Fs, ino: u32, inode: Inode, count: nat, data: seq<byte>, v0: seq<Block>, p: nat,
                       buf: seq<byte>, w: nat, idx: u32, off: nat, len: nat)
    requires BlockSizeOk(fs.geo.blockSize) && p <= |data| == inode.size && |data| + fs.geo.blockSize <= 0x1_0000_0000
    requires count == Max(MaxBlocks(|data|, fs.geo.blockSize), idx + 1)
    requires count > MaxBlocks(|data|, fs.geo.blockSize) ==> count <= DIRECT + Fanout(fs.geo.blockSize)
    requires w < |buf| && off < fs.geo.blockSize && p + w == idx * fs.geo.blockSize + off
    requires len == if fs.geo.blockSize - off > |buf| - w then |buf| - w else fs.geo.blockSize - off
    requires Busy(fs, ino, inode, count,
                  Overlay(Overlay(data, p, buf[..w]), idx * fs.geo.blockSize + off, buf[w..][..len]), v0)
    ensures Progress(fs, ino, inode, count, data, v0, p, buf, w + len, Wrap32(idx + 1), 0)
  {
    hide Busy, Overlay, MaxBlocks, Wrap32;
    OverlayTwice(data, p, buf[..w], buf[w..][..len]);
    assert buf[..w] + buf[w..][..len] == buf[..w + len];
    NextIndex(|data|, fs.geo.blockSize, idx);
  }

  lemma NextIndex(size: u32, bs: nat, idx: u32)
    requires BlockSizeOk(bs) && size + bs <= 0x1_0000_0000
    requires idx + 1 <= MaxBlocks(size, bs) || idx < DIRECT + Fanout(bs)
    ensures Wrap32(idx + 1) == idx + 1 && (idx + 1) * bs == idx * bs + bs
  {
    CeilBlocks(size, bs);
  }
}
