/**
 The states a file goes through while the driver reads or writes it: opening it
 for a change, replacing a piece of its bytes, writing its inode back.
 */
module FileSteps {
  import opened Bytes
  import opened BlockCache
  import opened Volume
  import opened InodeTable
  import opened BlockAllocator
  import opened Ext2State
  import opened BlockMap
  import opened FileImage
  import opened FileWorld

  /** All files of the volume hold their contents. */
  ghost predicate Stored(vol: seq<Block>, g: Geometry, owner: Owners, files: Files) {
    && World(vol, g, owner)
    && forall m: u32 :: m in files ==> FileAt(vol, g, owner, m, files[m])
  }

  /** Every inode is of the kind it was. */
  ghost predicate ModesKept(v0: seq<Block>, vol: seq<Block>, g: Geometry) {
    && VolumeOk(v0, g) && VolumeOk(vol, g)
    && forall m: u32 :: InodeExists(g, m) ==> InodeAt(vol, g, m).mode == InodeAt(v0, g, m).mode
  }

  /** Every inode has the mode, owner, links and the like that it had. */
  ghost predicate HeadsKept(v0: seq<Block>, vol: seq<Block>, g: Geometry) {
    && VolumeOk(v0, g) && VolumeOk(vol, g)
    && forall m: u32 :: InodeExists(g, m) ==> SameHead(InodeAt(vol, g, m), InodeAt(v0, g, m))
  }

  lemma HeadsAfter(v0: seq<Block>, vol: seq<Block>, g: Geometry, ino: u32, inode: Inode)
    requires VolumeOk(v0, g) && VolumeOk(vol, g) && InodeExists(g, ino) && SameHead(inode, InodeAt(v0, g, ino))
    requires forall m: u32 :: InodeExists(g, m) ==> InodeAt(vol, g, m) == if m == ino then inode else InodeAt(v0, g, m)
    ensures HeadsKept(v0, vol, g)
  {
    hide VolumeOk, InodeAt, InodeExists;
  }

  lemma HeadsModes(v0: seq<Block>, vol: seq<Block>, g: Geometry)
    requires HeadsKept(v0, vol, g)
    ensures ModesKept(v0, vol, g)
  {
    hide VolumeOk, InodeAt, InodeExists;
  }

  /** `data` with the bytes from `p` on replaced by `t`, longer where `t` reaches past the end. */
  ghost function Overlay(data: seq<byte>, p: nat, t: seq<byte>): (r: seq<byte>)
    requires p <= |data|
    ensures |r| == if p + |t| <= |data| then |data| else p + |t|
  {
    if p + |t| <= |data| then data[..p] + t + data[p + |t|..] else data[..p] + t
  }

  lemma OverlayAt(data: seq<byte>, p: nat, t: seq<byte>, i: nat)
    requires p <= |data| && i < |Overlay(data, p, t)|
    ensures p <= i < p + |t| ==> Overlay(data, p, t)[i] == t[i - p]
    ensures !(p <= i < p + |t|) ==> i < |data| && Overlay(data, p, t)[i] == data[i]
  {
  }

  lemma OverlayTwice(data: seq<byte>, p: nat, t: seq<byte>, u: seq<byte>)
    requires p <= |data|
    ensures Overlay(Overlay(data, p, t), p + |t|, u) == Overlay(data, p, t + u)
  {
    hide Overlay;
    var once := Overlay(data, p, t);
    var twice, whole := Overlay(once, p + |t|, u), Overlay(data, p, t + u);
    forall i: nat | i < |whole| ensures twice[i] == whole[i] {
      OverlayAt(data, p, t + u, i);
      OverlayAt(once, p + |t|, u, i);
      if i < p + |t| || i >= p + |t| + |u| {
        OverlayAt(data, p, t, i);
      }
    }
  }

  // ---------- sizes in blocks ----------

  lemma CeilBlocks(size: u32, bs: nat)
    requires BlockSizeOk(bs) && size + bs <= 0x1_0000_0000
    ensures MaxBlocks(size, bs) == (size + bs - 1) / bs
    ensures size <= MaxBlocks(size, bs) * bs
    ensures MaxBlocks(size, bs) * bs + bs <= 0x1_0000_0000
  {
    var q, r := (size + bs - 1) / bs, (size + bs - 1) % bs;
    assert q * bs + r == size + bs - 1;
    if bs == 1024 {
      assert q <= 0x3f_ffff;
    } else if bs == 2048 {
      assert q <= 0x1f_ffff;
    } else {
      assert q <= 0xf_ffff;
    }
  }

  /** The block count of a size is the least that holds it. */
  lemma LeastBlocks(size: u32, bs: nat, count: nat)
    requires BlockSizeOk(bs) && size + bs <= 0x1_0000_0000 && size <= count * bs
    ensures MaxBlocks(size, bs) <= count
  {
    CeilBlocks(size, bs);
    var q := MaxBlocks(size, bs);
    assert q * bs <= size + bs - 1 < (count + 1) * bs;
  }

  lemma HoldsFewer(vol: seq<Block>, owner: Owners, ino: u32, inode: Inode, count: nat, data: seq<byte>, bs: nat,
                   count': nat)
    requires InodeOk(inode) && BlockSizeOk(bs) && Holds(vol, owner, ino, inode, count, data, bs)
    requires count' <= count && |data| <= count' * bs
    ensures Holds(vol, owner, ino, inode, count', data, bs)
  {
    hide Mapped, ByteAt, Capacity;
  }

  /** Contents depend on the block pointers of the inode only. */
  lemma HoldsPointers(vol: seq<Block>, owner: Owners, ino: u32, inode: Inode, inode': Inode, count: nat,
                      data: seq<byte>, bs: nat)
    requires InodeOk(inode) && BlockSizeOk(bs) && Holds(vol, owner, ino, inode, count, data, bs)
    requires InodeOk(inode') && inode'.block == inode.block
    ensures Holds(vol, owner, ino, inode', count, data, bs)
  {
    hide Path, Owned, Descend, Capacity;
    var n := Fanout(bs);
    forall j: nat | j < count ensures Mapped(vol, owner, ino, inode', j, n) {
      assert Mapped(vol, owner, ino, inode, j, n);
    }
    forall i: nat | i < |data| ensures ByteAt(vol, inode', i, bs) == data[i] {
      assert ByteAt(vol, inode, i, bs) == data[i];
    }
  }

  // ---------- opening, changing, closing ----------

  lemma EditOpen(vol: seq<Block>, g: Geometry, owner: Owners, files: Files, ino: u32)
    requires Stored(vol, g, owner, files) && ino in files
    ensures VolumeOk(vol, g) && InodeExists(g, ino) && BlockSizeOk(g.blockSize)
    ensures InodeAt(vol, g, ino).size == |files[ino]| && |files[ino]| + g.blockSize <= 0x1_0000_0000
    ensures Editing(vol, g, owner, files, ino, InodeAt(vol, g, ino), MaxBlocks(|files[ino]|, g.blockSize), files[ino],
                    vol)
  {
    hide World, Holds, InodeAt;
    assert FileAt(vol, g, owner, ino, files[ino]);
    forall m: u32 | m in files && m != ino ensures FileAt(vol, g, owner, m, files[m]) {
    }
  }

  /** Placing `t` at offset `off` of block `idx` is placing it at `idx * bs + off` of the file. */
  lemma ChunkBytes(data: seq<byte>, idx: nat, off: nat, t: seq<byte>, bs: nat, i: nat, x: byte)
    requires bs > 0 && off + |t| <= bs && idx * bs + off <= |data| && i < |Overlay(data, idx * bs + off, t)|
    requires i / bs == idx && (i < |data| ==> x == data[i])
    ensures var d' := Overlay(data, idx * bs + off, t);
            d'[i] == if off <= i % bs < off + |t| then t[i % bs - off] else x
  {
    assert i == i / bs * bs + i % bs;
  }

  lemma ChunkElsewhere(data: seq<byte>, idx: nat, off: nat, t: seq<byte>, bs: nat, i: nat)
    requires bs > 0 && off + |t| <= bs && idx * bs + off <= |data| && i < |Overlay(data, idx * bs + off, t)|
    requires i / bs != idx
    ensures i < |data| && Overlay(data, idx * bs + off, t)[i] == data[i]
  {
    var p := idx * bs + off;
    if p <= i < p + |t| {
      InBlock(i, idx, bs);
    }
  }

  lemma InBlock(i: nat, idx: nat, bs: nat)
    requires bs > 0 && idx * bs <= i < idx * bs + bs
    ensures i / bs == idx && i % bs == i - idx * bs
  {
    ModOfSum(idx, bs, i - idx * bs);
  }

  /** Writing a chunk into a block the file already covers. */
  lemma EditChunk(vol: seq<Block>, g: Geometry, owner: Owners, gf: seq<nat>, sf: nat, files: Files, ino: u32,
                  inode: Inode, count: nat, data: seq<byte>, v0: seq<Block>, idx: nat, off: nat, t: seq<byte>)
    requires AllocOk(vol, g, gf, sf) && Editing(vol, g, owner, files, ino, inode, count, data, v0)
    requires idx < count && off + |t| <= g.blockSize && idx * g.blockSize + off <= |data|
    ensures var b := BlockOf(vol, inode, idx, Fanout(g.blockSize));
            && b < |vol| && |vol[b]| == g.blockSize
            && AllocOk(vol[b := Splice(vol[b], off, t)], g, gf, sf)
            && Editing(vol[b := Splice(vol[b], off, t)], g, owner, files, ino, inode, count,
                       Overlay(data, idx * g.blockSize + off, t), v0)
  {
    hide AllocOk, Rest, BlockOf, Overlay, Mapped, Capacity, Path;
    var bs, n := g.blockSize, Fanout(g.blockSize);
    var b, data' := BlockOf(vol, inode, idx, n), Overlay(data, idx * bs + off, t);
    assert Mapped(vol, owner, ino, inode, idx, n);
    MappedBlock(vol, owner, ino, inode, idx, n);
    BlockLength(vol, g, gf, sf, b);
    var block := Splice(vol[b], off, t);
    forall i: nat | i < |data'|
      ensures i / bs == idx ==> data'[i] == block[i % bs]
      ensures i / bs != idx ==> i < |data| && data'[i] == data[i]
    {
      if i / bs == idx {
        assert i < |data| ==> ByteAt(vol, inode, i, bs) == data[i];
        ChunkBytes(data, idx, off, t, bs, i, vol[b][i % bs]);
      } else {
        ChunkElsewhere(data, idx, off, t, bs, i);
      }
    }
    ChunkLength(idx, off, |t|, bs, count);
    EditData(vol, g, owner, gf, sf, files, ino, inode, count, data, v0, idx, block, data');
  }

  lemma ChunkLength(idx: nat, off: nat, len: nat, bs: nat, count: nat)
    requires idx < count && off + len <= bs
    ensures idx * bs + off + len <= count * bs
  {
    assert (idx + 1) * bs <= count * bs;
  }

  /** Writing the inode of the edited file back makes its new contents part of the volume. */
  lemma EditClose(vol: seq<Block>, g: Geometry, owner: Owners, gf: seq<nat>, sf: nat, files: Files, ino: u32,
                  inode: Inode, inode': Inode, count: nat, data: seq<byte>, v0: seq<Block>)
    requires AllocOk(vol, g, gf, sf) && Editing(vol, g, owner, files, ino, inode, count, data, v0)
             && InodeExists(g, ino)
    requires InodeOk(inode') && inode'.block == inode.block && inode'.size == |data|
             && |data| + g.blockSize <= 0x1_0000_0000
    ensures VolumeOk(vol, g) && AllocOk(WithInode(vol, g, ino, inode'), g, gf, sf)
    ensures Stored(WithInode(vol, g, ino, inode'), g, owner, files[ino := data])
    ensures VolumeOk(v0, g) && VolumeOk(WithInode(vol, g, ino, inode'), g)
    ensures forall m: u32 :: InodeExists(g, m) ==>
              InodeAt(WithInode(vol, g, ino, inode'), g, m) == if m == ino then inode' else InodeAt(v0, g, m)
  {
    hide AllocOk, Holds, UsedBlock, BlocksOk, BlockOfInode, InodeAt, FileAt, VolumeOk, InodeExists, SlotOffset;
    VolumeGeometry(vol, g);
    var vol' := WithInode(vol, g, ino, inode');
    forall m: u32 | InodeExists(g, m)
      ensures VolumeOk(vol', g) && InodeAt(vol', g, m) == if m == ino then inode' else InodeAt(v0, g, m)
    {
      InodeWritten(vol, g, ino, inode', m);
    }
    TableWrite(vol, g, owner, gf, sf, ino, inode');
    forall m: u32 | m in files && m != ino ensures FileAt(vol', g, owner, m, files[m]) {
      CloseOther(vol, g, owner, ino, inode', m, files[m]);
    }
    CloseThis(vol, g, owner, ino, inode, inode', count, data);
  }

  lemma VolumeGeometry(vol: seq<Block>, g: Geometry)
    requires VolumeOk(vol, g)
    ensures GeometryOk(g)
  {
  }

  /** Writing an inode changes neither roles nor bitmaps. */
  lemma TableWrite(vol: seq<Block>, g: Geometry, owner: Owners, gf: seq<nat>, sf: nat, ino: u32, inode': Inode)
    requires AllocOk(vol, g, gf, sf) && World(vol, g, owner) && InodeExists(g, ino) && InodeOk(inode')
    ensures AllocOk(WithInode(vol, g, ino, inode'), g, gf, sf) && World(WithInode(vol, g, ino, inode'), g, owner)
  {
    hide AllocOk, UsedBlock, SlotOffset, BlockOfInode, Unwords, InodeWords;
    InodePlace(g, |vol|, ino);
    InodeWritten(vol, g, ino, inode', ino);
    var b, vol' := BlockOfInode(g, ino), WithInode(vol, g, ino, inode');
    forall k | 0 <= k < |g.bitmaps| ensures g.bitmaps[k] != b { assert owner[g.bitmaps[k]] == Bitmap(k); }
    NonBitmapWrite(vol, g, gf, sf, b, vol'[b]);
    assert vol' == vol[b := vol'[b]];
    ReadyBlocksOk(vol', g, gf, sf);
  }

  /** A file other than the one whose inode is written. */
  lemma CloseOther(vol: seq<Block>, g: Geometry, owner: Owners, ino: u32, inode': Inode, m: u32, data: seq<byte>)
    requires World(vol, g, owner) && InodeExists(g, ino) && InodeOk(inode') && m != ino
    requires FileAt(vol, g, owner, m, data)
    ensures FileAt(WithInode(vol, g, ino, inode'), g, owner, m, data)
  {
    hide Holds, BlocksOk, UsedBlock, BlockOfInode, SlotOffset, InodeAt, Unwords, InodeWords, TablesOk;
    InodeWritten(vol, g, ino, inode', m);
    InodePlace(g, |vol|, ino);
    var b, vol' := BlockOfInode(g, ino), WithInode(vol, g, ino, inode');
    assert vol' == vol[b := vol'[b]];
    OtherWrite(vol, owner, m, InodeAt(vol, g, m), MaxBlocks(|data|, g.blockSize), data, g.blockSize, b, vol'[b]);
  }

  lemma CloseThis(vol: seq<Block>, g: Geometry, owner: Owners, ino: u32, inode: Inode, inode': Inode, count: nat,
                  data: seq<byte>)
    requires World(vol, g, owner) && InodeExists(g, ino) && InodeOk(inode)
             && Holds(vol, owner, ino, inode, count, data, g.blockSize)
    requires InodeOk(inode') && inode'.block == inode.block && inode'.size == |data|
             && |data| + g.blockSize <= 0x1_0000_0000
    ensures FileAt(WithInode(vol, g, ino, inode'), g, owner, ino, data)
  {
    hide Covered, ByteAt, SingleOwned, BlocksOk, UsedBlock, BlockOfInode, SlotOffset, InodeAt, Unwords, InodeWords,
         TablesOk;
    InodeWritten(vol, g, ino, inode', ino);
    InodePlace(g, |vol|, ino);
    var b, vol', bs := BlockOfInode(g, ino), WithInode(vol, g, ino, inode'), g.blockSize;
    assert vol' == vol[b := vol'[b]];
    HoldsPointers(vol, owner, ino, inode, inode', count, data, bs);
    LeastBlocks(|data|, bs, count);
    CeilBlocks(|data|, bs);
    HoldsFewer(vol, owner, ino, inode', count, data, bs, MaxBlocks(|data|, bs));
    OtherWrite(vol, owner, ino, inode', MaxBlocks(|data|, bs), data, bs, b, vol'[b]);
  }
}
