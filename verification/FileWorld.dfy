/**
 The whole volume while one file is being changed: the allocator, the metadata
 and all other files are kept by every write the driver makes.
 */
module FileWorld {
  import opened Bytes
  import opened Bitmaps
  import opened BlockCache
  import opened Volume
  import opened InodeTable
  import opened BlockAllocator
  import opened Ext2State
  import opened BlockMap
  import opened FileImage

  type Files = map<u32, seq<byte>>

  /** The file `ino` on the volume holds exactly `data`, without holes. */
  ghost predicate FileAt(vol: seq<Block>, g: Geometry, owner: Owners, ino: u32, data: seq<byte>) {
    && VolumeOk(vol, g) && InodeExists(g, ino)
    && InodeAt(vol, g, ino).size == |data| && |data| + g.blockSize <= 0x1_0000_0000
    && Holds(vol, owner, ino, InodeAt(vol, g, ino), MaxBlocks(|data|, g.blockSize), data, g.blockSize)
  }

  /** Everything but the file being changed: roles, inode tables as in `v0`, and the other files. */
  ghost predicate Rest(vol: seq<Block>, g: Geometry, owner: Owners, files: Files, ino: u32, v0: seq<Block>)
  {
    && World(vol, g, owner) && VolumeOk(v0, g)
    && (forall m: u32 :: InodeExists(g, m) ==> InodeAt(vol, g, m) == InodeAt(v0, g, m))
    && (forall m: u32 :: m in files && m != ino ==> FileAt(vol, g, owner, m, files[m]))
  }

  lemma FileAtWrite(vol: seq<Block>, g: Geometry, owner: Owners, m: u32, data: seq<byte>, w: nat, block: Block)
    requires World(vol, g, owner) && FileAt(vol, g, owner, m, data) && w < |vol| && |block| == g.blockSize
    requires w in owner ==> owner[w] != Table && (owner[w].FileBlock? ==> owner[w].ino != m)
    ensures FileAt(vol[w := block], g, owner, m, data)
  {
    hide Holds, SlotOffset, BlockOfInode, TablesOk;
    TableKept(vol, g, owner, w, block, m);
    OtherWrite(vol, owner, m, InodeAt(vol, g, m), MaxBlocks(|data|, g.blockSize), data, g.blockSize, w, block);
  }

  /** A write outside the inode tables changes no inode. */
  lemma TableKept(vol: seq<Block>, g: Geometry, owner: Owners, w: nat, block: Block, m: u32)
    requires World(vol, g, owner) && w < |vol| && |block| == g.blockSize && InodeExists(g, m)
    requires w in owner ==> owner[w] != Table
    ensures VolumeOk(vol[w := block], g) && InodeAt(vol[w := block], g, m) == InodeAt(vol, g, m)
  {
    hide SlotOffset, BlockOfInode;
    assert owner[BlockOfInode(g, m)] == Table;
  }

  lemma VolumeKept(vol: seq<Block>, g: Geometry, w: nat, block: Block)
    requires VolumeOk(vol, g) && w < |vol| && |block| == g.blockSize
    ensures VolumeOk(vol[w := block], g)
  {
  }

  /** A write to a block of the file being changed, or to a block without a role. */
  lemma RestWrite(vol: seq<Block>, g: Geometry, owner: Owners, gf: seq<nat>, sf: nat, files: Files, ino: u32,
                  v0: seq<Block>, w: nat, block: Block)
    requires AllocOk(vol, g, gf, sf) && Rest(vol, g, owner, files, ino, v0) && w < |vol| && |block| == g.blockSize
    requires w in owner ==> owner[w].FileBlock? && owner[w].ino == ino
    ensures AllocOk(vol[w := block], g, gf, sf) && Rest(vol[w := block], g, owner, files, ino, v0)
  {
    hide AllocOk, FileAt, VolumeOk, UsedBlock, InodeAt, BlockOfInode, InodeExists, BlocksOk;
    var vol' := vol[w := block];
    ReadyBlocksOk(vol, g, gf, sf);
    forall k | 0 <= k < |g.bitmaps| ensures g.bitmaps[k] != w { assert owner[g.bitmaps[k]] == Bitmap(k); }
    NonBitmapWrite(vol, g, gf, sf, w, block);
    ReadyBlocksOk(vol', g, gf, sf);
    VolumeKept(vol, g, w, block);
    forall m: u32 | InodeExists(g, m) ensures InodeAt(vol', g, m) == InodeAt(v0, g, m) {
      TableKept(vol, g, owner, w, block, m);
    }
    forall m: u32 | m in files && m != ino ensures FileAt(vol', g, owner, m, files[m]) {
      FileAtWrite(vol, g, owner, m, files[m], w, block);
    }
  }

  /** Giving the file being changed a new used block. */
  lemma RestOwn(vol: seq<Block>, g: Geometry, owner: Owners, files: Files, ino: u32,
                v0: seq<Block>, b: nat, path: seq<nat>)
    requires Rest(vol, g, owner, files, ino, v0) && b !in owner && b < |vol|
    requires BlocksOk(vol, g) && UsedBlock(vol, g, b)
    ensures Rest(vol, g, owner[b := FileBlock(ino, path)], files, ino, v0)
  {
    hide AllocOk, VolumeOk, UsedBlock, InodeAt, BlockOfInode, InodeExists, BlocksOk, FileAt;
    var owner' := owner[b := FileBlock(ino, path)];
    forall m: u32 | m in files && m != ino ensures FileAt(vol, g, owner', m, files[m]) {
      FileAtMore(vol, g, owner, owner', m, files[m]);
    }
  }

  lemma FileAtMore(vol: seq<Block>, g: Geometry, owner: Owners, owner': Owners, m: u32, data: seq<byte>)
    requires FileAt(vol, g, owner, m, data)
    requires forall c :: c in owner ==> c in owner' && owner'[c] == owner[c]
    ensures FileAt(vol, g, owner', m, data)
  {
    hide Holds, InodeAt;
    MoreOwners(vol, owner, owner', m, InodeAt(vol, g, m), MaxBlocks(|data|, g.blockSize), data, g.blockSize);
  }

  /** Taking a free block keeps everything; the block has no role yet. */
  lemma RestTake(vol: seq<Block>, g: Geometry, owner: Owners, gf: seq<nat>, sf: nat, files: Files, ino: u32,
                 v0: seq<Block>, k: nat, i: nat)
    requires AllocOk(vol, g, gf, sf) && Rest(vol, g, owner, files, ino, v0) && BlocksOk(vol, g) && Clear(vol, g, k, i)
    ensures gf[k] > 0 && sf > 0 && BlockAt(g, k, i) < |vol| && BlockAt(g, k, i) !in owner
    ensures AllocOk(Taken(vol, g, k, i), g, gf[k := gf[k] - 1], sf - 1)
    ensures Rest(Taken(vol, g, k, i), g, owner, files, ino, v0)
    ensures BlocksOk(Taken(vol, g, k, i), g) && UsedBlock(Taken(vol, g, k, i), g, BlockAt(g, k, i))
  {
    hide AllocOk, FileAt, VolumeOk, InodeAt, BlockOfInode, InodeExists, BlocksOk, GroupBits, BlockAt;
    ReadyBlocksOk(vol, g, gf, sf);
    TakeKeeps(vol, g, gf, sf, k, i);
    BlockLength(vol, g, gf, sf, g.bitmaps[k]);
    var b := BlockAt(g, k, i);
    assert !UsedBlock(vol, g, b);
    var bm := g.bitmaps[k];
    var data := BitmapSet(vol[bm], i);
    var v1 := vol[bm := data];
    var vol' := v1[b := Zeros(g.blockSize)];
    ReadyBlocksOk(vol', g, gf[k := gf[k] - 1], sf - 1);
    VolumeKept(vol, g, bm, data);
    VolumeKept(v1, g, b, Zeros(g.blockSize));
    forall m: u32 | InodeExists(g, m) ensures InodeAt(vol', g, m) == InodeAt(v0, g, m) {
      TwoWritesTable(vol, g, owner, bm, data, b, m);
    }
    forall m: u32 | m in files && m != ino ensures FileAt(vol', g, owner, m, files[m]) {
      TwoWritesFile(vol, g, owner, bm, data, b, m, files[m]);
    }
  }

  lemma TwoWritesTable(vol: seq<Block>, g: Geometry, owner: Owners, bm: nat, data: Block, b: nat, m: u32)
    requires World(vol, g, owner) && bm < |vol| && |data| == g.blockSize && InodeExists(g, m)
    requires bm in owner && owner[bm].Bitmap? && b !in owner && b < |vol|
    ensures VolumeOk(vol[bm := data][b := Zeros(g.blockSize)], g)
    ensures InodeAt(vol[bm := data][b := Zeros(g.blockSize)], g, m) == InodeAt(vol, g, m)
  {
    hide SlotOffset, BlockOfInode;
    assert owner[BlockOfInode(g, m)] == Table;
  }

  lemma TwoWritesFile(vol: seq<Block>, g: Geometry, owner: Owners, bm: nat, data: Block, b: nat, m: u32,
                      bytes: seq<byte>)
    requires World(vol, g, owner) && FileAt(vol, g, owner, m, bytes) && bm < |vol| && |data| == g.blockSize
    requires bm in owner && owner[bm].Bitmap? && b !in owner && b < |vol|
    ensures FileAt(vol[bm := data][b := Zeros(g.blockSize)], g, owner, m, bytes)
  {
    hide Holds, World;
    TwoWritesTable(vol, g, owner, bm, data, b, m);
    var I, c, bs := InodeAt(vol, g, m), MaxBlocks(|bytes|, g.blockSize), g.blockSize;
    OtherWrite(vol, owner, m, I, c, bytes, bs, bm, data);
    OtherWrite(vol[bm := data], owner, m, I, c, bytes, bs, b, Zeros(bs));
  }

  // ---------- one file being changed ----------

  /** The volume with file `ino` in the state (inode, count, data) and everything else kept. */
  ghost predicate Editing(vol: seq<Block>, g: Geometry, owner: Owners, files: Files, ino: u32, inode: Inode, count: nat,
                          data: seq<byte>, v0: seq<Block>)
  {
    && Rest(vol, g, owner, files, ino, v0)
    && InodeOk(inode) && BlockSizeOk(g.blockSize) && Holds(vol, owner, ino, inode, count, data, g.blockSize)
  }

  /** Allocating a block while a file is edited. */
  lemma EditTake(vol: seq<Block>, g: Geometry, owner: Owners, gf: seq<nat>, sf: nat, files: Files, ino: u32,
                 inode: Inode, count: nat, data: seq<byte>, v0: seq<Block>, k: nat, i: nat)
    requires AllocOk(vol, g, gf, sf) && Editing(vol, g, owner, files, ino, inode, count, data, v0)
    requires BlocksOk(vol, g) && Clear(vol, g, k, i)
    ensures BlockAt(g, k, i) < |vol| && BlockAt(g, k, i) !in owner
    ensures Editing(Taken(vol, g, k, i), g, owner, files, ino, inode, count, data, v0)
    ensures BlocksOk(Taken(vol, g, k, i), g) && UsedBlock(Taken(vol, g, k, i), g, BlockAt(g, k, i))
  {
    hide AllocOk, Holds, Rest, GroupBits, BlockAt, UsedBlock;
    RestTake(vol, g, owner, gf, sf, files, ino, v0, k, i);
    var bm, b, bs := g.bitmaps[k], BlockAt(g, k, i), g.blockSize;
    BitmapRole(vol, g, owner, files, ino, v0, k);
    OtherWrite(vol, owner, ino, inode, count, data, bs, bm, BitmapSet(vol[bm], i));
    OtherWrite(vol[bm := BitmapSet(vol[bm], i)], owner, ino, inode, count, data, bs, b, Zeros(bs));
  }

  lemma BitmapRole(vol: seq<Block>, g: Geometry, owner: Owners, files: Files, ino: u32, v0: seq<Block>, k: nat)
    requires Rest(vol, g, owner, files, ino, v0) && k < |g.bitmaps|
    ensures g.bitmaps[k] in owner && owner[g.bitmaps[k]] == Bitmap(k)
  {
  }

  /** Writing data block `idx` of the file being edited. */
  lemma EditData(vol: seq<Block>, g: Geometry, owner: Owners, gf: seq<nat>, sf: nat, files: Files, ino: u32,
                 inode: Inode, count: nat, data: seq<byte>, v0: seq<Block>, idx: nat, block: Block, data': seq<byte>)
    requires AllocOk(vol, g, gf, sf) && Editing(vol, g, owner, files, ino, inode, count, data, v0)
    requires idx < count && |block| == g.blockSize && |data'| <= count * g.blockSize
    requires forall i: nat :: i < |data'| && i / g.blockSize == idx ==> data'[i] == block[i % g.blockSize]
    requires forall i: nat :: i < |data'| && i / g.blockSize != idx ==> i < |data| && data'[i] == data[i]
    ensures var b := BlockOf(vol, inode, idx, Fanout(g.blockSize));
            && b < |vol| && AllocOk(vol[b := block], g, gf, sf)
            && Editing(vol[b := block], g, owner, files, ino, inode, count, data', v0)
  {
    hide AllocOk, Rest, BlockOf, ByteAt;
    var n := Fanout(g.blockSize);
    var b := BlockOf(vol, inode, idx, n);
    assert Mapped(vol, owner, ino, inode, idx, n);
    MappedBlock(vol, owner, ino, inode, idx, n);
    DataWrite(vol, owner, ino, inode, count, data, g.blockSize, idx, block, data');
    RestWrite(vol, g, owner, gf, sf, files, ino, v0, b, block);
  }

  /** The single indirect block of a file being edited can be written. */
  lemma EditSingleOk(vol: seq<Block>, g: Geometry, owner: Owners, files: Files, ino: u32, inode: Inode, count: nat,
                     data: seq<byte>, v0: seq<Block>)
    requires Editing(vol, g, owner, files, ino, inode, count, data, v0)
    ensures SingleOk(vol, g, inode)
  {
    hide Covered, VolumeOk, BlocksOk, FileAt;
    HoldsSingle(vol, owner, ino, inode, count, data, g.blockSize);
    if inode.block[SINGLE] != 0 {
      forall k | 0 <= k < |g.bitmaps| ensures g.bitmaps[k] != inode.block[SINGLE] {
        assert owner[g.bitmaps[k]] == Bitmap(k);
      }
    }
  }

  /** What the driver has before it sets pointer `idx`: a used block without a role. */
  ghost predicate Appending(vol: seq<Block>, vol': seq<Block>, g: Geometry, owner: Owners, gf: seq<nat>, sf: nat,
                            inode: Inode, inode': Inode, idx: nat, b: u32, k: nat, i: nat)
  {
    && AllocOk(vol, g, gf, sf) && BlocksOk(vol, g) && SingleOk(vol, g, inode) && InodeOk(inode')
    && SetDone(vol, vol', g, inode, inode', idx, b, true, k, i)
    && 0 < b < |vol| && b !in owner && UsedBlock(vol, g, b)
    && idx < DIRECT + Fanout(g.blockSize)
  }

  lemma RestAppendOld(vol: seq<Block>, vol': seq<Block>, g: Geometry, owner: Owners, gf: seq<nat>, sf: nat,
                      files: Files, ino: u32, inode: Inode, inode': Inode, v0: seq<Block>, idx: nat, b: u32, k: nat,
                      i: nat)
    requires Appending(vol, vol', g, owner, gf, sf, inode, inode', idx, b, k, i)
    requires Rest(vol, g, owner, files, ino, v0) && SingleOwned(owner, ino, inode)
    requires idx < DIRECT || inode.block[SINGLE] != 0
    ensures Rest(vol', g, AddedOwners(owner, ino, inode, inode', idx, b, Fanout(g.blockSize)), files, ino, v0)
  {
    hide AllocOk, Rest, UsedBlock, BlocksOk, Path, Taken, SetWord;
    if idx >= DIRECT {
      var ind := inode.block[SINGLE];
      BlockLength(vol, g, gf, sf, ind);
      var block := SetWord(vol[ind], idx - DIRECT, b);
      RestWrite(vol, g, owner, gf, sf, files, ino, v0, ind, block);
      UsedKept(vol, g, gf, sf, ind, block, b);
    }
    RestOwn(vol', g, owner, files, ino, v0, b, Path(idx, Fanout(g.blockSize)));
  }

  lemma UsedKept(vol: seq<Block>, g: Geometry, gf: seq<nat>, sf: nat, w: nat, block: Block, b: nat)
    requires AllocOk(vol, g, gf, sf) && IndexBlockOk(vol, g, w) && |block| == g.blockSize
    ensures BlocksOk(vol, g) && BlocksOk(vol[w := block], g)
    ensures UsedBlock(vol[w := block], g, b) <==> UsedBlock(vol, g, b)
  {
    NonBitmapWrite(vol, g, gf, sf, w, block);
  }

  lemma RestAppendNew(vol: seq<Block>, vol': seq<Block>, g: Geometry, owner: Owners, gf: seq<nat>, sf: nat,
                      files: Files, ino: u32, inode: Inode, inode': Inode, v0: seq<Block>, idx: nat, b: u32, k: nat,
                      i: nat)
    requires Appending(vol, vol', g, owner, gf, sf, inode, inode', idx, b, k, i)
    requires Rest(vol, g, owner, files, ino, v0)
    requires idx >= DIRECT && inode.block[SINGLE] == 0
    ensures inode'.block[SINGLE] !in owner && inode'.block[SINGLE] != b
    ensures Rest(vol', g, AddedOwners(owner, ino, inode, inode', idx, b, Fanout(g.blockSize)), files, ino, v0)
  {
    hide AllocOk, Rest, BlocksOk, Path, SetWord, BlockAt, GroupBits, Taken;
    var ind := inode'.block[SINGLE];
    assert ind != b;
    RestTake(vol, g, owner, gf, sf, files, ino, v0, k, i);
    ReadyBlocksOk(vol, g, gf, sf);
    TakeKeeps(vol, g, gf, sf, k, i);
    var v1, gf1, sf1 := Taken(vol, g, k, i), gf[k := gf[k] - 1], sf - 1;
    var block := SetWord(Zeros(g.blockSize), idx - DIRECT, b);
    RestWrite(v1, g, owner, gf1, sf1, files, ino, v0, ind, block);
    UsedKept(v1, g, gf1, sf1, ind, block, b);
    UsedKept(v1, g, gf1, sf1, ind, block, ind);
    var path := Path(idx, Fanout(g.blockSize));
    RestOwn(vol', g, owner, files, ino, v0, b, path);
    RestOwn(vol', g, owner[b := FileBlock(ino, path)], files, ino, v0, ind, [SINGLE]);
  }

  /** Setting the pointer of the next block: the file covers one block more and nothing else changes. */
  lemma EditAppend(vol: seq<Block>, vol': seq<Block>, g: Geometry, owner: Owners, gf: seq<nat>, sf: nat, files: Files,
                   ino: u32, inode: Inode, inode': Inode, v0: seq<Block>, idx: nat, b: u32, k: nat, i: nat,
                   data: seq<byte>)
    requires Appending(vol, vol', g, owner, gf, sf, inode, inode', idx, b, k, i)
    requires Editing(vol, g, owner, files, ino, inode, idx, data, v0)
    ensures Editing(vol', g, AddedOwners(owner, ino, inode, inode', idx, b, Fanout(g.blockSize)), files, ino, inode',
                    idx + 1, data, v0)
  {
    hide AllocOk, Rest, BlocksOk, Holds, Path, SetWord, BlockAt, GroupBits, Taken, UsedBlock;
    HoldsSingle(vol, owner, ino, inode, idx, data, g.blockSize);
    if idx < DIRECT || inode.block[SINGLE] != 0 {
      RestAppendOld(vol, vol', g, owner, gf, sf, files, ino, inode, inode', v0, idx, b, k, i);
    } else {
      RestAppendNew(vol, vol', g, owner, gf, sf, files, ino, inode, inode', v0, idx, b, k, i);
      BitmapRole(vol, g, owner, files, ino, v0, k);
    }
    Append(vol, vol', g, owner, ino, inode, inode', idx, b, k, i, data);
  }
}
