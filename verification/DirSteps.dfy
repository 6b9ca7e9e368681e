/**
 What the writes of a directory operation do to the volume: a block of the
 directory replaced, a block appended to it, an inode rewritten in place.
 */
module DirSteps {
  import opened Bytes
  import opened BlockCache
  import opened Volume
  import opened InodeTable
  import opened BlockAllocator
  import opened Ext2State
  import opened BlockMap
  import opened FileImage
  import opened FileWorld
  import opened FileSteps
  import opened OpenFiles

  /** No handle is open on `ino`. */
  ghost predicate Unopened(handles: seq<OpenFile>, ino: u32) {
    forall i :: 0 <= i < |handles| && handles[i].isOpen ==> handles[i].inodeNum != ino
  }

  /** Handles survive a change of inodes and files that no handle is open on. */
  lemma HandlesElsewhere(v0: seq<Block>, vol: seq<Block>, g: Geometry, handles: seq<OpenFile>, files: Files,
                         files': Files, ino: u32)
    requires HandlesOk(v0, g, handles, files) && Unopened(handles, ino) && VolumeOk(vol, g)
    requires forall m: u32 :: InodeExists(g, m) && m != ino ==> InodeAt(vol, g, m) == InodeAt(v0, g, m)
    requires forall m :: m in files && m != ino ==> m in files' && files'[m] == files[m]
    ensures HandlesOk(vol, g, handles, files')
  {
    hide InodeAt, InodeExists, VolumeOk;
    forall i | 0 <= i < |handles| && handles[i].isOpen ensures HandleOk(vol, g, handles[i], files') {
      assert HandleOk(v0, g, handles[i], files);
    }
  }

  ghost predicate SameInodes(vol: seq<Block>, v0: seq<Block>, g: Geometry) {
    && VolumeOk(vol, g) && VolumeOk(v0, g)
    && forall m: u32 :: InodeExists(g, m) ==> InodeAt(vol, g, m) == InodeAt(v0, g, m)
  }

  lemma SameHeads(vol: seq<Block>, v0: seq<Block>, g: Geometry)
    requires SameInodes(vol, v0, g)
    ensures HeadsKept(v0, vol, g)
  {
    hide VolumeOk, InodeAt, InodeExists;
  }

  /** An edit that left the inode and the length of the file as they are. */
  lemma EditDone(vol: seq<Block>, g: Geometry, owner: Owners, files: Files, ino: u32, data: seq<byte>, v0: seq<Block>,
                 handles: seq<OpenFile>)
    requires VolumeOk(v0, g) && ino in files && InodeExists(g, ino)
             && |data| == |files[ino]| == InodeAt(v0, g, ino).size
    requires |data| + g.blockSize <= 0x1_0000_0000
    requires Editing(vol, g, owner, files, ino, InodeAt(v0, g, ino), MaxBlocks(|data|, g.blockSize), data, v0)
    requires HandlesOk(v0, g, handles, files)
    ensures Stored(vol, g, owner, files[ino := data]) && HandlesOk(vol, g, handles, files[ino := data])
    ensures SameInodes(vol, v0, g)
  {
    hide InodeAt, InodeExists, Holds, UsedBlock, BlocksOk, VolumeOk;
    var files' := files[ino := data];
    forall i | 0 <= i < |handles| && handles[i].isOpen ensures HandleOk(vol, g, handles[i], files') {
      assert HandleOk(v0, g, handles[i], files);
    }
    VolumeGeometry(vol, g);
    assert InodeAt(vol, g, ino) == InodeAt(v0, g, ino);
    assert FileAt(vol, g, owner, ino, data);
  }

  /** Replacing a whole block of the file. */
  lemma EditPage(vol: seq<Block>, g: Geometry, owner: Owners, gf: seq<nat>, sf: nat, files: Files, ino: u32,
                 inode: Inode, count: nat, data: seq<byte>, v0: seq<Block>, idx: nat, page: Block)
    requires AllocOk(vol, g, gf, sf) && Editing(vol, g, owner, files, ino, inode, count, data, v0)
    requires idx < count && |page| == g.blockSize && idx * g.blockSize <= |data|
    ensures var b := BlockOf(vol, inode, idx, Fanout(g.blockSize));
            && b < |vol| && AllocOk(vol[b := page], g, gf, sf)
            && Editing(vol[b := page], g, owner, files, ino, inode, count, Overlay(data, idx * g.blockSize, page), v0)
  {
    hide AllocOk, Editing, BlockOf, Overlay;
    EditBlockSize(vol, g, owner, files, ino, inode, count, data, v0);
    EditChunk(vol, g, owner, gf, sf, files, ino, inode, count, data, v0, idx, 0, page);
    var b := BlockOf(vol, inode, idx, Fanout(g.blockSize));
    assert Splice(vol[b], 0, page) == page;
  }

  lemma EditBlockSize(vol: seq<Block>, g: Geometry, owner: Owners, files: Files, ino: u32, inode: Inode, count: nat,
                      data: seq<byte>, v0: seq<Block>)
    requires Editing(vol, g, owner, files, ino, inode, count, data, v0)
    ensures BlockSizeOk(g.blockSize) && InodeOk(inode)
  {
  }

  /** Writing a used block that has no role yet. */
  lemma EditStray(vol: seq<Block>, g: Geometry, owner: Owners, gf: seq<nat>, sf: nat, files: Files, ino: u32,
                  inode: Inode, count: nat, data: seq<byte>, v0: seq<Block>, b: nat, block: Block)
    requires AllocOk(vol, g, gf, sf) && Editing(vol, g, owner, files, ino, inode, count, data, v0)
    requires BlocksOk(vol, g) && b < |vol| && b !in owner && UsedBlock(vol, g, b) && |block| == g.blockSize
    ensures AllocOk(vol[b := block], g, gf, sf) && BlocksOk(vol[b := block], g) && UsedBlock(vol[b := block], g, b)
    ensures Editing(vol[b := block], g, owner, files, ino, inode, count, data, v0)
  {
    hide AllocOk, Rest, Holds, UsedBlock;
    forall k | 0 <= k < |g.bitmaps| ensures g.bitmaps[k] != b { BitmapRole(vol, g, owner, files, ino, v0, k); }
    RestWrite(vol, g, owner, gf, sf, files, ino, v0, b, block);
    OtherWrite(vol, owner, ino, inode, count, data, g.blockSize, b, block);
    UsedKept(vol, g, gf, sf, b, block, b);
  }

  /** Setting a pointer to a block leaves that block as it is. */
  lemma StrayKept(vol: seq<Block>, vol': seq<Block>, g: Geometry, owner: Owners, gf: seq<nat>, sf: nat, files: Files,
                  ino: u32, inode: Inode, inode': Inode, v0: seq<Block>, idx: nat, b: u32, k: nat, i: nat,
                  data: seq<byte>)
    requires Appending(vol, vol', g, owner, gf, sf, inode, inode', idx, b, k, i)
    requires Editing(vol, g, owner, files, ino, inode, idx, data, v0)
    ensures |vol'| == |vol| && vol'[b] == vol[b]
  {
    hide AllocOk, Rest, Holds, BlocksOk, SetWord, BlockAt, GroupBits, UsedBlock;
    HoldsSingle(vol, owner, ino, inode, idx, data, g.blockSize);
    if idx >= DIRECT && inode.block[SINGLE] == 0 {
      RestAppendNew(vol, vol', g, owner, gf, sf, files, ino, inode, inode', v0, idx, b, k, i);
      BitmapRole(vol, g, owner, files, ino, v0, k);
      var ind := inode'.block[SINGLE];
      TakenElsewhere(vol, g, k, i, b);
    }
  }

  lemma TakenElsewhere(vol: seq<Block>, g: Geometry, k: nat, i: nat, b: nat)
    requires BlocksOk(vol, g) && Clear(vol, g, k, i) && BlockAt(g, k, i) < |vol|
    requires b < |vol| && b != g.bitmaps[k] && b != BlockAt(g, k, i)
    ensures Taken(vol, g, k, i)[b] == vol[b]
  {
    hide BlockAt, GroupBits;
  }

  /** A block written first and then appended to the file. */
  lemma EditGrow(vol: seq<Block>, vol': seq<Block>, g: Geometry, owner: Owners, gf: seq<nat>, sf: nat, gf': seq<nat>,
                 sf': nat, files: Files, ino: u32, inode: Inode, inode': Inode, v0: seq<Block>, idx: nat, b: u32,
                 k: nat, i: nat,
                 data: seq<byte>)
    requires Appending(vol, vol', g, owner, gf, sf, inode, inode', idx, b, k, i) && AllocOk(vol', g, gf', sf')
    requires Editing(vol, g, owner, files, ino, inode, idx, data, v0) && |data| == idx * g.blockSize
    ensures |vol[b]| == g.blockSize
    ensures Editing(vol', g, AddedOwners(owner, ino, inode, inode', idx, b, Fanout(g.blockSize)), files, ino, inode',
                    idx + 1, data + vol[b], v0)
  {
    hide AllocOk, Editing, BlockOf, SetDone, UsedBlock, AddedOwners, Overlay;
    EditAppend(vol, vol', g, owner, gf, sf, files, ino, inode, inode', v0, idx, b, k, i, data);
    StrayKept(vol, vol', g, owner, gf, sf, files, ino, inode, inode', v0, idx, b, k, i, data);
    BlockLength(vol, g, gf, sf, b);
    SetThenLookupLow(vol, vol', g, inode, inode', idx, b, k, i, idx);
    var owner' := AddedOwners(owner, ino, inode, inode', idx, b, Fanout(g.blockSize));
    EditPage(vol', g, owner', gf', sf', files, ino, inode', idx + 1, data, v0, idx, vol[b]);
    assert vol'[b := vol[b]] == vol';
    OverlayEnd(data, vol[b]);
  }

  lemma OverlayEnd(data: seq<byte>, t: seq<byte>)
    ensures Overlay(data, |data|, t) == data + t
  {
  }

  /** Rewriting an inode with the same pointers and size changes no file. */
  lemma InodeTouched(vol: seq<Block>, g: Geometry, owner: Owners, gf: seq<nat>, sf: nat, files: Files, ino: u32,
                     inode: Inode)
    requires AllocOk(vol, g, gf, sf) && Stored(vol, g, owner, files) && VolumeOk(vol, g) && InodeExists(g, ino)
             && InodeOk(inode)
    requires inode.block == InodeAt(vol, g, ino).block && inode.size == InodeAt(vol, g, ino).size
    ensures AllocOk(WithInode(vol, g, ino, inode), g, gf, sf) && Stored(WithInode(vol, g, ino, inode), g, owner, files)
    ensures VolumeOk(WithInode(vol, g, ino, inode), g)
    ensures forall m: u32 :: InodeExists(g, m) ==>
              InodeAt(WithInode(vol, g, ino, inode), g, m) == if m == ino then inode else InodeAt(vol, g, m)
  {
    hide AllocOk, World, FileAt, InodeAt, InodeExists, VolumeOk, WithInode, Editing;
    VolumeGeometry(vol, g);
    var vol' := WithInode(vol, g, ino, inode);
    forall m: u32 | InodeExists(g, m)
      ensures VolumeOk(vol', g) && InodeAt(vol', g, m) == if m == ino then inode else InodeAt(vol, g, m)
    {
      InodeWritten(vol, g, ino, inode, m);
    }
    TableWrite(vol, g, owner, gf, sf, ino, inode);
    if ino in files {
      EditOpen(vol, g, owner, files, ino);
      EditClose(vol, g, owner, gf, sf, files, ino, InodeAt(vol, g, ino), inode, MaxBlocks(|files[ino]|, g.blockSize),
                files[ino], vol);
      assert files[ino := files[ino]] == files;
    } else {
      forall m: u32 | m in files ensures FileAt(vol', g, owner, m, files[m]) {
        CloseOther(vol, g, owner, ino, inode, m, files[m]);
      }
    }
  }
}
