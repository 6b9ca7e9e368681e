/**
 Directories of a mounted volume: find_file_in_dir, add_dir_entry and the
 directory part of ext2_unlink (kernel/src/fs/ext2.c:562-768, 1390-1484).
 */
module Directory {
  import opened Bytes
  import opened BlockCache
  import opened Volume
  import opened InodeTable
  import opened BlockAllocator
  import opened Ext2State
  import opened BlockMap
  import opened FileImage
  import opened FileWorld
  import opened FileSteps
  import opened FileIO
  import opened OpenFiles
  import opened DirBlock
  import opened DirScan
  import opened DirList
  import opened DirSteps

  /** `(mode & 0xF000) == EXT2_S_IFDIR` */
  predicate IsDir(mode: u16) {
    mode / 0x1000 == 4
  }

  /** Of the four bits that tell the kind of a file, a directory has bit 14 alone. */
  lemma DirBits(mode: u16)
    ensures IsDir(mode) <==> !Bit(mode, 15) && Bit(mode, 14) && !Bit(mode, 13) && !Bit(mode, 12)
  {
    hide Bit, Pow2;
    BitIs(mode, 12);
    BitIs(mode, 13);
    BitIs(mode, 14);
    BitIs(mode, 15);
    SmallPowers();
  }

  /** The volume holds `data` as the contents of file `ino`, and `data` is a directory. */
  ghost predicate DirAt(fs: Fs, ino: u32, inode: Inode, data: seq<byte>, v0: seq<Block>)
    reads fs, fs.dev
  {
    && BlockSizeOk(fs.geo.blockSize) && DirOk(data, fs.geo.blockSize) && InodeOk(inode)
    && inode.size == |data| && |data| + fs.geo.blockSize <= 0x1_0000_0000
    && Busy(fs, ino, inode, MaxBlocks(|data|, fs.geo.blockSize), data, v0)
  }

  lemma WholeBlocks(size: u32, bs: nat)
    requires BlockSizeOk(bs) && size % bs == 0 && size + bs <= 0x1_0000_0000
    ensures MaxBlocks(size, bs) == size / bs && size / bs * bs == size
  {
    CeilBlocks(size, bs);
    var q := size / bs;
    ModOfSum(q, bs, bs - 1);
  }

  lemma PageAt(fs: Fs, ino: u32, inode: Inode, data: seq<byte>, v0: seq<Block>, idx: u32)
    requires DirAt(fs, ino, inode, data, v0) && idx < |data| / fs.geo.blockSize
    ensures idx < MaxBlocks(inode.size, fs.geo.blockSize) && MapOk(Vol(fs.dev), inode, idx, Fanout(fs.geo.blockSize))
    ensures var b := BlockOf(Vol(fs.dev), inode, idx, Fanout(fs.geo.blockSize));
            0 < b < |Vol(fs.dev)| && Vol(fs.dev)[b] == Pages(data, fs.geo.blockSize)[idx]
            && |Vol(fs.dev)[b]| == fs.geo.blockSize
  {
    hide Vol, Reliable, AllocOk, Editing, AllTiled, Pages, BlockOf, MapOk, MaxBlocks;
    var bs := fs.geo.blockSize;
    WholeBlocks(|data|, bs);
    PageIs(data, bs, idx);
    ReadChunk(Vol(fs.dev), fs.geo, fs.owner, fs.groupFree, fs.superFree, fs.files, ino, inode, MaxBlocks(|data|, bs),
              data, v0, idx, 0, bs);
    var b := BlockOf(Vol(fs.dev), inode, idx, Fanout(bs));
    assert Vol(fs.dev)[b][0..bs] == Vol(fs.dev)[b];
    assert idx * bs + 0 == idx * bs;
  }

  /** Block `idx` of a directory in the I/O buffer. */
  method LoadPage(fs: Fs, inode: Inode, idx: u32, ghost ino: u32, ghost data: seq<byte>, ghost v0: seq<Block>)
    returns (ok: bool, b: u32)
    requires fs.Valid() && InodeOk(inode)
    modifies fs.dev`transfers, fs.dev`cache, fs.dev`pageRequests, fs.dev.ioBuffer
    ensures fs.Valid()
    ensures old(DirAt(fs, ino, inode, data, v0)) && idx < |data| / fs.geo.blockSize ==>
              && ok && DirAt(fs, ino, inode, data, v0)
              && b == BlockOf(Vol(fs.dev), inode, idx, Fanout(fs.geo.blockSize)) && 0 < b < |Vol(fs.dev)|
              && fs.dev.ioBuffer[..fs.geo.blockSize] == Pages(data, fs.geo.blockSize)[idx]
  {
    hide Vol, Reliable, AllocOk, Editing, DirOk, Pages, BlockOf, MapOk, MaxBlocks;
    if DirAt(fs, ino, inode, data, v0) && idx < |data| / fs.geo.blockSize {
      PageAt(fs, ino, inode, data, v0, idx);
    }
    ok, b := GetBlock(fs.dev, inode, idx);
    if ok {
      ok := LoadBlock(fs.dev, b);
    }
  }

  // ---------- looking a name up ----------

  /** The entries from block `k` on decide the lookup. */
  ghost predicate Searching(data: seq<byte>, bs: nat, k: nat, name: Name) {
    && bs > 0 && DirOk(data, bs) && k <= |data| / bs
    && First(Names(Pages(data, bs)[..k]), name) == 0
  }

  lemma SearchStarts(data: seq<byte>, bs: nat, name: Name)
    requires bs > 0 && DirOk(data, bs)
    ensures Searching(data, bs, 0, name)
  {
    assert Pages(data, bs)[..0] == [];
  }

  lemma SearchBlock(data: seq<byte>, bs: nat, k: nat, name: Name)
    requires Searching(data, bs, k, name) && k < |data| / bs
    ensures Tiled(Pages(data, bs)[k], 0)
    ensures First(Live(Pages(data, bs)[k], 0), name) != 0 ==>
              First(Listing(data, bs), name) == First(Live(Pages(data, bs)[k], 0), name)
    ensures First(Live(Pages(data, bs)[k], 0), name) == 0 ==> Searching(data, bs, k + 1, name)
  {
    hide Tiled, Live, Names, First, Pages;
    var p := Pages(data, bs);
    NamesAround(p, k);
    var a, l, r := Names(p[..k]), Live(p[k], 0), Names(p[k + 1..]);
    NamesNoZero(p[..k]);
    LiveNoZero(p[k], 0);
    FirstOfSum(a, l, name);
    FirstOfSum(a + l, r, name);
    NamesOne(p[k]);
    NamesSum(p[..k], [p[k]]);
    assert p[..k + 1] == p[..k] + [p[k]];
  }

  lemma SearchEnds(data: seq<byte>, bs: nat, name: Name)
    requires bs > 0 && Searching(data, bs, |data| / bs, name)
    ensures First(Listing(data, bs), name) == 0
  {
    assert Pages(data, bs)[..|data| / bs] == Pages(data, bs);
  }

  /** The directory `ino` as a call finds it. */
  lemma DirStarts(fs: Fs, ino: u32)
    requires FsOk(fs) && ino in fs.files && fs.geo.blockSize > 0 && DirOk(fs.files[ino], fs.geo.blockSize)
    ensures VolumeOk(Vol(fs.dev), fs.geo) && InodeExists(fs.geo, ino)
    ensures DirAt(fs, ino, InodeAt(Vol(fs.dev), fs.geo, ino), fs.files[ino], Vol(fs.dev))
  {
    hide Vol, Reliable, AllocOk, Editing, DirOk, Stored, HandlesOk;
    EditOpen(Vol(fs.dev), fs.geo, fs.owner, fs.files, ino);
  }

  /** A directory that callers know by its inode number. */
  ghost predicate KnownDir(fs: Fs, ino: u32)
    reads fs, fs.dev
  {
    && FsOk(fs) && ino in fs.files && fs.geo.blockSize > 0 && DirOk(fs.files[ino], fs.geo.blockSize)
    && VolumeOk(Vol(fs.dev), fs.geo) && InodeExists(fs.geo, ino) && IsDir(InodeAt(Vol(fs.dev), fs.geo, ino).mode)
  }

  lemma KnownVolume(fs: Fs, ino: u32)
    requires KnownDir(fs, ino)
    ensures Reliable(fs.dev) && VolumeOk(Vol(fs.dev), fs.geo) && ino > 0 && InodeExists(fs.geo, ino)
  {
  }

  /**
   find_file_in_dir: the first live entry with the name over all blocks of the
   directory, although every block passes through the one I/O buffer.
   */
  method FindInDir(fs: Fs, ino: u32, name: Name) returns (r: u32)
    requires fs.Valid()
    modifies fs.dev`transfers, fs.dev`cache, fs.dev`pageRequests, fs.dev.ioBuffer
    ensures fs.Valid()
    ensures old(KnownDir(fs, ino)) ==> KnownDir(fs, ino) && r == First(Listing(fs.files[ino], fs.geo.blockSize), name)
  {
    hide Vol, Reliable, AllocOk, Editing, DirOk, Stored, HandlesOk, VolumeOk, InodeAt, Searching, Listing, First, Tiled,
         Live;
    if ino == 0 {
      return 0;
    }
    ghost var good := KnownDir(fs, ino);
    if good {
      KnownVolume(fs, ino);
      DirStarts(fs, ino);
    }
    ghost var data := if good then fs.files[ino] else [];
    var ok, inode := ReadInode(fs.dev, fs.geo, ino);
    if !ok {
      return 0;
    }
    if !IsDir(inode.mode) {
      return 0;
    }
    r := SearchPages(fs, ino, inode, name, data, Vol(fs.dev), good);
  }

  /** The outer loop of find_file_in_dir. */
  method SearchPages(fs: Fs, ghost ino: u32, inode: Inode, name: Name, ghost data: seq<byte>, ghost v0: seq<Block>,
                     ghost good: bool)
    returns (r: u32)
    requires fs.Valid() && InodeOk(inode) && (good ==> DirAt(fs, ino, inode, data, v0))
    modifies fs.dev`transfers, fs.dev`cache, fs.dev`pageRequests, fs.dev.ioBuffer
    ensures fs.Valid()
    ensures good ==> DirAt(fs, ino, inode, data, v0) && r == First(Listing(data, fs.geo.blockSize), name)
  {
    hide Vol, Reliable, AllocOk, Editing, DirOk, Searching, Listing, First, Tiled, Live, DirAt, Pages, BlockOf;
    var offset: nat, idx: u32 := 0, 0;
    if good {
      DirFacts(fs, ino, inode, data, v0);
      SearchStarts(data, fs.geo.blockSize, name);
    }
    while offset < inode.size
      invariant fs.Valid() && offset == idx * fs.geo.blockSize
      invariant good ==>
                  DirAt(fs, ino, inode, data, v0) && Searching(data, fs.geo.blockSize, idx, name)
                  && idx <= |data| / fs.geo.blockSize
      decreases 0x1_0000_0000 - offset
    {
      if good {
        PageBelow(|data|, fs.geo.blockSize, idx);
        SearchBlock(data, fs.geo.blockSize, idx, name);
      }
      var ok, b := LoadPage(fs, inode, idx, ino, data, v0);
      if !ok {
        return 0;
      }
      r := FindInBlock(fs.dev.ioBuffer, fs.dev.blockSize, name);
      if r != 0 {
        return;
      }
      offset, idx := offset + fs.dev.blockSize, idx + 1;
    }
    if good {
      PageLast(|data|, fs.geo.blockSize, idx);
      SearchEnds(data, fs.geo.blockSize, name);
    }
    r := 0;
  }

  lemma DirFacts(fs: Fs, ino: u32, inode: Inode, data: seq<byte>, v0: seq<Block>)
    requires DirAt(fs, ino, inode, data, v0)
    ensures BlockSizeOk(fs.geo.blockSize) && DirOk(data, fs.geo.blockSize) && inode.size == |data|
            && |data| % fs.geo.blockSize == 0
    ensures |data| + fs.geo.blockSize <= 0x1_0000_0000
  {
  }

  lemma PageBelow(size: nat, bs: nat, idx: nat)
    requires bs > 0 && size % bs == 0 && idx * bs < size
    ensures idx < size / bs
  {
    if idx >= size / bs {
      assert false;
    }
  }

  lemma PageLast(size: nat, bs: nat, idx: nat)
    requires bs > 0 && size % bs == 0 && idx * bs >= size && idx <= size / bs
    ensures idx == size / bs
  {
    if idx < size / bs {
      PageFits(size, bs, idx);
      assert false;
    }
  }

  // ---------- replacing a block ----------

  /** The parts of a session that concern no block of the volume as it is now. */
  ghost predicate Setting(g: Geometry, handles: seq<OpenFile>, files: Files, ino: u32, inode: Inode, data: seq<byte>,
                          v0: seq<Block>) {
    && BlockSizeOk(g.blockSize) && DirOk(data, g.blockSize) && InodeOk(inode) && inode.size == |data|
    && |data| + g.blockSize <= 0x1_0000_0000 && VolumeOk(v0, g) && InodeExists(g, ino) && inode == InodeAt(v0, g, ino)
    && IsDir(inode.mode) && HandlesOk(v0, g, handles, files) && ino in files && data == files[ino]
  }

  /** The volume as a directory operation found it. */
  ghost predicate Session(fs: Fs, ino: u32, inode: Inode, data: seq<byte>, v0: seq<Block>)
    reads fs, fs.dev
  {
    DirAt(fs, ino, inode, data, v0) && Setting(fs.geo, fs.openFiles, fs.files, ino, inode, data, v0)
  }

  lemma SessionStarts(fs: Fs, ino: u32)
    requires KnownDir(fs, ino)
    ensures VolumeOk(Vol(fs.dev), fs.geo)
    ensures Session(fs, ino, InodeAt(Vol(fs.dev), fs.geo, ino), fs.files[ino], Vol(fs.dev))
  {
    hide Vol, Reliable, AllocOk, Editing, DirOk, Stored, HandlesOk, VolumeOk, InodeAt;
    DirStarts(fs, ino);
  }

  lemma SessionEnds(fs: Fs, ino: u32, inode: Inode, data: seq<byte>, v0: seq<Block>)
    requires Session(fs, ino, inode, data, v0)
    ensures KnownDir(fs, ino) && HeadsKept(v0, Vol(fs.dev), fs.geo)
  {
    hide Vol, Reliable, AllocOk, Editing, DirOk, Stored, HandlesOk, VolumeOk, InodeAt, HeadsKept;
    EditDone(Vol(fs.dev), fs.geo, fs.owner, fs.files, ino, data, v0, fs.openFiles);
    assert fs.files[ino := data] == fs.files;
    SameHeads(Vol(fs.dev), v0, fs.geo);
  }

  /** Block `b` is block `idx` of the directory, to be replaced by `page`. */
  ghost predicate Staged(fs: Fs, b: u32, ino: u32, inode: Inode, idx: nat, data: seq<byte>, page: Block)
    reads fs, fs.dev
  {
    && BlockSizeOk(fs.dev.blockSize) && BlockSizeOk(fs.geo.blockSize) && InodeOk(inode)
    && idx < |data| / fs.geo.blockSize && |page| == fs.geo.blockSize
    && b < |Vol(fs.dev)| && b == BlockOf(Vol(fs.dev), inode, idx, Fanout(fs.geo.blockSize))
  }

  /** All is in order, only the contents of `ino` may differ from `files`, and its inode is still a directory's. */
  ghost predicate FilesKept(fs: Fs, files: Files, ino: u32)
    reads fs, fs.dev
  {
    && FsOk(fs) && ino in fs.files && fs.files == files[ino := fs.files[ino]] && fs.geo.blockSize > 0
    && VolumeOk(Vol(fs.dev), fs.geo) && InodeExists(fs.geo, ino) && IsDir(InodeAt(Vol(fs.dev), fs.geo, ino).mode)
  }

  /** The directory's contents were `data` and now have `page` as block `idx`. */
  ghost predicate PageReplaced(fs: Fs, files: Files, ino: u32, data: seq<byte>, idx: nat, page: Block)
    reads fs, fs.dev
  {
    && FilesKept(fs, files, ino) && |fs.files[ino]| == |data|
    && idx < |data| / fs.geo.blockSize && DirOk(data, fs.geo.blockSize)
    && Pages(fs.files[ino], fs.geo.blockSize) == Pages(data, fs.geo.blockSize)[idx := page]
  }

  /** Writes the I/O buffer, block `idx` of the directory with a change, back to block `b`. */
  method StorePage(fs: Fs, b: u32, ghost ino: u32, ghost inode: Inode, ghost idx: nat, ghost v0: seq<Block>,
                   ghost data: seq<byte>, ghost page: Block, ghost good: bool)
    returns (ok: bool)
    requires fs.Valid()
    requires good ==> Session(fs, ino, inode, data, v0) && Staged(fs, b, ino, inode, idx, data, page)
    requires good ==> fs.dev.ioBuffer[..fs.dev.blockSize] == page
    modifies fs`files, fs.dev`transfers, fs.dev`cache, fs.dev`sectors
    ensures fs.Valid()
    ensures good ==> ok && PageReplaced(fs, old(fs.files), ino, data, idx, page) && SameInodes(Vol(fs.dev), v0, fs.geo)
  {
    hide Vol, Reliable, AllocOk, Editing, Stored, HandlesOk, VolumeOk, InodeAt, BlockOf, Tiled, Pages, Overlay,
         MaxBlocks;
    ghost var vol, bs := Vol(fs.dev), fs.geo.blockSize;
    ok := StoreBlock(fs.dev, b);
    if good {
      PagesUpdate(data, bs, idx, page);
      WholeBlocks(|data|, bs);
      EditPage(vol, fs.geo, fs.owner, fs.groupFree, fs.superFree, fs.files, ino, inode, MaxBlocks(|data|, bs), data, v0,
               idx, page);
      EditDone(Vol(fs.dev), fs.geo, fs.owner, fs.files, ino, Overlay(data, idx * bs, page), v0, fs.openFiles);
      fs.files := fs.files[ino := Overlay(data, idx * bs, page)];
    }
  }

  /** With a tiled block in its place the directory is one again. */
  lemma ReplacedTiles(fs: Fs, files: Files, ino: u32, data: seq<byte>, idx: nat, page: Block)
    requires PageReplaced(fs, files, ino, data, idx, page)
    ensures AllTiled(Pages(data, fs.geo.blockSize)[idx := page]) <==> KnownDir(fs, ino)
    ensures Tiled(page, 0) ==> KnownDir(fs, ino)
  {
    hide FsOk, VolumeOk, InodeAt, InodeExists, Tiled, Pages;
  }

  // ---------- adding an entry ----------

  /** The directory `ino` gained exactly the entry `x`; other files are as before. */
  ghost predicate Gained(fs: Fs, files: Files, ino: u32, x: Item)
    reads fs, fs.dev
  {
    && KnownDir(fs, ino) && ino in files && fs.files == files[ino := fs.files[ino]]
    && DirOk(files[ino], fs.geo.blockSize)
    && Inserted(Listing(files[ino], fs.geo.blockSize), Listing(fs.files[ino], fs.geo.blockSize), x)
  }

  /**
   An entry was added to the directory: it gained exactly that entry if the place
   was safe and, for a name that was absent, only then.
   */
  ghost predicate Added(fs: Fs, files: Files, ino: u32, x: Item)
    reads fs, fs.dev
  {
    && FilesKept(fs, files, ino) && ino in files && DirOk(files[ino], fs.geo.blockSize)
    && (SafeDir(files[ino], fs.geo.blockSize, Room(|x.name|)) ==> Gained(fs, files, ino, x))
    && (First(Listing(files[ino], fs.geo.blockSize), x.name) == 0 && Gained(fs, files, ino, x) ==>
          SafeDir(files[ino], fs.geo.blockSize, Room(|x.name|)))
  }

  /** The loop of add_dir_entry over the existing blocks; `done` unless it ends without a place. */
  method AddToPages(fs: Fs, ghost ino: u32, inode: Inode, x: Item, ghost data: seq<byte>, ghost v0: seq<Block>,
                    ghost good: bool)
    returns (done: bool, ok: bool, idx: u32)
    requires fs.Valid() && InodeOk(inode) && |x.name| <= NAME_LEN && x.ino != 0
    requires good ==> Session(fs, ino, inode, data, v0)
    modifies fs`files, fs.dev`transfers, fs.dev`cache, fs.dev`pageRequests, fs.dev`sectors, fs.dev.ioBuffer
    ensures fs.Valid()
    ensures good && done ==> ok && Added(fs, old(fs.files), ino, x) && HeadsKept(v0, Vol(fs.dev), fs.geo)
    ensures good && done ==> ino in fs.files && |fs.files[ino]| == |data|
    ensures good && done ==> DirInode(v0, Vol(fs.dev), fs.geo, ino, |data|, |data|)
    ensures good && !done ==> Session(fs, ino, inode, data, v0) && fs.files == old(fs.files)
    ensures good && !done ==> fs.geo.blockSize > 0 && idx == |data| / fs.geo.blockSize
    ensures good && !done ==> DirOk(data, fs.geo.blockSize) && NoRoom(data, fs.geo.blockSize, Room(|x.name|), idx)
  {
    hide Vol, Reliable, AllocOk, Editing, DirAt, BlockOf, Tiled, Pages, Session, NoRoom, Added, DirOk, HeadsKept,
         DirInode;
    var offset: nat;
    done, ok, offset, idx := false, false, 0, 0;
    if good {
      SessionFacts(fs, ino, inode, data, v0);
      RoomStarts(data, fs.geo.blockSize, Room(|x.name|));
    }
    while offset < inode.size
      invariant fs.Valid() && offset == idx * fs.geo.blockSize && fs.files == old(fs.files)
      invariant good ==> Session(fs, ino, inode, data, v0) && idx <= |data| / fs.geo.blockSize
      invariant good ==> NoRoom(data, fs.geo.blockSize, Room(|x.name|), idx)
      decreases 0x1_0000_0000 - offset
    {
      if good {
        PageBelow(|data|, fs.geo.blockSize, idx);
      }
      var stop, added;
      stop, added := AddToPage(fs, ino, inode, idx, x, data, v0, good);
      if stop {
        return false, false, idx;
      }
      if added.Some? {
        return true, added.value, idx;
      }
      offset, idx := offset + fs.dev.blockSize, idx + 1;
    }
    if good {
      PageLast(|data|, fs.geo.blockSize, idx);
    }
  }

  datatype Outcome = None | Some(value: bool)

  lemma SessionFacts(fs: Fs, ino: u32, inode: Inode, data: seq<byte>, v0: seq<Block>)
    requires Session(fs, ino, inode, data, v0)
    ensures BlockSizeOk(fs.geo.blockSize) && DirOk(data, fs.geo.blockSize) && inode.size == |data|
            && |data| % fs.geo.blockSize == 0
    ensures |data| + fs.geo.blockSize <= 0x1_0000_0000
  {
  }

  /** One block's turn: `stop` when it cannot be read, otherwise the outcome if the entry fitted. */
  method AddToPage(fs: Fs, ghost ino: u32, inode: Inode, idx: u32, x: Item, ghost data: seq<byte>, ghost v0: seq<Block>,
                   ghost good: bool)
    returns (stop: bool, added: Outcome)
    requires fs.Valid() && InodeOk(inode) && |x.name| <= NAME_LEN && x.ino != 0
    requires good ==> Session(fs, ino, inode, data, v0) && DirOk(data, fs.geo.blockSize)
    requires good ==> idx < |data| / fs.geo.blockSize && NoRoom(data, fs.geo.blockSize, Room(|x.name|), idx)
    modifies fs`files, fs.dev`transfers, fs.dev`cache, fs.dev`pageRequests, fs.dev`sectors, fs.dev.ioBuffer
    ensures fs.Valid()
    ensures stop || added == None ==> fs.files == old(fs.files)
    ensures good ==> !stop
    ensures good && added == None ==>
              Session(fs, ino, inode, data, v0) && NoRoom(data, fs.geo.blockSize, Room(|x.name|), idx + 1)
    ensures good && added.Some? ==>
              && added.value && Added(fs, old(fs.files), ino, x) && HeadsKept(v0, Vol(fs.dev), fs.geo)
              && ino in fs.files && |fs.files[ino]| == |data|
              && DirInode(v0, Vol(fs.dev), fs.geo, ino, |data|, |data|)
  {
    hide Vol, Reliable, AllocOk, Editing, DirAt, BlockOf, Tiled, Pages, NoRoom, Added, DirOk, HandlesOk, VolumeOk,
         FirstFit, Placed, PageReplaced, HeadsKept, SameInodes, DirInode;
    ghost var bs, page := fs.geo.blockSize, if good then Pages(data, fs.geo.blockSize)[idx] else [];
    added := None;
    if good {
      RoomNext(data, bs, Room(|x.name|), idx);
    }
    var ok, b := LoadPage(fs, inode, idx, ino, data, v0);
    if !ok {
      return true, None;
    }
    stop := false;
    var put := AddInBlock(fs.dev.ioBuffer, fs.dev.blockSize, x);
    if put {
      ok := StorePage(fs, b, ino, inode, idx, v0, data, if good then Placed(page, x) else [], good);
      if good {
        SameHeads(Vol(fs.dev), v0, fs.geo);
        SameDirInode(Vol(fs.dev), v0, fs.geo, ino, |data|);
        AddedPage(fs, old(fs.files), ino, data, idx, x, page, Placed(page, x));
      }
      added := Some(ok);
    }
  }

  lemma SameDirInode(vol: seq<Block>, v0: seq<Block>, g: Geometry, ino: u32, size: nat)
    requires SameInodes(vol, v0, g) && GeometryOk(g) && InodeExists(g, ino)
    ensures DirInode(v0, vol, g, ino, size, size)
  {
    hide VolumeOk, InodeAt, InodeExists;
  }

  lemma AddedPage(fs: Fs, files: Files, ino: u32, data: seq<byte>, idx: nat, x: Item, was: Block, page: Block)
    requires Tiled(was, 0) && |was| < 0x1_0000 && |x.name| <= NAME_LEN && x.ino != 0
    requires FirstFit(was, 0, Room(|x.name|)) < |was| && page == Placed(was, x)
    requires PageReplaced(fs, files, ino, data, idx, page) && ino in files && data == files[ino]
    requires RoomAt(data, fs.geo.blockSize, Room(|x.name|), idx) && was == Pages(data, fs.geo.blockSize)[idx]
    ensures Added(fs, files, ino, x) && ino in fs.files && |fs.files[ino]| == |data|
  {
    hide FsOk, VolumeOk, InodeAt, InodeExists, Tiled, Live, Inserted, Pages, AllTiled, Placed, NoRoom, Names, First,
         SafeDir, SafeFit, FirstFit;
    ReplacedTiles(fs, files, ino, data, idx, page);
    SafeAt(data, fs.geo.blockSize, Room(|x.name|), idx);
    PlacedInDir(Pages(data, fs.geo.blockSize), idx, x);
  }

  /** The block of a new entry that fills it. */
  lemma OnlyEntry(zeros: seq<byte>, x: Item)
    requires BlockSizeOk(|zeros|) && |x.name| <= NAME_LEN && x.ino != 0
    ensures Tiled(PutAt(zeros, 0, x, |zeros|), 0) && Live(PutAt(zeros, 0, x, |zeros|), 0) == [x]
  {
    hide EntryOk, Next, ItemsAt, PutAt;
    var s := PutAt(zeros, 0, x, |zeros|);
    PutReads(zeros, 0, x, |zeros|);
    EntryBounds(s, 0);
    assert Tiled(s, |s|) && Live(s, |s|) == [];
    LiveStep(s, 0);
  }

  /** A directory operation that could not finish left the files as they were. */
  ghost predicate GaveUp(fs: Fs, files: Files, ino: u32, data: seq<byte>)
    reads fs, fs.dev
  {
    && KnownDir(fs, ino) && fs.files == files && BlockSizeOk(fs.geo.blockSize)
    && (fs.superFree == 0 || |data| >= SizeLimit(fs.geo.blockSize))
  }

  /** The inode of a directory after an entry was added: as it was, or one block longer. */
  ghost predicate DirInode(v0: seq<Block>, vol: seq<Block>, g: Geometry, ino: u32, was: nat, now: nat) {
    && VolumeOk(v0, g) && VolumeOk(vol, g) && InodeExists(g, ino)
    && var i, j := InodeAt(v0, g, ino), InodeAt(vol, g, ino);
       if now == was then j == i
       else && now == was + g.blockSize && j.size == now
            && j == i.(size := j.size, block := j.block, blocks := Wrap32(i.blocks + g.blockSize / 512), mtime := 0)
  }

  /** The volume while a new directory block is on its way: allocated and written, but not yet in the inode. */
  ghost predicate Growing(fs: Fs, ino: u32, inode: Inode, data: seq<byte>, v0: seq<Block>, idx: nat, b: nat,
                          page: Block)
    reads fs, fs.dev
  {
    && Session(fs, ino, inode, data, v0) && idx == |data| / fs.geo.blockSize && BlocksOk(Vol(fs.dev), fs.geo)
    && 0 < b < |Vol(fs.dev)| && b !in fs.owner && UsedBlock(Vol(fs.dev), fs.geo, b) && Vol(fs.dev)[b] == page
  }

  /** A fresh block with the entry alone in it, on the disk. */
  method NewPage(fs: Fs, x: Item, ghost ino: u32, ghost inode: Inode, ghost data: seq<byte>, ghost v0: seq<Block>,
                 ghost good: bool)
    returns (ok: bool, b: u32)
    requires fs.Valid() && |x.name| <= NAME_LEN && x.ino != 0 && (good ==> Session(fs, ino, inode, data, v0))
    modifies fs`groupFree, fs`superFree
    modifies fs.dev`transfers, fs.dev`cache, fs.dev`pageRequests, fs.dev`sectors, fs.dev.ioBuffer
    ensures fs.Valid()
    ensures good && !ok ==> Session(fs, ino, inode, data, v0) && fs.superFree == 0
    ensures good && ok ==>
              Growing(fs, ino, inode, data, v0, |data| / fs.geo.blockSize, b,
                      PutAt(Zeros(fs.geo.blockSize), 0, x, fs.geo.blockSize))
  {
    hide Vol, Reliable, AllocOk, Editing, HandlesOk, VolumeOk, InodeAt, DirOk, MaxBlocks, PutAt, UsedBlock, BlockAt,
         Taken, GroupBits, IsFirstFree;
    ghost var vol, gf, sf := Vol(fs.dev), fs.groupFree, fs.superFree;
    ghost var k, i;
    b, k, i := AllocateBlock(fs);
    if b == 0 {
      return false, 0;
    }
    ghost var vol1, page := Vol(fs.dev), PutAt(Zeros(fs.geo.blockSize), 0, x, fs.geo.blockSize);
    if good {
      EditTake(vol, fs.geo, fs.owner, gf, sf, fs.files, ino, inode, MaxBlocks(|data|, fs.geo.blockSize), data, v0, k,
               i);
      EditStray(vol1, fs.geo, fs.owner, fs.groupFree, fs.superFree, fs.files, ino, inode,
                MaxBlocks(|data|, fs.geo.blockSize), data, v0, b, page);
    }
    ZeroBuffer(fs.dev);
    ghost var z := fs.dev.ioBuffer[..];
    PutEntry(fs.dev.ioBuffer, 0, x, fs.dev.blockSize);
    PutPrefix(z, fs.dev.blockSize, 0, x, fs.dev.blockSize);
    assert z[..fs.dev.blockSize] == Zeros(fs.dev.blockSize);
    assert fs.dev.ioBuffer[..][..fs.dev.blockSize] == fs.dev.ioBuffer[..fs.dev.blockSize];
    ok := StoreBlock(fs.dev, b);
  }

  /** A grown directory that still awaits its inode being written. */
  ghost predicate Grown(fs: Fs, ino: u32, inode: Inode, data: seq<byte>, v0: seq<Block>, was: seq<byte>, page: Block)
    reads fs, fs.dev
  {
    && BlockSizeOk(fs.geo.blockSize) && |page| == fs.geo.blockSize && data == was + page
    && |data| + fs.geo.blockSize <= 0x1_0000_0000 && DirOk(was, fs.geo.blockSize) && ino in fs.files
    && fs.files[ino] == was
    && Busy(fs, ino, inode, MaxBlocks(|was|, fs.geo.blockSize) + 1, data, v0)
    && VolumeOk(v0, fs.geo) && InodeExists(fs.geo, ino) && HandlesOk(v0, fs.geo, fs.openFiles, fs.files)
  }

  /** Enters the new block in the inode. */
  method EnterPage(fs: Fs, inode: Inode, idx: u32, b: u32, ghost ino: u32, ghost data: seq<byte>, ghost v0: seq<Block>,
                   ghost page: Block, ghost good: bool)
    returns (ok: bool, inode': Inode)
    requires fs.Valid() && InodeOk(inode) && (good ==> Growing(fs, ino, inode, data, v0, idx, b, page))
    modifies fs`groupFree, fs`superFree, fs`owner
    modifies fs.dev`transfers, fs.dev`cache, fs.dev`pageRequests, fs.dev`sectors, fs.dev.ioBuffer
    ensures fs.Valid() && InodeOk(inode')
    ensures good && !ok ==> GaveUp(fs, old(fs.files), ino, data) && HeadsKept(v0, Vol(fs.dev), fs.geo)
    ensures good && ok ==>
              Grown(fs, ino, inode', data + page, v0, data, page) && inode' == inode.(block := inode'.block)
  {
    hide *;
    ValidSizes(fs);
    ghost var vol, gf, sf, bs := Vol(fs.dev), fs.groupFree, fs.superFree, fs.geo.blockSize;
    if good {
      GrowingFacts(fs, ino, inode, data, v0, idx, b, page);
    }
    ghost var k, i;
    ok, inode', k, i := SetBlock(fs, inode, idx, b);
    if good {
      SetFacts(vol, Vol(fs.dev), fs.geo, inode, inode', idx, b, ok, k, i);
      if ok {
        AppendingIs(vol, Vol(fs.dev), fs.geo, fs.owner, gf, sf, inode, inode', idx, b, k, i);
        ReadyAlloc(fs);
        EditGrow(vol, Vol(fs.dev), fs.geo, fs.owner, gf, sf, fs.groupFree, fs.superFree, fs.files, ino, inode, inode',
                 v0, idx, b, k, i, data);
        fs.owner := AddedOwners(fs.owner, ino, inode, inode', idx, b, Fanout(bs));
        GrownIs(fs, ino, inode, inode', data, v0, idx, page);
      } else {
        GivesUp(fs, ino, inode, data, v0, idx);
      }
    }
  }

  lemma GrowingFacts(fs: Fs, ino: u32, inode: Inode, data: seq<byte>, v0: seq<Block>, idx: u32, b: u32, page: Block)
    requires Growing(fs, ino, inode, data, v0, idx, b, page)
    ensures fs.Ready() && AllocOk(Vol(fs.dev), fs.geo, fs.groupFree, fs.superFree) && BlocksOk(Vol(fs.dev), fs.geo)
    ensures BlockSizeOk(fs.geo.blockSize) && SingleOk(Vol(fs.dev), fs.geo, inode)
    ensures Editing(Vol(fs.dev), fs.geo, fs.owner, fs.files, ino, inode, idx, data, v0)
            && |data| == idx * fs.geo.blockSize
    ensures 0 < b < |Vol(fs.dev)| && b !in fs.owner && UsedBlock(Vol(fs.dev), fs.geo, b) && Vol(fs.dev)[b] == page
    ensures |page| == fs.geo.blockSize && idx == MaxBlocks(|data| % 0x1_0000_0000, fs.geo.blockSize)
    ensures Setting(fs.geo, fs.openFiles, fs.files, ino, inode, data, v0)
  {
    hide Vol, Reliable, AllocOk, Editing, HandlesOk, VolumeOk, InodeAt, AllTiled, MaxBlocks, UsedBlock;
    SessionFacts(fs, ino, inode, data, v0);
    WholeBlocks(|data|, fs.geo.blockSize);
    EditSingleOk(Vol(fs.dev), fs.geo, fs.owner, fs.files, ino, inode, idx, data, v0);
    BlockLength(Vol(fs.dev), fs.geo, fs.groupFree, fs.superFree, b);
  }

  lemma ValidSizes(fs: Fs)
    requires fs.Valid()
    ensures BlockSizeOk(fs.dev.blockSize) && fs.dev.blockSize == fs.geo.blockSize
  {
  }

  lemma ReadyAlloc(fs: Fs)
    requires fs.Ready()
    ensures AllocOk(Vol(fs.dev), fs.geo, fs.groupFree, fs.superFree)
  {
  }

  lemma AppendingIs(vol: seq<Block>, vol': seq<Block>, g: Geometry, owner: Owners, gf: seq<nat>, sf: nat,
                    inode: Inode, inode': Inode, idx: nat, b: u32, k: nat, i: nat)
    requires AllocOk(vol, g, gf, sf) && BlocksOk(vol, g) && SingleOk(vol, g, inode) && InodeOk(inode')
    requires SetDone(vol, vol', g, inode, inode', idx, b, true, k, i)
    requires 0 < b < |vol| && b !in owner && UsedBlock(vol, g, b) && idx < DIRECT + Fanout(g.blockSize)
    ensures Appending(vol, vol', g, owner, gf, sf, inode, inode', idx, b, k, i)
  {
    hide AllocOk, BlocksOk, SingleOk, SetDone, UsedBlock;
  }

  lemma GrownIs(fs: Fs, ino: u32, inode: Inode, inode': Inode, data: seq<byte>, v0: seq<Block>, idx: nat, page: Block)
    requires Setting(fs.geo, fs.openFiles, fs.files, ino, inode, data, v0) && fs.Ready() && |page| == fs.geo.blockSize
    requires idx == MaxBlocks(|data| % 0x1_0000_0000, fs.geo.blockSize) && idx < DIRECT + Fanout(fs.geo.blockSize)
    requires |data| == idx * fs.geo.blockSize
    requires Editing(Vol(fs.dev), fs.geo, fs.owner, fs.files, ino, inode', idx + 1, data + page, v0)
    ensures Grown(fs, ino, inode', data + page, v0, data, page)
  {
    hide Vol, Reliable, AllocOk, Editing, HandlesOk, VolumeOk, InodeAt, DirOk, MaxBlocks;
    SizeFits(|data|, fs.geo.blockSize, idx + 1, |data| + fs.geo.blockSize);
  }

  lemma GivesUp(fs: Fs, ino: u32, inode: Inode, data: seq<byte>, v0: seq<Block>, idx: nat)
    requires Setting(fs.geo, fs.openFiles, fs.files, ino, inode, data, v0) && fs.Ready()
    requires idx == MaxBlocks(|data| % 0x1_0000_0000, fs.geo.blockSize) && |data| == idx * fs.geo.blockSize
    requires Editing(Vol(fs.dev), fs.geo, fs.owner, fs.files, ino, inode, idx, data, v0)
    requires fs.superFree == 0 || idx >= DIRECT + Fanout(fs.geo.blockSize)
    ensures GaveUp(fs, fs.files, ino, data) && HeadsKept(v0, Vol(fs.dev), fs.geo)
  {
    hide Vol, Reliable, AllocOk, Editing, HandlesOk, VolumeOk, InodeAt, DirOk, MaxBlocks, KnownDir, HeadsKept;
    SessionEnds(fs, ino, inode, data, v0);
    LimitReached(|data|, fs.geo.blockSize, idx);
  }

  lemma SetFacts(vol: seq<Block>, vol': seq<Block>, g: Geometry, inode: Inode, inode': Inode, idx: nat, b: u32,
                 ok: bool, k: nat, i: nat)
    requires BlocksOk(vol, g) && SingleOk(vol, g, inode) && InodeOk(inode')
    requires SetDone(vol, vol', g, inode, inode', idx, b, ok, k, i)
    ensures if ok then idx < DIRECT + Fanout(g.blockSize) else vol' == vol
    ensures inode' == inode.(block := inode'.block)
  {
    hide SetWord, Taken, BlockAt, GroupBits;
  }

  lemma LimitReached(size: nat, bs: nat, idx: nat)
    requires BlockSizeOk(bs) && idx * bs == size
    ensures idx >= DIRECT + Fanout(bs) ==> size >= (DIRECT + Fanout(bs)) * bs
  {
    if idx >= DIRECT + Fanout(bs) {
      assert idx * bs >= (DIRECT + Fanout(bs)) * bs;
    }
  }

  /** Writes the grown directory's inode. */
  method CloseGrown(fs: Fs, ino: u32, inode: Inode, inode': Inode, ghost data: seq<byte>, ghost v0: seq<Block>,
                    ghost was: seq<byte>, ghost page: Block, x: Item, ghost good: bool)
    returns (ok: bool)
    requires fs.Valid() && InodeOk(inode') && InodeOk(inode)
    requires good ==> Grown(fs, ino, inode, data, v0, was, page) && Unopened(fs.openFiles, ino)
    requires good ==> Tiled(page, 0) && Live(page, 0) == [x]
    requires good ==> inode'.block == inode.block && inode'.size == |data| && IsDir(inode'.mode)
    modifies fs`files, fs.dev`transfers, fs.dev`cache, fs.dev`pageRequests, fs.dev`sectors, fs.dev.ioBuffer
    ensures fs.Valid()
    ensures good ==> ok && Gained(fs, old(fs.files), ino, x) && ino in fs.files && fs.files[ino] == data
    ensures good ==> VolumeOk(Vol(fs.dev), fs.geo) && InodeExists(fs.geo, ino)
                     && InodeAt(Vol(fs.dev), fs.geo, ino) == inode'
    ensures good && SameHead(inode', InodeAt(v0, fs.geo, ino)) ==> HeadsKept(v0, Vol(fs.dev), fs.geo)
  {
    hide Vol, Reliable, AllocOk, Editing, HandlesOk, VolumeOk, InodeAt, MaxBlocks, WithInode, Tiled, Live, Stored,
         Unopened, Inserted, Pages, AllTiled, HeadsKept;
    ghost var vol, files, bs := Vol(fs.dev), fs.files, fs.geo.blockSize;
    if good {
      EditClose(vol, fs.geo, fs.owner, fs.groupFree, fs.superFree, fs.files, ino, inode, inode',
                MaxBlocks(|was|, bs) + 1, data, v0);
      HandlesElsewhere(v0, WithInode(vol, fs.geo, ino, inode'), fs.geo, fs.openFiles, files, files[ino := data], ino);
      PagesAppend(was, bs, page);
      InsertAtEnd(Pages(was, bs), page, x);
      if SameHead(inode', InodeAt(v0, fs.geo, ino)) {
        HeadsAfter(v0, WithInode(vol, fs.geo, ino, inode'), fs.geo, ino, inode');
      }
      fs.files := fs.files[ino := data];
    }
    ok := WriteInode(fs.dev, fs.geo, ino, inode');
  }

  /** The last part of add_dir_entry: a new block for the entry. */
  method AddPage(fs: Fs, ino: u32, inode: Inode, idx: u32, x: Item, ghost data: seq<byte>, ghost v0: seq<Block>,
                 ghost good: bool)
    returns (ok: bool)
    requires fs.Valid() && InodeOk(inode) && |x.name| <= NAME_LEN && x.ino != 0
    requires good ==>
               Session(fs, ino, inode, data, v0) && idx == |data| / fs.geo.blockSize && Unopened(fs.openFiles, ino)
    modifies fs`groupFree, fs`superFree, fs`owner, fs`files
    modifies fs.dev`transfers, fs.dev`cache, fs.dev`pageRequests, fs.dev`sectors, fs.dev.ioBuffer
    ensures fs.Valid()
    ensures good ==> if ok then Gained(fs, old(fs.files), ino, x) else GaveUp(fs, old(fs.files), ino, data)
    ensures good ==> HeadsKept(v0, Vol(fs.dev), fs.geo)
    ensures good && ok ==>
              ino in fs.files && DirInode(v0, Vol(fs.dev), fs.geo, ino, |data|, |fs.files[ino]|)
  {
    hide Vol, Reliable, AllocOk, Editing, HandlesOk, VolumeOk, InodeAt, Tiled, Live, Unopened, PutAt, Session, Growing,
         Grown, GaveUp, Gained, HeadsKept;
    ghost var page := PutAt(Zeros(fs.geo.blockSize), 0, x, fs.geo.blockSize);
    OnlyEntry(Zeros(fs.geo.blockSize), x);
    if good {
      SessionMode(fs, ino, inode, data, v0);
    }
    var b;
    ok, b := NewPage(fs, x, ino, inode, data, v0, good);
    if !ok {
      if good {
        NothingFree(fs, ino, inode, data, v0);
      }
      return;
    }
    var inode1;
    ok, inode1 := EnterPage(fs, inode, idx, b, ino, data, v0, page, good);
    if !ok {
      return;
    }
    if good {
      GrownSize(fs, ino, inode1, data + page, v0, data, page);
    }
    var inode2 := inode1.(size := Wrap32(inode1.size + fs.dev.blockSize),
                          blocks := Wrap32(inode1.blocks + fs.dev.blockSize / SECTOR_SIZE), mtime := 0);
    ok := CloseGrown(fs, ino, inode1, inode2, data + page, v0, data, page, x, good);
  }

  lemma SessionMode(fs: Fs, ino: u32, inode: Inode, data: seq<byte>, v0: seq<Block>)
    requires Session(fs, ino, inode, data, v0)
    ensures IsDir(inode.mode) && inode.size == |data|
    ensures VolumeOk(v0, fs.geo) && InodeExists(fs.geo, ino) && inode == InodeAt(v0, fs.geo, ino)
  {
  }

  lemma NothingFree(fs: Fs, ino: u32, inode: Inode, data: seq<byte>, v0: seq<Block>)
    requires Session(fs, ino, inode, data, v0) && fs.superFree == 0
    ensures GaveUp(fs, fs.files, ino, data) && HeadsKept(v0, Vol(fs.dev), fs.geo)
  {
    hide KnownDir, HeadsKept;
    SessionEnds(fs, ino, inode, data, v0);
    SessionFacts(fs, ino, inode, data, v0);
  }

  lemma GrownSize(fs: Fs, ino: u32, inode: Inode, data: seq<byte>, v0: seq<Block>, was: seq<byte>, page: Block)
    requires Grown(fs, ino, inode, data, v0, was, page)
    ensures |data| == |was| + fs.geo.blockSize < 0x1_0000_0000
  {
  }

  /**
   add_dir_entry on a directory that nobody has open. If its first fit is safe the
   entries gain exactly the new one, and for an absent name only then; in any case
   all other files keep their contents. The call fails only for bad arguments or
   when volume or directory can take no block. A directory that shows slack for the
   name takes it without growing.
   */
  method AddEntry(fs: Fs, ino: u32, x: Item) returns (ok: bool)
    requires fs.Valid()
    modifies fs`groupFree, fs`superFree, fs`owner, fs`files
    modifies fs.dev`transfers, fs.dev`cache, fs.dev`pageRequests, fs.dev`sectors, fs.dev.ioBuffer
    ensures fs.Valid()
    ensures ino == 0 || x.ino == 0 || |x.name| > 255 ==>
              !ok && fs.files == old(fs.files) && fs.dev.sectors == old(fs.dev.sectors)
              && fs.superFree == old(fs.superFree)
    ensures x.ino == 0 || |x.name| > 255 ==> (old(KnownDir(fs, ino)) ==> KnownDir(fs, ino))
    ensures old(KnownDir(fs, ino)) && old(Unopened(fs.openFiles, ino)) && x.ino != 0 && |x.name| <= 255 ==>
              if ok then Added(fs, old(fs.files), ino, x) else GaveUp(fs, old(fs.files), ino, old(fs.files[ino]))
    ensures old(KnownDir(fs, ino)) && old(Unopened(fs.openFiles, ino)) ==>
              HeadsKept(old(Vol(fs.dev)), Vol(fs.dev), fs.geo)
    ensures old(KnownDir(fs, ino)) && old(Unopened(fs.openFiles, ino)) && x.ino != 0 && |x.name| <= 255
            && SlackInDir(old(fs.files[ino]), fs.geo.blockSize, |x.name|) ==>
              && ok && fs.superFree == old(fs.superFree) && ino in fs.files
              && |fs.files[ino]| == |old(fs.files[ino])|
    ensures old(KnownDir(fs, ino)) && old(Unopened(fs.openFiles, ino)) && ok ==>
              && ino in fs.files
              && DirInode(old(Vol(fs.dev)), Vol(fs.dev), fs.geo, ino, |old(fs.files[ino])|, |fs.files[ino]|)
  {
    hide DirInode, SlackInDir, NoRoom, Vol, Reliable, AllocOk, Editing, HandlesOk, VolumeOk, InodeAt, Unopened, Session,
         GaveUp, Gained, Stored, DirOk, Added, HeadsKept;
    if KnownDir(fs, ino) {
      FsVolume(fs);
    }
    if ino == 0 || x.ino == 0 || |x.name| > NAME_LEN {
      return false;
    }
    ghost var good := KnownDir(fs, ino) && Unopened(fs.openFiles, ino);
    ghost var data, v0 := if good then fs.files[ino] else [], Vol(fs.dev);
    if good {
      KnownVolume(fs, ino);
    }
    var inode;
    ok, inode := ReadInode(fs.dev, fs.geo, ino);
    if !ok {
      return false;
    }
    if !IsDir(inode.mode) {
      return false;
    }
    if good {
      SessionStarts(fs, ino);
    }
    var done, idx;
    done, ok, idx := AddToPages(fs, ino, inode, x, data, v0, good);
    if !done {
      ghost var files := fs.files;
      if good && SlackInDir(data, fs.geo.blockSize, |x.name|) {
        SlackIsRoom(data, fs.geo.blockSize, |x.name|);
        assert false;
      }
      ok := AddPage(fs, ino, inode, idx, x, data, v0, good);
      if good && ok {
        AddedAtEnd(fs, files, ino, x);
      }
    }
  }

  /** Where no block has room, any place is safe. */
  lemma AddedAtEnd(fs: Fs, files: Files, ino: u32, x: Item)
    requires Gained(fs, files, ino, x)
             && NoRoom(files[ino], fs.geo.blockSize, Room(|x.name|), |files[ino]| / fs.geo.blockSize)
    ensures Added(fs, files, ino, x)
  {
    hide FsOk, VolumeOk, InodeAt, InodeExists, Inserted, Pages, AllTiled, FirstFit, Names, First;
    SafeWithoutRoom(files[ino], fs.geo.blockSize, Room(|x.name|));
  }

  // ---------- removing an entry ----------

  /** The contents of directory `ino` lost exactly the first entry called `name`; other files are as before. */
  ghost predicate Fewer(files: Files, files': Files, ino: u32, name: Name, bs: nat) {
    && bs > 0 && ino in files && ino in files' && files' == files[ino := files'[ino]]
    && DirOk(files[ino], bs) && DirOk(files'[ino], bs)
    && Listing(files'[ino], bs) == Drop(Listing(files[ino], bs), name)
  }

  ghost predicate Lost(fs: Fs, files: Files, ino: u32, name: Name)
    reads fs, fs.dev
  {
    KnownDir(fs, ino) && Fewer(files, fs.files, ino, name, fs.geo.blockSize)
  }

  lemma LostPage(fs: Fs, files: Files, ino: u32, data: seq<byte>, idx: nat, page: Block, name: Name)
    requires PageReplaced(fs, files, ino, data, idx, page) && ino in files && data == files[ino]
    requires Tiled(page, 0) && Tiled(Pages(data, fs.geo.blockSize)[idx], 0)
             && Searching(data, fs.geo.blockSize, idx, name)
    requires First(Live(Pages(data, fs.geo.blockSize)[idx], 0), name) != 0
    requires Live(page, 0) == Drop(Live(Pages(data, fs.geo.blockSize)[idx], 0), name)
    ensures Lost(fs, files, ino, name)
  {
    hide FsOk, VolumeOk, InodeAt, Tiled, Live, Pages, Names, First, Drop;
    ReplacedTiles(fs, files, ino, data, idx, page);
    DropInBlock(Pages(data, fs.geo.blockSize), idx, page, name);
  }

  /** The loop of ext2_unlink over the directory's blocks. */
  method RemoveFromPages(fs: Fs, ghost ino: u32, inode: Inode, name: Name, target: u32, ghost data: seq<byte>,
                         ghost v0: seq<Block>, ghost good: bool)
    returns (removed: bool)
    requires fs.Valid() && InodeOk(inode) && target != 0
    requires good ==> Session(fs, ino, inode, data, v0) && fs.geo.blockSize > 0 && DirOk(data, fs.geo.blockSize)
    requires good ==> First(Listing(data, fs.geo.blockSize), name) == target
    modifies fs`files, fs.dev`transfers, fs.dev`cache, fs.dev`pageRequests, fs.dev`sectors, fs.dev.ioBuffer
    ensures fs.Valid()
    ensures good ==> removed && Lost(fs, old(fs.files), ino, name) && SameInodes(Vol(fs.dev), v0, fs.geo)
  {
    hide Vol, Reliable, AllocOk, Editing, DirAt, BlockOf, Tiled, Pages, Session, Lost, DirOk, Searching, Listing, First,
         SameInodes;
    var offset: nat, idx: u32 := 0, 0;
    if good {
      SessionFacts(fs, ino, inode, data, v0);
      SearchStarts(data, fs.geo.blockSize, name);
    }
    while offset < inode.size
      invariant fs.Valid() && offset == idx * fs.geo.blockSize && fs.files == old(fs.files)
      invariant good ==> Session(fs, ino, inode, data, v0) && idx <= |data| / fs.geo.blockSize
      invariant good ==> Searching(data, fs.geo.blockSize, idx, name)
      decreases 0x1_0000_0000 - offset
    {
      if good {
        PageBelow(|data|, fs.geo.blockSize, idx);
      }
      var stop, gone := RemoveFromPage(fs, ino, inode, idx, name, target, data, v0, good);
      if stop {
        return false;
      }
      if gone.Some? {
        return gone.value;
      }
      offset, idx := offset + fs.dev.blockSize, idx + 1;
    }
    if good {
      PageLast(|data|, fs.geo.blockSize, idx);
      SearchEnds(data, fs.geo.blockSize, name);
    }
    removed := false;
  }

  /** One block's turn: `stop` when it cannot be read, otherwise the outcome if the entry was in it. */
  method RemoveFromPage(fs: Fs, ghost ino: u32, inode: Inode, idx: u32, name: Name, target: u32, ghost data: seq<byte>,
                        ghost v0: seq<Block>, ghost good: bool)
    returns (stop: bool, gone: Outcome)
    requires fs.Valid() && InodeOk(inode) && target != 0
    requires good ==> Session(fs, ino, inode, data, v0) && DirOk(data, fs.geo.blockSize)
    requires good ==> idx < |data| / fs.geo.blockSize && Searching(data, fs.geo.blockSize, idx, name)
    requires good ==> First(Listing(data, fs.geo.blockSize), name) == target
    modifies fs`files, fs.dev`transfers, fs.dev`cache, fs.dev`pageRequests, fs.dev`sectors, fs.dev.ioBuffer
    ensures fs.Valid()
    ensures stop || gone == None ==> fs.files == old(fs.files)
    ensures good ==> !stop
    ensures good && gone == None ==>
              Session(fs, ino, inode, data, v0) && Searching(data, fs.geo.blockSize, idx + 1, name)
    ensures good && gone.Some? ==>
              gone.value && Lost(fs, old(fs.files), ino, name) && SameInodes(Vol(fs.dev), v0, fs.geo)
  {
    hide Vol, Reliable, AllocOk, Editing, DirAt, BlockOf, Tiled, Pages, DirOk, HandlesOk, VolumeOk, Searching, Listing,
         First, Drop, Live, PageReplaced, Lost, SameInodes;
    ghost var bs, page := fs.geo.blockSize, if good then Pages(data, fs.geo.blockSize)[idx] else [];
    gone := None;
    if good {
      SearchBlock(data, bs, idx, name);
      PageIs(data, bs, idx);
    }
    var ok, b := LoadPage(fs, inode, idx, ino, data, v0);
    if !ok {
      return true, None;
    }
    stop := false;
    var found := RemoveInBlock(fs.dev.ioBuffer, fs.dev.blockSize, name, target);
    if found {
      ghost var page' := fs.dev.ioBuffer[..fs.dev.blockSize];
      ok := StorePage(fs, b, ino, inode, idx, v0, data, page', good);
      if good {
        LostPage(fs, old(fs.files), ino, data, idx, page', name);
      }
      gone := Some(ok);
    }
  }

  /**
   The file `target` has one link less, wrapping at 0, and a deletion time of 0 when
   none is left; that apart, no inode has changed.
   */
  ghost predicate OneLinkLess(v0: seq<Block>, vol: seq<Block>, g: Geometry, target: u32) {
    && VolumeOk(v0, g) && VolumeOk(vol, g) && InodeExists(g, target)
    && (forall m: u32 :: InodeExists(g, m) && m != target ==> InodeAt(vol, g, m) == InodeAt(v0, g, m))
    && var i, j := InodeAt(v0, g, target), InodeAt(vol, g, target);
    && j == i.(links := j.links, dtime := j.dtime)
    && (if i.links > 0 then j.links == i.links - 1 else j.links == 0xffff)
    && (if j.links == 0 then j.dtime == 0 else j.dtime == i.dtime)
  }

  lemma OneLinkModes(v0: seq<Block>, vol: seq<Block>, g: Geometry, target: u32)
    requires OneLinkLess(v0, vol, g, target)
    ensures ModesKept(v0, vol, g)
  {
    hide VolumeOk, InodeAt, InodeExists;
  }

  /** The end of ext2_unlink: the file's inode with one link less. */
  method DropLink(fs: Fs, target: u32, inode: Inode, ghost ino: u32, ghost good: bool) returns (ok: bool)
    requires fs.Valid() && InodeOk(inode)
    requires good ==> KnownDir(fs, ino) && InodeExists(fs.geo, target) && inode == InodeAt(Vol(fs.dev), fs.geo, target)
    requires good ==> target != ino && Unopened(fs.openFiles, target)
    modifies fs.dev`transfers, fs.dev`cache, fs.dev`pageRequests, fs.dev`sectors, fs.dev.ioBuffer
    ensures fs.Valid()
    ensures good ==> ok && KnownDir(fs, ino) && OneLinkLess(old(Vol(fs.dev)), Vol(fs.dev), fs.geo, target)
  {
    hide Vol, Reliable, AllocOk, HandlesOk, VolumeOk, InodeAt, WithInode, Stored, Unopened, DirOk;
    var inode' := inode.(links := (inode.links + 0xffff) % 0x1_0000);
    if inode'.links == 0 {
      inode' := inode'.(dtime := 0);
    }
    ghost var vol := Vol(fs.dev);
    if good {
      InodeTouched(vol, fs.geo, fs.owner, fs.groupFree, fs.superFree, fs.files, target, inode');
      HandlesElsewhere(vol, WithInode(vol, fs.geo, target, inode'), fs.geo, fs.openFiles, fs.files, fs.files, target);
    }
    ok := WriteInode(fs.dev, fs.geo, target, inode');
  }

  /** A name in a directory that ext2_unlink removes: a file nobody has open. */
  ghost predicate Removable(fs: Fs, ino: u32, name: Name)
    requires KnownDir(fs, ino)
    reads fs, fs.dev
  {
    var target := First(Listing(fs.files[ino], fs.geo.blockSize), name);
    target != 0 && InodeExists(fs.geo, target) && !IsDir(InodeAt(Vol(fs.dev), fs.geo, target).mode)
    && Unopened(fs.openFiles, target)
  }

  /** The name cannot be unlinked: it is not there, its inode does not exist, or it is a directory. */
  ghost predicate NotAFile(fs: Fs, ino: u32, name: Name)
    requires KnownDir(fs, ino)
    reads fs, fs.dev
  {
    var target := First(Listing(fs.files[ino], fs.geo.blockSize), name);
    target == 0 || !InodeExists(fs.geo, target) || IsDir(InodeAt(Vol(fs.dev), fs.geo, target).mode)
  }

  /**
   ext2_unlink from the parent directory on: exactly the first entry with the
   name goes, every other entry and file stays, and the file loses one link.
   */
  method Unlink(fs: Fs, ino: u32, name: Name) returns (ok: bool, ghost target: u32)
    requires fs.Valid()
    modifies fs`files, fs.dev`transfers, fs.dev`cache, fs.dev`pageRequests, fs.dev`sectors, fs.dev.ioBuffer
    ensures fs.Valid()
    ensures old(KnownDir(fs, ino)) ==> target == First(old(Listing(fs.files[ino], fs.geo.blockSize)), name)
    ensures old(KnownDir(fs, ino) && NotAFile(fs, ino, name)) ==>
              !ok && KnownDir(fs, ino) && fs.files == old(fs.files) && Vol(fs.dev) == old(Vol(fs.dev))
    ensures old(KnownDir(fs, ino) && Removable(fs, ino, name)) ==>
              ok && Lost(fs, old(fs.files), ino, name) && OneLinkLess(old(Vol(fs.dev)), Vol(fs.dev), fs.geo, target)
  {
    hide Vol, Reliable, AllocOk, Editing, HandlesOk, VolumeOk, InodeAt, Stored, Unopened, DirOk, Session, Listing,
         First, Fewer, SameInodes, InodeExists, OneLinkLess;
    ghost var known, v0 := KnownDir(fs, ino), Vol(fs.dev);
    ghost var good := known && Removable(fs, ino, name);
    ghost var data := if known then fs.files[ino] else [];
    var found := FindInDir(fs, ino, name);
    target := found;
    if found == 0 {
      return false, target;
    }
    if known {
      KnownVolume(fs, ino);
    }
    var inode, dirInode;
    ok, inode := ReadInode(fs.dev, fs.geo, found);
    if !ok {
      return false, target;
    }
    if IsDir(inode.mode) {
      return false, target;
    }
    ok, dirInode := ReadInode(fs.dev, fs.geo, ino);
    if !ok {
      return false, target;
    }
    if good {
      SessionStarts(fs, ino);
    }
    ok := RemoveFromPages(fs, ino, dirInode, name, found, data, v0, good);
    if !ok {
      return false, target;
    }
    if good {
      InodeKept(Vol(fs.dev), v0, fs.geo, found);
    }
    ghost var v1 := Vol(fs.dev);
    ok := DropLink(fs, found, inode, ino, good);
    if good {
      LinkAfter(v0, v1, Vol(fs.dev), fs.geo, found);
    }
  }

  lemma LinkAfter(v0: seq<Block>, v1: seq<Block>, vol: seq<Block>, g: Geometry, target: u32)
    requires SameInodes(v1, v0, g) && OneLinkLess(v1, vol, g, target)
    ensures OneLinkLess(v0, vol, g, target)
  {
    hide VolumeOk, InodeAt, InodeExists;
  }

  lemma InodeKept(vol: seq<Block>, v0: seq<Block>, g: Geometry, m: u32)
    requires SameInodes(vol, v0, g) && InodeExists(g, m)
    ensures VolumeOk(vol, g) && VolumeOk(v0, g) && InodeAt(vol, g, m) == InodeAt(v0, g, m)
  {
  }

  // ---------- a directory as a map ----------

  /** After adding an absent name: it resolves to its inode, every other name as before, and names stay distinct. */
  lemma GainedLookup(fs: Fs, files: Files, ino: u32, x: Item, name: Name)
    requires Gained(fs, files, ino, x) && x.ino != 0 && First(Listing(files[ino], fs.geo.blockSize), x.name) == 0
    ensures First(Listing(fs.files[ino], fs.geo.blockSize), name) ==
            if name == x.name then x.ino else First(Listing(files[ino], fs.geo.blockSize), name)
    ensures DistinctNames(Listing(files[ino], fs.geo.blockSize)) ==>
              DistinctNames(Listing(fs.files[ino], fs.geo.blockSize))
  {
    hide FsOk, VolumeOk, InodeAt, Inserted, Pages, AllTiled, First, Names, DistinctNames, NoZero;
    var l, l' := Listing(files[ino], fs.geo.blockSize), Listing(fs.files[ino], fs.geo.blockSize);
    NamesNoZero(Pages(files[ino], fs.geo.blockSize));
    InsertedFirst(l, l', x, name);
    if DistinctNames(l) {
      InsertedDistinct(l, l', x);
    }
  }

  /** After removing a name: every other name resolves as before, and with distinct names this one not at all. */
  lemma LostLookup(fs: Fs, files: Files, ino: u32, gone: Name, name: Name)
    requires Lost(fs, files, ino, gone)
    ensures name != gone ==>
              First(Listing(fs.files[ino], fs.geo.blockSize), name)
              == First(Listing(files[ino], fs.geo.blockSize), name)
    ensures DistinctNames(Listing(files[ino], fs.geo.blockSize)) ==>
              DistinctNames(Listing(fs.files[ino], fs.geo.blockSize))
              && First(Listing(fs.files[ino], fs.geo.blockSize), gone) == 0
  {
    hide FsOk, VolumeOk, InodeAt, Pages, AllTiled, First, Names, DistinctNames, NoZero, Drop;
    var l := Listing(files[ino], fs.geo.blockSize);
    NamesNoZero(Pages(files[ino], fs.geo.blockSize));
    DropFirst(l, gone, name);
    if DistinctNames(l) {
      DropDistinct(l, gone);
    }
  }
}
