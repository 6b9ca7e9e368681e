/**
 The calls on open files (kernel/src/fs/ext2.c:1201-1359) and whole runs of
 them: every file behaves as a plain byte string with a position.
 */
module OpenFiles {
  import opened Bytes
  import opened BlockCache
  import opened Volume
  import opened InodeTable
  import opened BlockAllocator
  import opened Ext2State
  import opened BlockMap
  import opened FileImage
  import opened FileWorld
  import opened FileSteps
  import opened FileIO

  /** An open handle: its copy of the inode is the one on the volume, its position inside the file. */
  ghost predicate HandleOk(vol: seq<Block>, g: Geometry, f: OpenFile, files: Files)
    requires VolumeOk(vol, g)
  {
    && f.inodeNum in files && InodeExists(g, f.inodeNum)
    && f.inode == InodeAt(vol, g, f.inodeNum)
    && f.position <= |files[f.inodeNum]|
  }

  /** All open handles are in order, and no two are on one inode. */
  ghost predicate HandlesOk(vol: seq<Block>, g: Geometry, handles: seq<OpenFile>, files: Files) {
    && VolumeOk(vol, g)
    && (forall i :: 0 <= i < |handles| && handles[i].isOpen ==> HandleOk(vol, g, handles[i], files))
    && (forall i, j :: 0 <= i < j < |handles| && handles[i].isOpen && handles[j].isOpen ==>
          handles[i].inodeNum != handles[j].inodeNum)
  }

  /** Between calls: the allocator, the metadata, every file and every handle are in order. */
  ghost predicate FsOk(fs: Fs)
    reads fs, fs.dev
  {
    && fs.Ready()
    && Stored(Vol(fs.dev), fs.geo, fs.owner, fs.files)
    && HandlesOk(Vol(fs.dev), fs.geo, fs.openFiles, fs.files)
  }

  /** The handles after a change of file `ino` through handle `fd`. */
  lemma HandlesKept(v0: seq<Block>, vol: seq<Block>, g: Geometry, handles: seq<OpenFile>, files: Files, fd: nat,
                    inode: Inode, position: u64, data: seq<byte>)
    requires HandlesOk(v0, g, handles, files) && fd < |handles| && handles[fd].isOpen && position <= |data|
    requires VolumeOk(vol, g)
    requires forall m: u32 :: InodeExists(g, m) ==>
               InodeAt(vol, g, m) == if m == handles[fd].inodeNum then inode else InodeAt(v0, g, m)
    ensures HandlesOk(vol, g, handles[fd := handles[fd].(inode := inode, position := position)],
                      files[handles[fd].inodeNum := data])
  {
    hide InodeAt, InodeExists, VolumeOk;
    var handles' := handles[fd := handles[fd].(inode := inode, position := position)];
    var files' := files[handles[fd].inodeNum := data];
    forall i | 0 <= i < |handles'| && handles'[i].isOpen ensures HandleOk(vol, g, handles'[i], files') {
      assert HandleOk(v0, g, handles[i], files);
    }
  }

  /** The end of both calls: the handle is updated and its inode written to the table. */
  method WriteBack(fs: Fs, fd: nat, inode: Inode, position: u64, ghost inode0: Inode, ghost count: nat,
                   ghost data: seq<byte>, ghost v0: seq<Block>)
    requires fs.Valid() && fd < MAX_FILES && InodeOk(inode)
    modifies fs`openFiles, fs`files
    modifies fs.dev`transfers, fs.dev`cache, fs.dev`pageRequests, fs.dev`sectors, fs.dev.ioBuffer
    ensures fs.Valid()
    ensures fs.openFiles == old(fs.openFiles)[fd := old(fs.openFiles)[fd].(inode := inode, position := position)]
    ensures old(Busy(fs, fs.openFiles[fd].inodeNum, inode0, count, data, v0)) && old(fs.openFiles)[fd].isOpen
            && HandlesOk(v0, fs.geo, old(fs.openFiles), old(fs.files))
            && inode.block == inode0.block && inode.size == |data| && |data| + fs.geo.blockSize <= 0x1_0000_0000
            && position <= |data| ==>
              FsOk(fs) && fs.files == old(fs.files)[old(fs.openFiles)[fd].inodeNum := data]
              && fs.superFree == old(fs.superFree)
              && (SameHead(inode, old(fs.openFiles)[fd].inode) ==> HeadsKept(v0, Vol(fs.dev), fs.geo))
  {
    hide Reliable, Vol, AllocOk, Editing, Stored, HandlesOk, VolumeOk, WithInode, HeadsKept, InodeAt;
    ghost var ino, vol := fs.openFiles[fd].inodeNum, Vol(fs.dev);
    ghost var good :=
      && Busy(fs, ino, inode0, count, data, v0) && fs.openFiles[fd].isOpen
      && HandlesOk(v0, fs.geo, fs.openFiles, fs.files)
      && inode.block == inode0.block && inode.size == |data| && |data| + fs.geo.blockSize <= 0x1_0000_0000
      && position <= |data|;
    if good {
      HandleExists(v0, fs.geo, fs.openFiles, fs.files, fd);
      EditClose(vol, fs.geo, fs.owner, fs.groupFree, fs.superFree, fs.files, ino, inode0, inode, count, data, v0);
      HandlesKept(v0, WithInode(vol, fs.geo, ino, inode), fs.geo, fs.openFiles, fs.files, fd, inode, position, data);
      if SameHead(inode, fs.openFiles[fd].inode) {
        HeadsAfter(v0, WithInode(vol, fs.geo, ino, inode), fs.geo, ino, inode);
      }
      fs.files := fs.files[ino := data];
    }
    fs.openFiles := fs.openFiles[fd := fs.openFiles[fd].(inode := inode, position := position)];
    var written := WriteInode(fs.dev, fs.geo, fs.openFiles[fd].inodeNum, inode);
  }

  lemma HandleExists(vol: seq<Block>, g: Geometry, handles: seq<OpenFile>, files: Files, fd: nat)
    requires HandlesOk(vol, g, handles, files) && fd < |handles| && handles[fd].isOpen
    ensures VolumeOk(vol, g) && GeometryOk(g) && InodeExists(g, handles[fd].inodeNum) && handles[fd].inodeNum in files
    ensures handles[fd].inode == InodeAt(vol, g, handles[fd].inodeNum)
    ensures handles[fd].position <= |files[handles[fd].inodeNum]|
  {
    assert HandleOk(vol, g, handles[fd], files);
  }

  lemma FsVolume(fs: Fs)
    requires FsOk(fs)
    ensures HeadsKept(Vol(fs.dev), Vol(fs.dev), fs.geo)
  {
    hide Vol, Reliable, AllocOk, Stored, InodeAt;
  }

  /** The handle can be used at all. */
  predicate Usable(handles: seq<OpenFile>, fd: int) {
    0 <= fd < |handles| && handles[fd].isOpen
  }

  /** The state of file and handle at the start of a call. */
  lemma CallStarts(fs: Fs, fd: nat)
    requires FsOk(fs) && Usable(fs.openFiles, fd)
    ensures var f := fs.openFiles[fd];
            && f.inodeNum in fs.files && BlockSizeOk(fs.geo.blockSize)
            && f.position <= |fs.files[f.inodeNum]| == f.inode.size
            && |fs.files[f.inodeNum]| + fs.geo.blockSize <= 0x1_0000_0000
            && Busy(fs, f.inodeNum, f.inode, MaxBlocks(|fs.files[f.inodeNum]|, fs.geo.blockSize), fs.files[f.inodeNum],
                    Vol(fs.dev))
            && HandlesOk(Vol(fs.dev), fs.geo, fs.openFiles, fs.files)
  {
    hide Reliable, Vol, AllocOk, Editing, Stored, HandlesOk, VolumeOk;
    HandleExists(Vol(fs.dev), fs.geo, fs.openFiles, fs.files, fd);
    EditOpen(Vol(fs.dev), fs.geo, fs.owner, fs.files, fs.openFiles[fd].inodeNum);
  }

  // ---------- the access mode ----------

  const O_RDONLY: u32 := 1
  const O_WRONLY: u32 := 2
  const O_RDWR: u32 := 3

  /** What the caller of ext2_open asked for. */
  predicate OpenedForReading(flags: u32) { flags % 4 == O_RDONLY || flags % 4 == O_RDWR }

  predicate OpenedForWriting(flags: u32) { flags % 4 == O_WRONLY || flags % 4 == O_RDWR }

  /** The test of ext2_write: `flags & (EXT2_O_WRONLY | EXT2_O_RDWR)`, any of the two low bits. */
  predicate Writable(flags: u32) {
    Bit(flags, 0) || Bit(flags, 1)
  }

  /** The test of ext2_read: `(flags & EXT2_O_WRONLY) && !(flags & EXT2_O_RDWR)`. */
  predicate ReadRefused(flags: u32) {
    Bit(flags, 1) && !(Bit(flags, 0) || Bit(flags, 1))
  }

  lemma LowBits(flags: u32)
    ensures Bit(flags, 0) <==> flags % 4 == 1 || flags % 4 == 3
    ensures Bit(flags, 1) <==> flags % 4 == 2 || flags % 4 == 3
  {
    hide Bit;
    BitZero(flags);
    BitOne(flags);
    TwoDigits(flags);
  }

  lemma BitZero(n: nat)
    ensures Bit(n, 0) <==> n % 2 == 1
  {
  }

  lemma BitOne(n: nat)
    ensures Bit(n, 1) <==> n / 2 % 2 == 1
  {
    var half := n / 2;
    BitZero(half);
    assert Bit(n, 1) == Bit(half, 0);
  }

  lemma TwoDigits(n: nat)
    ensures n % 4 == 2 * (n / 2 % 2) + n % 2
  {
    var q, r := n / 4, n % 4;
    assert n == 2 * (2 * q + r / 2) + r % 2;
    assert n / 2 == 2 * q + r / 2 && n % 2 == r % 2;
  }

  /** Writing is refused exactly where it was not asked for, if and only if the file was not opened read-only. */
  lemma WriteModeKept(flags: u32)
    ensures (!Writable(flags) <==> !OpenedForWriting(flags)) <==> flags % 4 != O_RDONLY
  {
    hide Bit;
    LowBits(flags);
  }

  /** Reading is never refused, so it is exactly where it was not asked for if and only if it was asked for. */
  lemma ReadModeKept(flags: u32)
    ensures !ReadRefused(flags)
    ensures (ReadRefused(flags) <==> !OpenedForReading(flags)) <==> flags % 4 != O_WRONLY && flags % 4 != 0
  {
  }

  /** A handle opened read-only can be written, and one opened write-only can be read. */
  lemma ModesOverlap()
    ensures Writable(O_RDONLY) && !OpenedForWriting(O_RDONLY)
    ensures !ReadRefused(O_WRONLY) && !OpenedForReading(O_WRONLY)
  {
    WriteModeKept(O_RDONLY);
    ReadModeKept(O_WRONLY);
  }

  // ---------- writing ----------

  /** The handles are the same but for the inode copy and the position of `fd`. */
  predicate Moved(handles: seq<OpenFile>, handles': seq<OpenFile>, fd: nat, position: nat) {
    && |handles'| == |handles| && fd < |handles| && position < 0x1_0000_0000_0000_0000
    && handles' == handles[fd := handles[fd].(inode := handles'[fd].inode, position := position)]
  }

  /** The inode of a file that was written: `i_blocks` counts the sectors of the blocks its size needs more. */
  ghost predicate InodeWrote(i: Inode, j: Inode, len: nat, bs: nat) {
    && bs > 0 && j.size == len && MaxBlocks(i.size, bs) <= MaxBlocks(j.size, bs)
    && j == i.(size := j.size, block := j.block, mtime := 0,
               blocks := Wrap32(i.blocks + Product(MaxBlocks(j.size, bs) - MaxBlocks(i.size, bs), bs / 512)))
  }

  /**
   ext2_write. It refuses exactly when unmounted or when buffer, handle or mode
   are wrong. Otherwise the file's bytes from the position on become the first
   `r` bytes of the buffer, other files keep theirs, and fewer than `size` bytes
   are written only when the volume is full or the driver's size limit is reached.
   */
  method WriteFile(fs: Fs, fd: int, buffer: array?<byte>, size: u64) returns (r: int)
    requires fs.Valid() && (buffer != null ==> size <= buffer.Length && buffer != fs.dev.ioBuffer)
    modifies fs`groupFree, fs`superFree, fs`owner, fs`openFiles, fs`files
    modifies fs.dev`transfers, fs.dev`cache, fs.dev`pageRequests, fs.dev`sectors, fs.dev.ioBuffer
    ensures fs.Valid() && -1 <= r <= size
    ensures r == -1 <==>
              !fs.dev.mounted || buffer == null || !Usable(old(fs.openFiles), fd) ||
              !Writable(old(fs.openFiles)[fd].flags)
    ensures r == -1 ==>
              fs.files == old(fs.files) && fs.openFiles == old(fs.openFiles) && fs.dev.sectors == old(fs.dev.sectors)
    ensures r == -1 ==> fs.superFree == old(fs.superFree) && fs.groupFree == old(fs.groupFree)
    ensures old(FsOk(fs)) ==> FsOk(fs) && HeadsKept(old(Vol(fs.dev)), Vol(fs.dev), fs.geo)
    ensures old(FsOk(fs)) && r >= 0 ==>
              var f := old(fs.openFiles)[fd];
              && f.inodeNum in old(fs.files) && f.position <= |old(fs.files)[f.inodeNum]|
              && fs.files == old(fs.files)[f.inodeNum := Overlay(old(fs.files)[f.inodeNum], f.position, buffer[..r])]
              && Moved(old(fs.openFiles), fs.openFiles, fd, f.position + r)
              && InodeWrote(f.inode, fs.openFiles[fd].inode, |fs.files[f.inodeNum]|, fs.geo.blockSize)
              && (r < size ==> fs.superFree == 0 || f.position + r >= SizeLimit(fs.geo.blockSize))
  {
    hide Reliable, Vol, AllocOk, Editing, Stored, HandlesOk, FsOk, Overlay, Busy, Written, MaxBlocks, HeadsKept,
         InodeWrote, Counted;
    ghost var ok := FsOk(fs);
    if ok {
      FsVolume(fs);
    }
    if !fs.dev.mounted || buffer == null || !Usable(fs.openFiles, fd) {
      return -1;
    }
    if !Writable(fs.openFiles[fd].flags) {
      return -1;
    }
    var file, buf := fs.openFiles[fd], buffer[..size];
    ghost var v0, ino := Vol(fs.dev), file.inodeNum;
    ghost var data := if ok && ino in fs.files then fs.files[ino] else [];
    if ok {
      CallStarts(fs, fd);
    }
    ghost var handles := fs.openFiles;
    var w, inode, count := WriteLoop(fs, file.inode, file.position, buf, ino, data, v0);
    assert buf[..w] == buffer[..w];
    if ok {
      WrittenSize(fs, ino, inode, count, data, v0, file.position, buf, w);
      WroteInode(fs, file.inode, inode, count, data, Overlay(data, file.position, buf[..w]));
    }
    var position := Wrap64(file.position + w);
    var size' := if position > inode.size then Wrap32(position) else inode.size;
    var inode' := inode.(size := size', mtime := 0);
    WriteBack(fs, fd, inode', position, inode, count, if ok then Overlay(data, file.position, buf[..w]) else [], v0);
    r := w;
  }

  lemma WroteInode(fs: Fs, i: Inode, inode: Inode, count: nat, data: seq<byte>, data': seq<byte>)
    requires fs.geo.blockSize == fs.dev.blockSize && BlockSizeOk(fs.dev.blockSize)
    requires |data| == i.size && |data'| < 0x1_0000_0000 && count == MaxBlocks(|data'|, fs.geo.blockSize)
    requires inode == i.(block := inode.block, blocks := inode.blocks)
    requires Counted(fs, i, inode, MaxBlocks(|data|, fs.geo.blockSize), count)
    ensures InodeWrote(i, inode.(size := |data'|, mtime := 0), |data'|, fs.geo.blockSize)
  {
    hide MaxBlocks, Wrap32;
  }

  /** Position and size of the file once the loop has ended. */
  lemma WrittenSize(fs: Fs, ino: u32, inode: Inode, count: nat, data: seq<byte>, v0: seq<Block>, p: nat, buf: seq<byte>,
                    w: nat)
    requires Written(fs, ino, inode, count, data, v0, p, buf, w)
    ensures p <= |data| && w <= |buf| && Wrap64(p + w) == p + w && BlockSizeOk(fs.geo.blockSize)
    ensures |Overlay(data, p, buf[..w])| == if p + w > inode.size then Wrap32(p + w) else inode.size
    ensures p + w <= |Overlay(data, p, buf[..w])| && |Overlay(data, p, buf[..w])| + fs.geo.blockSize <= 0x1_0000_0000
    ensures w < |buf| ==> fs.superFree == 0 || p + w >= SizeLimit(fs.geo.blockSize)
    ensures count == MaxBlocks(|Overlay(data, p, buf[..w])|, fs.geo.blockSize)
    ensures Busy(fs, ino, inode, count, Overlay(data, p, buf[..w]), v0)
  {
    hide Busy;
  }

  // ---------- reading ----------

  /** A piece of one block of a file. */
  lemma ReadChunk(vol: seq<Block>, g: Geometry, owner: Owners, gf: seq<nat>, sf: nat, files: Files, ino: u32,
                  inode: Inode, count: nat, data: seq<byte>, v0: seq<Block>, idx: nat, off: nat, len: nat)
    requires AllocOk(vol, g, gf, sf) && Editing(vol, g, owner, files, ino, inode, count, data, v0)
    requires idx < count && off + len <= g.blockSize && idx * g.blockSize + off + len <= |data|
    ensures var b := BlockOf(vol, inode, idx, Fanout(g.blockSize));
            && 0 < b < |vol| && |vol[b]| == g.blockSize && MapOk(vol, inode, idx, Fanout(g.blockSize))
            && vol[b][off .. off + len] == data[idx * g.blockSize + off ..][..len]
  {
    hide AllocOk, Rest, BlockOf, Holds, MapOk;
    var bs := g.blockSize;
    EditMapped(vol, g, owner, files, ino, inode, count, data, v0, idx);
    var b := BlockOf(vol, inode, idx, Fanout(bs));
    BlockLength(vol, g, gf, sf, b);
    var s, t := vol[b][off .. off + len], data[idx * bs + off ..][..len];
    forall k: nat | k < len ensures s[k] == t[k] {
      ReadByte(vol, owner, ino, inode, count, data, bs, idx, off + k);
    }
  }

  lemma ReadByte(vol: seq<Block>, owner: Owners, ino: u32, inode: Inode, count: nat, data: seq<byte>, bs: nat, idx: nat,
                 k: nat)
    requires InodeOk(inode) && BlockSizeOk(bs) && Holds(vol, owner, ino, inode, count, data, bs)
    requires k < bs && idx * bs + k < |data|
    requires BlockOf(vol, inode, idx, Fanout(bs)) < |vol| && |vol[BlockOf(vol, inode, idx, Fanout(bs))]| == bs
    ensures vol[BlockOf(vol, inode, idx, Fanout(bs))][k] == data[idx * bs + k]
  {
    hide BlockOf, Covered, SingleOwned;
    InBlock(idx * bs + k, idx, bs);
    assert ByteAt(vol, inode, idx * bs + k, bs) == data[idx * bs + k];
  }

  /** A read of `want` bytes from `p` after `got` bytes, about to go on at offset `off` of block `idx`. */
  ghost predicate Reading(fs: Fs, ino: u32, inode: Inode, data: seq<byte>, v0: seq<Block>, p: nat, want: nat, got: nat,
                          idx: nat, off: nat)
    reads fs, fs.dev
  {
    && BlockSizeOk(fs.geo.blockSize) && inode.size == |data| && |data| + fs.geo.blockSize <= 0x1_0000_0000
    && got <= want && p + want <= |data|
    && (got < want ==> p + got == idx * fs.geo.blockSize + off)
    && Busy(fs, ino, inode, MaxBlocks(|data|, fs.geo.blockSize), data, v0)
  }

  lemma ReadingGoesOn(size: u32, bs: nat, p: nat, want: nat, got: nat, idx: u32, off: nat)
    requires BlockSizeOk(bs) && size + bs <= 0x1_0000_0000 && p + want <= size && got < want && off < bs
    requires p + got == idx * bs + off
    ensures idx < MaxBlocks(size, bs) && Wrap32(idx + 1) == idx + 1 && (idx + 1) * bs == idx * bs + bs
  {
    CeilBlocks(size, bs);
    if idx >= MaxBlocks(size, bs) {
      assert false;
    }
  }

  /** The buffer `now` starts with `got` bytes of `data` from `p` on and ends as `was` did. */
  ghost predicate Filled(now: seq<byte>, was: seq<byte>, got: nat, data: seq<byte>, p: nat, good: bool) {
    && |now| == |was| && got <= |was| && now[got..] == was[got..]
    && (good ==> p + got <= |data| && now[..got] == data[p..p + got])
  }

  lemma FilledMore(now: seq<byte>, was: seq<byte>, got: nat, data: seq<byte>, p: nat, good: bool, t: seq<byte>,
                   next: seq<byte>)
    requires Filled(now, was, got, data, p, good) && got + |t| <= |was|
    requires good ==> p + got + |t| <= |data| && t == data[p + got..][..|t|]
    requires next == now[..got] + t + now[got + |t|..]
    ensures Filled(next, was, got + |t|, data, p, good)
  {
    assert next[got + |t|..] == now[got..][|t|..] && was[got + |t|..] == was[got..][|t|..];
    assert next[..got + |t|] == now[..got] + t;
    assert good ==> data[p..p + (got + |t|)] == data[p..p + got] + data[p + got..][..|t|];
  }

  /** The loop of ext2_read. */
  method ReadLoop(fs: Fs, inode: Inode, p: nat, want: nat, buffer: array<byte>, ghost ino: u32, ghost data: seq<byte>,
                  ghost v0: seq<Block>)
    returns (got: nat)
    requires fs.Valid() && InodeOk(inode) && want <= buffer.Length && buffer != fs.dev.ioBuffer
    modifies fs.dev`transfers, fs.dev`cache, fs.dev`pageRequests, fs.dev.ioBuffer, buffer
    ensures fs.Valid() && got <= want
    ensures Filled(buffer[..], old(buffer[..]), got, data, p,
                   old(Reading(fs, ino, inode, data, v0, p, want, 0, Wrap32(p / fs.geo.blockSize),
                               p % fs.geo.blockSize)))
    ensures old(Reading(fs, ino, inode, data, v0, p, want, 0, Wrap32(p / fs.geo.blockSize), p % fs.geo.blockSize)) ==>
              got == want && Busy(fs, ino, inode, MaxBlocks(|data| % 0x1_0000_0000, fs.geo.blockSize), data, v0)
  {
    hide *;
    var bs := BlockSizeOf(fs);
    var idx: u32, off: nat := Wrap32(p / bs), p % bs;
    got := 0;
    ghost var good := Reading(fs, ino, inode, data, v0, p, want, 0, idx, off);
    FilledNone(fs, ino, inode, data, v0, p, want, idx, off, buffer[..]);
    while got < want
      invariant fs.Valid() && got <= want && off < bs
      invariant good ==> Reading(fs, ino, inode, data, v0, p, want, got, idx, off)
      invariant Filled(buffer[..], old(buffer[..]), got, data, p, good)
      decreases want - got
    {
      var len := if bs - off > want - got then want - got else bs - off;
      var ok := ReadStep(fs, inode, idx, off, len, buffer, ino, data, v0, p, want, got, good, old(buffer[..]));
      if !ok {
        return;
      }
      got, idx, off := got + len, Wrap32(idx + 1), 0;
    }
    if good {
      ReadingEnds(fs, ino, inode, data, v0, p, want, got, idx, off);
    }
  }

  method BlockSizeOf(fs: Fs) returns (bs: nat)
    requires fs.Valid()
    ensures BlockSizeOk(bs) && bs > 0 && bs == fs.dev.blockSize == fs.geo.blockSize
            && fs.dev.ioBuffer.Length == IO_BUFFER_SIZE
    ensures fs.Valid()
  {
    bs := fs.dev.blockSize;
  }

  lemma FilledNone(fs: Fs, ino: u32, inode: Inode, data: seq<byte>, v0: seq<Block>, p: nat, want: nat, idx: nat,
                   off: nat, bytes: seq<byte>)
    ensures Filled(bytes, bytes, 0, data, p, Reading(fs, ino, inode, data, v0, p, want, 0, idx, off))
  {
    hide Busy;
    if p <= |data| {
      assert bytes[..0] == data[p..p + 0];
    }
  }

  lemma ReadingEnds(fs: Fs, ino: u32, inode: Inode, data: seq<byte>, v0: seq<Block>, p: nat, want: nat, got: nat,
                    idx: nat, off: nat)
    requires Reading(fs, ino, inode, data, v0, p, want, got, idx, off)
    ensures BlockSizeOk(fs.geo.blockSize) && got <= want && p + want <= |data| < 0x1_0000_0000
    ensures Busy(fs, ino, inode, MaxBlocks(|data|, fs.geo.blockSize), data, v0)
  {
    hide Busy;
  }

  /** One turn of the loop of ext2_read; a failure leaves the buffer as it is. */
  method ReadStep(fs: Fs, inode: Inode, idx: u32, off: nat, len: nat, buffer: array<byte>, ghost ino: u32,
                  ghost data: seq<byte>, ghost v0: seq<Block>, ghost p: nat, ghost want: nat, got: nat,
                  ghost good: bool,
                  ghost was: seq<byte>)
    returns (ok: bool)
    requires fs.Valid() && InodeOk(inode) && off < fs.geo.blockSize && got < want <= buffer.Length
             && buffer != fs.dev.ioBuffer
    requires len == if fs.geo.blockSize - off > want - got then want - got else fs.geo.blockSize - off
    requires good ==> Reading(fs, ino, inode, data, v0, p, want, got, idx, off)
    requires Filled(buffer[..], was, got, data, p, good)
    modifies fs.dev`transfers, fs.dev`cache, fs.dev`pageRequests, fs.dev.ioBuffer, buffer
    ensures fs.Valid() && (good ==> ok)
    ensures good ==> Reading(fs, ino, inode, data, v0, p, want, got + len, Wrap32(idx + 1), 0)
    ensures Filled(buffer[..], was, if ok then got + len else got, data, p, good)
  {
    hide Reliable, Vol, AllocOk, Editing, BlockOf, MapOk, MaxBlocks, Wrap32, Filled;
    ghost var now := buffer[..];
    if good {
      ReadingGoesOn(|data|, fs.geo.blockSize, p, want, got, idx, off);
      ReadChunk(Vol(fs.dev), fs.geo, fs.owner, fs.groupFree, fs.superFree, fs.files, ino, inode,
                MaxBlocks(|data|, fs.geo.blockSize), data, v0, idx, off, len);
    }
    var b;
    ok, b := GetBlock(fs.dev, inode, idx);
    if !ok {
      return;
    }
    ok := LoadBlock(fs.dev, b);
    if !ok {
      return;
    }
    var block := fs.dev.ioBuffer[..fs.dev.blockSize];
    var t := block[off .. off + len];
    FilledSize(now, was, got, data, p, good);
    Memcpy(buffer, got, t);
    FilledMore(now, was, got, data, p, good, t, buffer[..]);
  }

  lemma FilledSize(now: seq<byte>, was: seq<byte>, got: nat, data: seq<byte>, p: nat, good: bool)
    requires Filled(now, was, got, data, p, good)
    ensures |now| == |was|
  {
  }

  lemma ReadingStarts(fs: Fs, fd: nat, want: nat)
    requires FsOk(fs) && Usable(fs.openFiles, fd)
    requires fs.openFiles[fd].position + want <= fs.openFiles[fd].inode.size
    ensures var f := fs.openFiles[fd];
            && f.inodeNum in fs.files && BlockSizeOk(fs.geo.blockSize)
            && Reading(fs, f.inodeNum, f.inode, fs.files[f.inodeNum], Vol(fs.dev), f.position, want, 0,
                       Wrap32(f.position / fs.geo.blockSize), f.position % fs.geo.blockSize)
  {
    hide FsOk, Busy, HandlesOk, MaxBlocks;
    CallStarts(fs, fd);
    var f := fs.openFiles[fd];
    StartNumber(f.position, fs.geo.blockSize);
  }

  lemma StartNumber(p: nat, bs: nat)
    requires bs > 0 && p < 0x1_0000_0000
    ensures Wrap32(p / bs) == p / bs && p == p / bs * bs + p % bs
  {
  }

  /**
   ext2_read. The mode never refuses, because EXT2_O_RDWR shares a bit with
   EXT2_O_WRONLY. The call returns the file's bytes from the position on, at
   most `size` and never past the end, and moves the position behind them.
   The sum of position and size must not wrap around 64 bits.
   */
  method ReadFile(fs: Fs, fd: int, buffer: array?<byte>, size: u64) returns (r: int)
    requires fs.Valid() && (buffer != null ==> size <= buffer.Length && buffer != fs.dev.ioBuffer)
    modifies fs`openFiles, fs`files
    modifies fs.dev`transfers, fs.dev`cache, fs.dev`pageRequests, fs.dev`sectors, fs.dev.ioBuffer, buffer
    ensures fs.Valid() && -1 <= r <= size
    ensures r == -1 <==> !fs.dev.mounted || buffer == null || !Usable(old(fs.openFiles), fd)
    ensures r == -1 ==>
              fs.files == old(fs.files) && fs.openFiles == old(fs.openFiles) && fs.dev.sectors == old(fs.dev.sectors)
    ensures r == -1 && buffer != null ==> buffer[..] == old(buffer[..])
    ensures r >= 0 ==> buffer[r..] == old(buffer[..])[r..]
    ensures old(FsOk(fs)) && r == -1 ==> FsOk(fs) && HeadsKept(old(Vol(fs.dev)), Vol(fs.dev), fs.geo)
    ensures old(FsOk(fs)) && r >= 0 && old(fs.openFiles)[fd].position + size < 0x1_0000_0000_0000_0000 ==>
              var f := old(fs.openFiles)[fd];
              && FsOk(fs) && fs.files == old(fs.files) && HeadsKept(old(Vol(fs.dev)), Vol(fs.dev), fs.geo)
              && f.inodeNum in fs.files && f.position <= |fs.files[f.inodeNum]|
              && r == Min(size, |fs.files[f.inodeNum]| - f.position)
              && buffer[..r] == fs.files[f.inodeNum][f.position..f.position + r]
              && Moved(old(fs.openFiles), fs.openFiles, fd, f.position + r)
              && fs.openFiles[fd].inode == if f.position < |fs.files[f.inodeNum]| then f.inode.(atime := 0) else f.inode
  {
    hide Reliable, Vol, AllocOk, Editing, Stored, HandlesOk, FsOk, Busy, MaxBlocks, Reading, HeadsKept;
    if FsOk(fs) {
      FsVolume(fs);
    }
    if !fs.dev.mounted || buffer == null || !Usable(fs.openFiles, fd) {
      return -1;
    }
    var file := fs.openFiles[fd];
    if ReadRefused(file.flags) {
      return -1;
    }
    ghost var ok := FsOk(fs) && file.position + size < 0x1_0000_0000_0000_0000;
    if ok {
      CallStarts(fs, fd);
    }
    if file.position >= file.inode.size {
      assert buffer[..0] == [];
      return 0;
    }
    var want := if Wrap64(file.position + size) > file.inode.size then file.inode.size - file.position else size;
    r := ReadSome(fs, fd, buffer, want, ok);
  }

  /** The part of ext2_read after the checks. */
  method ReadSome(fs: Fs, fd: nat, buffer: array<byte>, want: nat, ghost ok: bool) returns (r: nat)
    requires fs.Valid() && fd < MAX_FILES && want <= buffer.Length && buffer != fs.dev.ioBuffer
    requires ok ==> FsOk(fs) && Usable(fs.openFiles,
                                       fd) && fs.openFiles[fd].position + want <= fs.openFiles[fd].inode.size
    modifies fs`openFiles, fs`files
    modifies fs.dev`transfers, fs.dev`cache, fs.dev`pageRequests, fs.dev`sectors, fs.dev.ioBuffer, buffer
    ensures fs.Valid() && r <= want && buffer[r..] == old(buffer[..])[r..]
    ensures ok ==>
              var f := old(fs.openFiles)[fd];
              && r == want && FsOk(fs) && fs.files == old(fs.files) && HeadsKept(old(Vol(fs.dev)), Vol(fs.dev), fs.geo)
              && f.inodeNum in fs.files && f.position + r <= |fs.files[f.inodeNum]|
              && buffer[..r] == fs.files[f.inodeNum][f.position..f.position + r]
              && Moved(old(fs.openFiles), fs.openFiles, fd, f.position + r)
              && fs.openFiles[fd].inode == f.inode.(atime := 0)
  {
    hide Reliable, Vol, AllocOk, Editing, Stored, HandlesOk, FsOk, Busy, MaxBlocks, Reading, HeadsKept;
    var file := fs.openFiles[fd];
    ghost var v0, ino := Vol(fs.dev), file.inodeNum;
    ghost var data := if ino in fs.files then fs.files[ino] else [];
    if ok {
      CallStarts(fs, fd);
      ReadingStarts(fs, fd, want);
    }
    r := ReadLoop(fs, file.inode, file.position, want, buffer, ino, data, v0);
    var inode' := file.inode.(atime := 0);
    WriteBack(fs, fd, inode', Wrap64(file.position + r), file.inode,
              MaxBlocks(|data| % 0x1_0000_0000, fs.geo.blockSize), data, v0);
  }

  // ---------- runs ----------

  /** What callers see: the contents of files, the position of each handle and the number of free blocks. */
  datatype Handle = Handle(ino: u32, flags: u32, position: nat, isOpen: bool)
  datatype Plain = Plain(files: Files, handles: seq<Handle>, free: nat)

  datatype Op = ReadCall(fd: int, size: u64) | WriteCall(fd: int, bytes: seq<byte>)
  datatype Answer = Refused | Got(bytes: seq<byte>) | Put(count: nat)

  function HandlesView(handles: seq<OpenFile>): (r: seq<Handle>)
    ensures |r| == |handles|
  {
    seq(|handles|, i requires 0 <= i < |handles| =>
      Handle(handles[i].inodeNum, handles[i].flags, handles[i].position, handles[i].isOpen))
  }

  ghost function View(fs: Fs): Plain
    reads fs
  {
    Plain(fs.files, HandlesView(fs.openFiles), fs.superFree)
  }

  /** Handles on files, with the position inside. */
  ghost predicate PlainOk(s: Plain) {
    forall i :: 0 <= i < |s.handles| && s.handles[i].isOpen ==>
      s.handles[i].ino in s.files && s.handles[i].position <= |s.files[s.handles[i].ino]|
  }

  ghost predicate Accepts(s: Plain, op: Op) {
    0 <= op.fd < |s.handles| && s.handles[op.fd].isOpen && (op.WriteCall? ==> Writable(s.handles[op.fd].flags))
  }

  /** One call on plain byte strings; a write stops short only when no block is free or at the size limit. */
  ghost predicate Step(s: Plain, op: Op, a: Answer, s': Plain, limit: nat)
    requires PlainOk(s)
  {
    if !Accepts(s, op) then a == Refused && s' == s
    else
      var h := s.handles[op.fd];
      var data := s.files[h.ino];
      match op
      case ReadCall(fd, size) =>
        var n := Min(size, |data| - h.position);
        a == Got(data[h.position .. h.position + n])
        && s' == s.(handles := s.handles[fd := h.(position := h.position + n)])
      case WriteCall(fd, bytes) =>
        && a.Put? && a.count <= |bytes|
        && s' == Plain(s.files[h.ino := Overlay(data, h.position, bytes[..a.count])],
                       s.handles[fd := h.(position := h.position + a.count)], s'.free)
        && (a.count < |bytes| ==> s'.free == 0 || h.position + a.count >= limit)
  }

  lemma ViewOk(fs: Fs)
    requires FsOk(fs)
    ensures PlainOk(View(fs)) && fs.Valid() && fs.dev.mounted && |View(fs).handles| == MAX_FILES
            && BlockSizeOk(fs.geo.blockSize) && BlockSizeOk(fs.dev.blockSize)
  {
    hide Vol, AllocOk, Stored, HandlesOk, Synced;
    forall i | 0 <= i < MAX_FILES && fs.openFiles[i].isOpen
      ensures fs.openFiles[i].inodeNum in fs.files && fs.openFiles[i].position <= |fs.files[fs.openFiles[i].inodeNum]|
    {
      HandleExists(Vol(fs.dev), fs.geo, fs.openFiles, fs.files, i);
    }
  }

  lemma MovedView(handles: seq<OpenFile>, handles': seq<OpenFile>, fd: nat, position: nat)
    requires Moved(handles, handles', fd, position)
    ensures HandlesView(handles') == HandlesView(handles)[fd := HandlesView(handles)[fd].(position := position)]
  {
  }

  /** The caller's buffer lies in the 64-bit address space, with room for a file position below its end. */
  predicate Sized(op: Op) {
    match op
    case ReadCall(_, size) => size < 0x1_0000_0000_0000_0000 - 0x1_0000_0000
    case WriteCall(_, bytes) => |bytes| < 0x1_0000_0000_0000_0000
  }

  /** What a call of a run has to show. */
  ghost predicate Called(fs: Fs, s: Plain, v0: seq<Block>, op: Op, a: Answer)
    reads fs, fs.dev
  {
    && FsOk(fs) && BlockSizeOk(fs.geo.blockSize) && PlainOk(s)
    && Step(s, op, a, View(fs), SizeLimit(fs.geo.blockSize)) && HeadsKept(v0, Vol(fs.dev), fs.geo)
  }

  method CallRead(fs: Fs, fd: int, size: u64) returns (a: Answer)
    requires fs.Valid() && Sized(ReadCall(fd, size))
    modifies fs`openFiles, fs`files
    modifies fs.dev`transfers, fs.dev`cache, fs.dev`pageRequests, fs.dev`sectors, fs.dev.ioBuffer
    ensures fs.Valid()
    ensures old(FsOk(fs)) ==> Called(fs, old(View(fs)), old(Vol(fs.dev)), ReadCall(fd, size), a)
  {
    hide FsOk, Reliable, Vol, AllocOk, HeadsKept;
    ghost var ok := FsOk(fs);
    if ok {
      ViewOk(fs);
      PositionSmall(fs);
    }
    var buffer := new byte[size](_ => 0);
    var r := ReadFile(fs, fd, buffer, size);
    if r == -1 {
      a := Refused;
    } else {
      a := Got(buffer[..r]);
      if ok {
        MovedView(old(fs.openFiles), fs.openFiles, fd, old(fs.openFiles)[fd].position + r);
      }
    }
  }

  method CallWrite(fs: Fs, fd: int, bytes: seq<byte>) returns (a: Answer)
    requires fs.Valid() && Sized(WriteCall(fd, bytes))
    modifies fs`groupFree, fs`superFree, fs`owner, fs`openFiles, fs`files
    modifies fs.dev`transfers, fs.dev`cache, fs.dev`pageRequests, fs.dev`sectors, fs.dev.ioBuffer
    ensures fs.Valid()
    ensures old(FsOk(fs)) ==> Called(fs, old(View(fs)), old(Vol(fs.dev)), WriteCall(fd, bytes), a)
  {
    hide FsOk, Overlay, Reliable, Vol, AllocOk, HeadsKept;
    ghost var ok := FsOk(fs);
    if ok {
      ViewOk(fs);
    }
    var buffer := new byte[|bytes|](i requires 0 <= i < |bytes| => bytes[i]);
    assert buffer[..] == bytes;
    var r := WriteFile(fs, fd, buffer, |bytes|);
    if r == -1 {
      a := Refused;
    } else {
      a := Put(r);
      if ok {
        assert buffer[..r] == bytes[..r];
        MovedView(old(fs.openFiles), fs.openFiles, fd, old(fs.openFiles)[fd].position + r);
      }
    }
  }

  /** One call of a run. */
  method Call(fs: Fs, op: Op) returns (a: Answer)
    requires fs.Valid() && Sized(op)
    modifies fs`groupFree, fs`superFree, fs`owner, fs`openFiles, fs`files
    modifies fs.dev`transfers, fs.dev`cache, fs.dev`pageRequests, fs.dev`sectors, fs.dev.ioBuffer
    ensures fs.Valid()
    ensures old(FsOk(fs)) ==> Called(fs, old(View(fs)), old(Vol(fs.dev)), op, a)
  {
    hide FsOk, Called, View, Vol;
    match op {
      case ReadCall(fd, size) => a := CallRead(fs, fd, size);
      case WriteCall(fd, bytes) => a := CallWrite(fs, fd, bytes);
    }
  }

  lemma CalledStep(fs: Fs, s: Plain, v0: seq<Block>, op: Op, a: Answer)
    requires Called(fs, s, v0, op, a)
    ensures FsOk(fs) && BlockSizeOk(fs.geo.blockSize) && PlainOk(s)
    ensures Step(s, op, a, View(fs), SizeLimit(fs.geo.blockSize)) && HeadsKept(v0, Vol(fs.dev), fs.geo)
  {
  }

  lemma PositionSmall(fs: Fs)
    requires FsOk(fs)
    ensures forall fd: nat :: Usable(fs.openFiles, fd) ==> fs.openFiles[fd].position < 0x1_0000_0000
  {
    hide FsOk, Busy, HandlesOk, MaxBlocks;
    forall fd: nat | Usable(fs.openFiles, fd) ensures fs.openFiles[fd].position < 0x1_0000_0000 {
      CallStarts(fs, fd);
    }
  }

  /**
   Any run of reads and writes on any handles: the driver's answers are those of
   plain byte strings with positions, and every state in between is in order.
   */
  method Run(fs: Fs, ops: seq<Op>) returns (answers: seq<Answer>, ghost states: seq<Plain>)
    requires FsOk(fs)
    requires forall i :: 0 <= i < |ops| ==> Sized(ops[i])
    modifies fs, fs.dev, fs.dev.ioBuffer
    ensures FsOk(fs) && BlockSizeOk(fs.geo.blockSize)
    ensures |answers| == |ops| && |states| == |ops| + 1 && states[0] == old(View(fs)) && states[|ops|] == View(fs)
    ensures forall i :: 0 <= i < |ops| ==>
              PlainOk(states[i]) && Step(states[i], ops[i], answers[i], states[i + 1], SizeLimit(fs.geo.blockSize))
  {
    hide *;
    ViewOk(fs);
    answers, states := [], [View(fs)];
    for n := 0 to |ops|
      invariant FsOk(fs) && BlockSizeOk(fs.geo.blockSize)
      invariant |answers| == n && |states| == n + 1 && states[0] == old(View(fs)) && states[n] == View(fs)
      invariant forall i :: 0 <= i < n ==>
                  PlainOk(states[i]) && Step(states[i], ops[i], answers[i], states[i + 1], SizeLimit(fs.geo.blockSize))
    {
      ViewOk(fs);
      ghost var v0 := Vol(fs.dev);
      var a := Call(fs, ops[n]);
      CalledStep(fs, states[n], v0, ops[n], a);
      answers, states := answers + [a], states + [View(fs)];
    }
  }
}
