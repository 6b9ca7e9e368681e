/**
 On-disk layout of EXT2 ("The Second Extended File System: Internal Layout",
 sections "Inode Table" and "Locating an Inode") as kernel/src/fs/ext2.c reads
 and writes it: the inode record, and the group, block and slot of an inode.
 */
module InodeTable {
  import opened Bytes
  import opened BlockCache
  import opened Volume

  const INODE_BYTES: nat := 128
  const POINTERS: nat := 15

  /** The inode record; `tail` holds the words after the block pointers. */
  datatype Inode = Inode(mode: u16, uid: u16, size: u32, atime: u32, ctime: u32, mtime: u32, dtime: u32, gid: u16,
                         links: u16, blocks: u32, flags: u32, osd1: u32, block: seq<u32>, tail: seq<u32>)

  predicate InodeOk(i: Inode) {
    |i.block| == POINTERS && |i.tail| == 7
  }

  /** What reading and writing leave alone: all but size, pointers, block count and two times. */
  predicate SameHead(i: Inode, j: Inode) {
    i == j.(size := i.size, blocks := i.blocks, block := i.block, atime := i.atime, mtime := i.mtime)
  }

  function InodeWords(i: Inode): (w: seq<u32>)
    requires InodeOk(i)
    ensures |w| == 32
  {
    [i.mode + 0x1_0000 * i.uid, i.size, i.atime, i.ctime, i.mtime, i.dtime, i.gid + 0x1_0000 * i.links, i.blocks,
     i.flags, i.osd1] + i.block + i.tail
  }

  function WordsInode(w: seq<u32>): (i: Inode)
    requires |w| == 32
    ensures InodeOk(i)
  {
    Inode(w[0] % 0x1_0000, w[0] / 0x1_0000, w[1], w[2], w[3], w[4], w[5], w[6] % 0x1_0000, w[6] / 0x1_0000, w[7], w[8],
          w[9], w[10..25], w[25..])
  }

  lemma InodeRoundTrip(i: Inode)
    requires InodeOk(i)
    ensures WordsInode(InodeWords(i)) == i
  {
    var w := InodeWords(i);
    assert w[10..25] == i.block && w[25..] == i.tail;
  }

  /** Where each field of the record lies, in bytes. */
  lemma FieldOffsets(s: seq<byte>)
    requires |s| == INODE_BYTES
    ensures var i := WordsInode(Words(s));
            && i.mode == U16(s[0..2]) && i.uid == U16(s[2..4]) && i.size == U32(s[4..8]) && i.atime == U32(s[8..12])
            && i.ctime == U32(s[12..16]) && i.mtime == U32(s[16..20]) && i.dtime == U32(s[20..24])
            && i.gid == U16(s[24..26]) && i.links == U16(s[26..28]) && i.blocks == U32(s[28..32])
            && i.flags == U32(s[32..36]) && i.osd1 == U32(s[36..40])
            && (forall k: nat :: k < 15 ==> i.block[k] == U32(s[40 + 4 * k..44 + 4 * k]))
            && (forall k: nat :: k < 7 ==> i.tail[k] == U32(s[100 + 4 * k..104 + 4 * k]))
  {
    hide U16, U32;
    var w, i := Words(s), WordsInode(Words(s));
    Halves(s[0..4]);
    Halves(s[24..28]);
    assert s[0..4][..2] == s[0..2] && s[0..4][2..] == s[2..4];
    assert s[24..28][..2] == s[24..26] && s[24..28][2..] == s[26..28];
    forall k: nat | k < 15 ensures i.block[k] == U32(s[40 + 4 * k..44 + 4 * k]) {
      assert i.block[k] == w[10 + k] && 4 * (10 + k) == 40 + 4 * k;
    }
    forall k: nat | k < 7 ensures i.tail[k] == U32(s[100 + 4 * k..104 + 4 * k]) {
      assert i.tail[k] == w[25 + k] && 4 * (25 + k) == 100 + 4 * k;
    }
  }

  /** Placement of the volume's metadata, fixed at mount. */
  datatype Geometry = Geometry(blockSize: nat, blocksPerGroup: u32, inodesPerGroup: u32, inodeSize: nat,
                               firstDataBlock: u32, bitmaps: seq<u32>, tables: seq<u32>)

  predicate GeometryOk(g: Geometry) {
    && BlockSizeOk(g.blockSize)
    && INODE_BYTES <= g.inodeSize <= g.blockSize
    && 0 < g.inodesPerGroup
    && |g.tables| == |g.bitmaps|
  }

  function InodesPerBlock(g: Geometry): (n: nat)
    requires GeometryOk(g)
    ensures n > 0 && n * g.inodeSize <= g.blockSize < (n + 1) * g.inodeSize
  {
    g.blockSize / g.inodeSize
  }

  /** Group, block inside the group's table, and slot inside the block. */
  function GroupOf(g: Geometry, ino: u32): nat
    requires GeometryOk(g) && ino > 0
  {
    (ino - 1) / g.inodesPerGroup
  }

  function TableBlock(g: Geometry, ino: u32): nat
    requires GeometryOk(g) && ino > 0
  {
    (ino - 1) % g.inodesPerGroup / InodesPerBlock(g)
  }

  function SlotOffset(g: Geometry, ino: u32): (off: nat)
    requires GeometryOk(g) && ino > 0
  {
    (ino - 1) % g.inodesPerGroup % InodesPerBlock(g) * g.inodeSize
  }

  /** The number of an inode from its group, block and slot: inodes are counted from 1. */
  lemma InodeNumber(g: Geometry, ino: u32)
    requires GeometryOk(g) && ino > 0
    ensures var slot := SlotOffset(g, ino) / g.inodeSize;
            && ino == GroupOf(g, ino) * g.inodesPerGroup + TableBlock(g, ino) * InodesPerBlock(g) + slot + 1
            && SlotOffset(g, ino) % g.inodeSize == 0 && slot < InodesPerBlock(g)
            && TableBlock(g, ino) * InodesPerBlock(g) + slot < g.inodesPerGroup
  {
    var n, ipb := g.inodesPerGroup, InodesPerBlock(g);
    var index := (ino - 1) % n;
    assert ino - 1 == (ino - 1) / n * n + index;
    assert index == index / ipb * ipb + index % ipb;
    ModOfSum(index % ipb, g.inodeSize, 0);
  }

  predicate InodeExists(g: Geometry, ino: u32)
    requires GeometryOk(g)
  {
    ino > 0 && GroupOf(g, ino) < |g.tables|
  }

  function BlockOfInode(g: Geometry, ino: u32): u32
    requires GeometryOk(g) && InodeExists(g, ino)
  {
    Wrap32(g.tables[GroupOf(g, ino)] + TableBlock(g, ino))
  }

  /** Number of blocks of one group's table. */
  function TableLength(g: Geometry): nat
    requires GeometryOk(g)
  {
    (g.inodesPerGroup + InodesPerBlock(g) - 1) / InodesPerBlock(g)
  }

  /** The tables of all groups lie on the volume and do not overlap. */
  ghost predicate TablesOk(g: Geometry, blocks: nat)
    requires GeometryOk(g)
  {
    && blocks <= 0x1_0000_0000
    && (forall h :: 0 <= h < |g.tables| ==> g.tables[h] + TableLength(g) <= blocks)
    && (forall h, k :: 0 <= h < k < |g.tables| ==>
          g.tables[h] + TableLength(g) <= g.tables[k] || g.tables[k] + TableLength(g) <= g.tables[h])
  }

  lemma SlotFits(g: Geometry, ino: u32)
    requires GeometryOk(g) && ino > 0
    ensures SlotOffset(g, ino) + g.inodeSize <= g.blockSize
    ensures TableBlock(g, ino) < TableLength(g)
  {
    var ipb, index := InodesPerBlock(g), (ino - 1) % g.inodesPerGroup;
    SlotBelow(index % ipb, ipb, g.inodeSize, g.blockSize);
    DivBelowCeil(index, g.inodesPerGroup, ipb);
  }

  lemma SlotBelow(slot: nat, ipb: nat, size: nat, bs: nat)
    requires size > 0 && ipb == bs / size && slot < ipb
    ensures slot * size + size <= bs
  {
    assert (slot + 1) * size <= ipb * size <= bs;
  }

  lemma DivBelowCeil(x: nat, n: nat, m: nat)
    requires x < n && m > 0
    ensures x / m < (n + m - 1) / m
  {
    var q := (n + m - 1) / m;
    assert q * m + (n + m - 1) % m == n + m - 1;
    assert q * m >= n;
    if x / m >= q {
      assert false;
    }
  }

  // ---------- inodes on a volume ----------

  ghost predicate VolumeOk(vol: seq<Block>, g: Geometry) {
    && GeometryOk(g) && TablesOk(g, |vol|)
    && forall b :: 0 <= b < |vol| ==> |vol[b]| == g.blockSize
  }

  lemma InodePlace(g: Geometry, blocks: nat, ino: u32)
    requires GeometryOk(g) && TablesOk(g, blocks) && InodeExists(g, ino)
    ensures BlockOfInode(g, ino) == g.tables[GroupOf(g, ino)] + TableBlock(g, ino) < blocks
    ensures SlotOffset(g, ino) + INODE_BYTES <= g.blockSize
  {
    hide SlotOffset, TableBlock, TableLength;
    SlotFits(g, ino);
  }

  ghost function InodeAt(vol: seq<Block>, g: Geometry, ino: u32): (i: Inode)
    requires VolumeOk(vol, g) && InodeExists(g, ino)
    ensures InodeOk(i)
  {
    InodePlace(g, |vol|, ino);
    var off := SlotOffset(g, ino);
    WordsInode(Words(vol[BlockOfInode(g, ino)][off .. off + INODE_BYTES]))
  }

  /** The volume with one inode record overwritten. */
  ghost function WithInode(vol: seq<Block>, g: Geometry, ino: u32, i: Inode): (r: seq<Block>)
    requires VolumeOk(vol, g) && InodeExists(g, ino) && InodeOk(i)
    ensures |r| == |vol|
  {
    InodePlace(g, |vol|, ino);
    var b := BlockOfInode(g, ino);
    vol[b := Splice(vol[b], SlotOffset(g, ino), Unwords(InodeWords(i)))]
  }

  /** Distinct inodes have different blocks or slots that do not overlap. */
  lemma SlotsDisjoint(g: Geometry, blocks: nat, n: u32, m: u32)
    requires GeometryOk(g) && TablesOk(g, blocks) && InodeExists(g, n) && InodeExists(g, m) && n != m
    requires BlockOfInode(g, n) == BlockOfInode(g, m)
    ensures SlotOffset(g, n) + INODE_BYTES <= SlotOffset(g, m) || SlotOffset(g, m) + INODE_BYTES <= SlotOffset(g, n)
  {
    hide TablesOk, BlockOfInode;
    SameGroup(g, blocks, n, m);
    var ipb := InodesPerBlock(g);
    var a, b := (n - 1) % g.inodesPerGroup, (m - 1) % g.inodesPerGroup;
    SameQuotient(n - 1, m - 1, g.inodesPerGroup);
    SameQuotient(a, b, ipb);
    SlotGap(a % ipb, b % ipb, g.inodeSize);
  }

  lemma SameQuotient(x: nat, y: nat, m: nat)
    requires m > 0 && x != y && x / m == y / m
    ensures x % m != y % m
  {
    assert x == x / m * m + x % m && y == y / m * m + y % m;
  }

  lemma SlotGap(x: nat, y: nat, size: nat)
    requires x != y
    ensures x * size + size <= y * size || y * size + size <= x * size
  {
    if x < y {
      assert (x + 1) * size <= y * size;
    } else {
      assert (y + 1) * size <= x * size;
    }
  }

  /** Inodes in one block belong to one group and to one block of its table. */
  lemma SameGroup(g: Geometry, blocks: nat, n: u32, m: u32)
    requires GeometryOk(g) && TablesOk(g, blocks) && InodeExists(g, n) && InodeExists(g, m)
    requires BlockOfInode(g, n) == BlockOfInode(g, m)
    ensures GroupOf(g, n) == GroupOf(g, m) && TableBlock(g, n) == TableBlock(g, m)
  {
    hide GroupOf, TableBlock, TableLength;
    InodePlace(g, blocks, n);
    InodePlace(g, blocks, m);
    SlotFits(g, n);
    SlotFits(g, m);
  }

  /** Writing an inode and reading any inode back. */
  lemma InodeWritten(vol: seq<Block>, g: Geometry, ino: u32, i: Inode, m: u32)
    requires VolumeOk(vol, g) && InodeExists(g, ino) && InodeExists(g, m) && InodeOk(i)
    ensures VolumeOk(WithInode(vol, g, ino, i), g)
    ensures InodeAt(WithInode(vol, g, ino, i), g, m) == if m == ino then i else InodeAt(vol, g, m)
  {
    hide BlockOfInode, SlotOffset, TablesOk, InodeExists, WordsInode, InodeWords, Unwords, Words;
    var vol' := WithInode(vol, g, ino, i);
    InodePlace(g, |vol|, ino);
    InodePlace(g, |vol|, m);
    var off, record := SlotOffset(g, m), Unwords(InodeWords(i));
    var b := BlockOfInode(g, m);
    if m == ino {
      assert vol'[b][off .. off + INODE_BYTES] == record;
      WordsUnwords(InodeWords(i));
      InodeRoundTrip(i);
    } else if b == BlockOfInode(g, ino) {
      SlotsDisjoint(g, |vol|, ino, m);
      assert vol'[b][off .. off + INODE_BYTES] == vol[b][off .. off + INODE_BYTES];
    }
  }

  /** The slice of the I/O buffer that holds the current block is spliced in place. */
  method SpliceBuffer(d: Device, off: nat, t: seq<byte>)
    requires d.Valid() && off + |t| <= d.blockSize
    modifies d.ioBuffer
    ensures d.ioBuffer[..d.blockSize] == Splice(old(d.ioBuffer[..d.blockSize]), off, t)
    ensures d.ioBuffer[d.blockSize..] == old(d.ioBuffer[d.blockSize..])
  {
    Memcpy(d.ioBuffer, off, t);
  }

  method ReadInode(d: Device, g: Geometry, ino: u32) returns (ok: bool, inode: Inode)
    requires d.Valid() && GeometryOk(g) && g.blockSize == d.blockSize
    modifies d`transfers, d`cache, d`pageRequests, d.ioBuffer
    ensures d.Valid() && InodeOk(inode)
    ensures !InodeExists(g, ino) ==> !ok
    ensures old(Reliable(d)) && VolumeOk(Vol(d), g) ==> Reliable(d) && (ok <==> InodeExists(g, ino))
    ensures old(Reliable(d)) && VolumeOk(Vol(d), g) && ok ==> inode == InodeAt(Vol(d), g, ino)
  {
    hide Reliable, VolumeOk, Vol, BlockOfInode, SlotOffset, WordsInode, Words;
    inode := Inode(0, 0, 0, 0, 0, 0, 0, 0, 0, 0, 0, 0, seq(POINTERS, i => 0), [0, 0, 0, 0, 0, 0, 0]);
    if !InodeExists(g, ino) {
      return false, inode;
    }
    var b := BlockOfInode(g, ino);
    if Reliable(d) && VolumeOk(Vol(d), g) {
      PlaceOnVolume(Vol(d), g, ino);
    }
    ok := LoadBlock(d, b);
    if ok {
      SlotFits(g, ino);
      var off := SlotOffset(g, ino);
      var block := d.ioBuffer[..d.blockSize];
      inode := WordsInode(Words(block[off .. off + INODE_BYTES]));
    }
  }

  lemma PlaceOnVolume(vol: seq<Block>, g: Geometry, ino: u32)
    requires VolumeOk(vol, g) && InodeExists(g, ino)
    ensures BlockOfInode(g, ino) < |vol|
  {
    InodePlace(g, |vol|, ino);
  }

  method WriteInode(d: Device, g: Geometry, ino: u32, inode: Inode) returns (ok: bool)
    requires d.Valid() && GeometryOk(g) && g.blockSize == d.blockSize && InodeOk(inode)
    modifies d`transfers, d`cache, d`pageRequests, d`sectors, d.ioBuffer
    ensures d.Valid() && |d.sectors| == |old(d.sectors)|
    ensures !InodeExists(g, ino) ==> !ok && d.sectors == old(d.sectors)
    ensures old(Reliable(d)) && old(VolumeOk(Vol(d), g)) ==> Reliable(d) && (ok <==> InodeExists(g, ino))
    ensures old(Reliable(d)) && old(VolumeOk(Vol(d), g)) && ok ==> Vol(d) == WithInode(old(Vol(d)), g, ino, inode)
  {
    hide Reliable, VolumeOk, Vol, BlockOfInode, SlotOffset, InodeWords, Unwords;
    if !InodeExists(g, ino) {
      return false;
    }
    var b := BlockOfInode(g, ino);
    if Reliable(d) && VolumeOk(Vol(d), g) {
      PlaceOnVolume(Vol(d), g, ino);
    }
    ok := LoadBlock(d, b);
    if ok {
      SlotFits(g, ino);
      SpliceBuffer(d, SlotOffset(g, ino), Unwords(InodeWords(inode)));
      ok := StoreBlock(d, b);
    }
  }
}
