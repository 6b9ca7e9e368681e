/**
 The block layer of the EXT2 driver (kernel/src/fs/ext2.c:46-133): a sector disk
 whose transfers may fail, a 32-entry write-through block cache, and the one
 I/O buffer through which everything passes.
 */
module BlockCache {
  import opened Bytes

  const SECTOR_SIZE: nat := 512
  const CACHE_SIZE: nat := 32
  const IO_BUFFER_SIZE: nat := 8192

  /** A cache page, once one has been allocated; only its first block of bytes is used. */
  datatype Page = NoPage | Page(bytes: seq<byte>)

  datatype CacheEntry = CacheEntry(blockNo: u32, data: Page, dirty: bool, valid: bool)

  predicate BlockSizeOk(bs: nat) {
    bs == 1024 || bs == 2048 || bs == 4096
  }

  // ---------- blocks as runs of sectors ----------

  ghost predicate SectorsOk(sectors: seq<seq<byte>>) {
    forall i :: 0 <= i < |sectors| ==> |sectors[i]| == SECTOR_SIZE
  }

  /** The bytes of `n` consecutive sectors. */
  function Gather(sectors: seq<seq<byte>>, first: nat, n: nat): seq<byte>
    requires first + n <= |sectors|
  {
    if n == 0 then [] else Gather(sectors, first, n - 1) + sectors[first + n - 1]
  }

  /** The sectors after the first `n` sector-sized pieces of `data` have been written from `first` on. */
  function Scatter(sectors: seq<seq<byte>>, first: nat, data: seq<byte>, n: nat): (r: seq<seq<byte>>)
    requires first + n <= |sectors| && n * SECTOR_SIZE <= |data|
    ensures |r| == |sectors|
  {
    if n == 0 then sectors
    else Scatter(sectors, first, data, n - 1)[first + n - 1 := data[(n - 1) * SECTOR_SIZE .. n * SECTOR_SIZE]]
  }

  lemma {:induction false} GatherLength(sectors: seq<seq<byte>>, first: nat, n: nat)
    requires SectorsOk(sectors) && first + n <= |sectors|
    ensures |Gather(sectors, first, n)| == n * SECTOR_SIZE
  {
    if n > 0 {
      GatherLength(sectors, first, n - 1);
    }
  }

  lemma {:induction false} GatherSame(s: seq<seq<byte>>, t: seq<seq<byte>>, first: nat, n: nat)
    requires first + n <= |s| && first + n <= |t|
    requires forall k :: first <= k < first + n ==> s[k] == t[k]
    ensures Gather(s, first, n) == Gather(t, first, n)
  {
    if n > 0 {
      GatherSame(s, t, first, n - 1);
    }
  }

  /** Reading back a written run gives the data. */
  lemma {:induction false} GatherScatter(sectors: seq<seq<byte>>, first: nat, data: seq<byte>, n: nat)
    requires SectorsOk(sectors) && first + n <= |sectors| && n * SECTOR_SIZE <= |data|
    ensures Gather(Scatter(sectors, first, data, n), first, n) == data[..n * SECTOR_SIZE]
  {
    if n > 0 {
      var s := Scatter(sectors, first, data, n - 1);
      GatherScatter(sectors, first, data, n - 1);
      GatherSame(s, Scatter(sectors, first, data, n), first, n - 1);
      assert data[..n * SECTOR_SIZE] == data[..(n - 1) * SECTOR_SIZE] + data[(n - 1) * SECTOR_SIZE .. n * SECTOR_SIZE];
    }
  }

  /** `memcpy` of a byte string into a buffer. */
  method Memcpy(dest: array<byte>, off: nat, src: seq<byte>)
    requires off + |src| <= dest.Length
    modifies dest
    ensures dest[..] == old(dest[..off]) + src + old(dest[off + |src|..])
  {
    for i := 0 to |src|
      invariant dest[..off] == old(dest[..off])
      invariant dest[off..off + i] == src[..i]
      invariant dest[off + i..] == old(dest[off + i..])
    {
      dest[off + i] := src[i];
    }
    assert dest[..] == dest[..off] + dest[off..off + |src|] + dest[off + |src|..];
  }

  /** First sector of a block, with 32-bit wrap-around of the product. */
  function FirstSector(b: u32, spb: nat): u32 {
    Wrap32(b * spb)
  }

  /** Sector numbers of the block do not wrap around. */
  predicate Addressable(b: u32, spb: nat) {
    (b + 1) * spb <= 0x1_0000_0000
  }

  /** The whole block lies on the disk. */
  predicate OnDisk(sectors: seq<seq<byte>>, b: u32, spb: nat) {
    FirstSector(b, spb) + spb <= |sectors|
  }

  function DiskBlock(sectors: seq<seq<byte>>, b: u32, spb: nat): seq<byte>
    requires OnDisk(sectors, b, spb)
  {
    Gather(sectors, FirstSector(b, spb), spb)
  }

  /** Distinct addressable blocks have disjoint sectors. */
  lemma BlocksDisjoint(b: u32, c: u32, spb: nat)
    requires Addressable(b, spb) && Addressable(c, spb) && b != c && spb > 0
    ensures FirstSector(b, spb) == b * spb && FirstSector(c, spb) == c * spb
    ensures b * spb + spb <= c * spb || c * spb + spb <= b * spb
  {
    AddressableProduct(b, spb);
    AddressableProduct(c, spb);
    if b < c {
      MultipleGap(b, c, spb);
    } else {
      MultipleGap(c, b, spb);
    }
  }

  lemma AddressableProduct(b: u32, spb: nat)
    requires Addressable(b, spb) && spb > 0
    ensures b * spb + spb <= 0x1_0000_0000 && FirstSector(b, spb) == b * spb
  {
    assert (b + 1) * spb == b * spb + spb;
  }

  lemma {:induction false} MultipleGap(x: nat, y: nat, m: nat)
    requires x < y
    ensures x * m + m <= y * m
    decreases y
  {
    if x + 1 < y {
      MultipleGap(x, y - 1, m);
    }
    assert y * m == (y - 1) * m + m;
  }

  /** The sector runs of two blocks do not meet. */
  predicate Apart(b: u32, c: u32, spb: nat) {
    FirstSector(b, spb) + spb <= FirstSector(c, spb) || FirstSector(c, spb) + spb <= FirstSector(b, spb)
  }

  /** Any two block numbers share their sectors exactly when they agree up to the number of addressable blocks. */
  lemma ApartIff(b: u32, c: u32, spb: nat)
    requires spb == 2 || spb == 4 || spb == 8
    ensures Apart(b, c, spb) <==> b % (0x1_0000_0000 / spb) != c % (0x1_0000_0000 / spb)
  {
    FirstSectorIs(b, spb);
    FirstSectorIs(c, spb);
  }

  lemma FirstSectorIs(b: u32, spb: nat)
    requires spb == 2 || spb == 4 || spb == 8
    ensures FirstSector(b, spb) == spb * (b % (0x1_0000_0000 / spb))
  {
    if spb == 2 {
      assert b * 2 % 0x1_0000_0000 == 2 * (b % 0x8000_0000);
    } else if spb == 4 {
      assert b * 4 % 0x1_0000_0000 == 4 * (b % 0x4000_0000);
    } else {
      assert b * 8 % 0x1_0000_0000 == 8 * (b % 0x2000_0000);
    }
  }

  /** The first such pair for blocks of 1024 bytes. */
  lemma BlocksAlias()
    ensures !Addressable(0x8000_0000, 2) && !Apart(0x8000_0000, 0, 2)
  {
    ApartIff(0x8000_0000, 0, 2);
  }

  /** Index of the first valid cache entry for a block; the cache size when there is none. */
  function CacheIndex(cache: seq<CacheEntry>, b: u32): (i: nat)
    ensures i <= |cache|
    ensures i < |cache| ==> cache[i].valid && cache[i].blockNo == b
    ensures forall j :: 0 <= j < i ==> !(cache[j].valid && cache[j].blockNo == b)
  {
    if cache == [] then 0
    else if cache[0].valid && cache[0].blockNo == b then 0
    else 1 + CacheIndex(cache[1..], b)
  }

  /** No block has two valid entries. */
  ghost predicate Unique(cache: seq<CacheEntry>) {
    forall i, j :: 0 <= i < j < |cache| && cache[i].valid && cache[j].valid ==> cache[i].blockNo != cache[j].blockNo
  }

  ghost predicate Matches(e: CacheEntry, sectors: seq<seq<byte>>, spb: nat) {
    && Addressable(e.blockNo, spb) && OnDisk(sectors, e.blockNo, spb)
    && e.data == Page(DiskBlock(sectors, e.blockNo, spb))
  }

  /** Every valid clean entry equals the disk. */
  ghost predicate Coherent(cache: seq<CacheEntry>, sectors: seq<seq<byte>>, spb: nat) {
    forall i :: 0 <= i < |cache| && cache[i].valid ==>
      && Addressable(cache[i].blockNo, spb)
      && (!cache[i].dirty ==> Matches(cache[i], sectors, spb))
  }

  /** Every valid entry equals the disk. */
  ghost predicate Synced(cache: seq<CacheEntry>, sectors: seq<seq<byte>>, spb: nat) {
    forall i :: 0 <= i < |cache| && cache[i].valid ==> Matches(cache[i], sectors, spb)
  }

  /** What a successful read of `b` delivers. */
  function Seen(cache: seq<CacheEntry>, sectors: seq<seq<byte>>, b: u32, spb: nat): (p: Page) {
    var i := CacheIndex(cache, b);
    if i < |cache| then cache[i].data
    else if OnDisk(sectors, b, spb) then Page(DiskBlock(sectors, b, spb)) else NoPage
  }

  /** The cache with `b` installed at `k`. */
  function Install(cache: seq<CacheEntry>, k: nat, b: u32, bytes: seq<byte>): seq<CacheEntry>
    requires k < |cache|
  {
    cache[k := CacheEntry(b, Page(bytes), false, true)]
  }

  /** The entry that a miss takes: the first invalid one, or entry 0 when all are valid. */
  ghost predicate IsVictim(cache: seq<CacheEntry>, k: nat) {
    && k < |cache| && (forall j :: 0 <= j < k ==> cache[j].valid)
    && (cache[k].valid ==> k == 0 && forall j :: 0 <= j < |cache| ==> cache[j].valid)
  }

  /** After a miss the block is in the cache, unless its entry had no page and got none. */
  ghost predicate Filled(cache: seq<CacheEntry>, cache': seq<CacheEntry>, b: u32, bytes: seq<byte>, granted: bool) {
    exists k: nat :: IsVictim(cache, k) &&
      cache' == if cache[k].data.Page? || granted then Install(cache, k, b, bytes) else cache
  }

  lemma InstallKeeps(cache: seq<CacheEntry>, k: nat, b: u32, bytes: seq<byte>, sectors: seq<seq<byte>>, spb: nat)
    requires k < |cache| && CacheIndex(cache, b) == |cache|
    requires OnDisk(sectors, b, spb) && bytes == DiskBlock(sectors, b, spb)
    ensures Unique(cache) ==> Unique(Install(cache, k, b, bytes))
    ensures Coherent(cache, sectors, spb) && Addressable(b, spb) ==> Coherent(Install(cache, k, b, bytes), sectors, spb)
    ensures Synced(cache, sectors, spb) && Addressable(b, spb) ==> Synced(Install(cache, k, b, bytes), sectors, spb)
  {
    hide Addressable, DiskBlock, OnDisk;
  }

  /** The cache after the matching entries have been overwritten and marked dirty. */
  function Overwrite(cache: seq<CacheEntry>, b: u32, bytes: seq<byte>): (r: seq<CacheEntry>)
    ensures |r| == |cache|
  {
    seq(|cache|, i requires 0 <= i < |cache| =>
      if cache[i].valid && cache[i].blockNo == b then cache[i].(data := Page(bytes), dirty := true) else cache[i])
  }

  /** Only the sectors of block `b` may differ. */
  ghost predicate OnlyBlockChanged(s: seq<seq<byte>>, t: seq<seq<byte>>, b: u32, spb: nat) {
    |s| == |t| && forall k :: 0 <= k < |s| && !(FirstSector(b, spb) <= k < FirstSector(b, spb) + spb) ==> s[k] == t[k]
  }

  lemma OtherBlockKept(s: seq<seq<byte>>, t: seq<seq<byte>>, b: u32, e: CacheEntry, spb: nat)
    requires OnlyBlockChanged(s, t, b, spb) && Addressable(b, spb) && e.blockNo != b && spb > 0
    requires Matches(e, s, spb)
    ensures Matches(e, t, spb)
  {
    BlocksDisjoint(b, e.blockNo, spb);
    GatherSame(s, t, FirstSector(e.blockNo, spb), spb);
  }

  /** A write of an addressable block keeps the cache coherent, however far it got. */
  lemma OverwriteCoherent(cache: seq<CacheEntry>, s: seq<seq<byte>>, t: seq<seq<byte>>, b: u32, bytes: seq<byte>,
                          spb: nat)
    requires OnlyBlockChanged(s, t, b, spb) && Addressable(b, spb) && spb > 0
    requires Coherent(cache, s, spb)
    ensures Coherent(Overwrite(cache, b, bytes), t, spb)
  {
    hide Addressable, Matches, OnlyBlockChanged;
    var r := Overwrite(cache, b, bytes);
    forall i | 0 <= i < |r| && r[i].valid && !r[i].dirty ensures Matches(r[i], t, spb) {
      OtherBlockKept(s, t, b, cache[i], spb);
    }
  }

  lemma OverwriteSynced(cache: seq<CacheEntry>, s: seq<seq<byte>>, t: seq<seq<byte>>, b: u32, bytes: seq<byte>,
                        spb: nat)
    requires OnlyBlockChanged(s, t, b, spb) && Addressable(b, spb) && spb > 0
    requires OnDisk(t, b, spb) && DiskBlock(t, b, spb) == bytes
    requires Synced(cache, s, spb)
    ensures Synced(Overwrite(cache, b, bytes), t, spb)
  {
    hide OnlyBlockChanged, DiskBlock, OnDisk, Addressable;
    var r := Overwrite(cache, b, bytes);
    forall i | 0 <= i < |r| && r[i].valid ensures Matches(r[i], t, spb) {
      if cache[i].blockNo != b {
        OtherBlockKept(s, t, b, cache[i], spb);
      }
    }
  }

  class Device {
    const blockSize: nat
    const ioBuffer: array<byte>
    /** Whether the n-th sector transfer succeeds, and what a failed write leaves on the disk. */
    const outcome: nat -> bool
    const torn: nat -> seq<byte>
    /** Whether the n-th attempt to allocate a cache page succeeds. */
    const pageOutcome: nat -> bool
    var sectors: seq<seq<byte>>
    var transfers: nat
    var pageRequests: nat
    var mounted: bool
    var cache: seq<CacheEntry>

    function SectorsPerBlock(): nat
    {
      blockSize / SECTOR_SIZE
    }

    ghost predicate Valid()
      reads this
    {
      && BlockSizeOk(blockSize)
      && ioBuffer.Length == IO_BUFFER_SIZE
      && SectorsOk(sectors)
      && |cache| == CACHE_SIZE
      && (forall i :: 0 <= i < CACHE_SIZE && cache[i].data.Page? ==> |cache[i].data.bytes| == blockSize)
      && (forall i :: 0 <= i < CACHE_SIZE && cache[i].valid ==> cache[i].data.Page?)
    }

    constructor (blockSize: nat, sectors: seq<seq<byte>>, outcome: nat -> bool, torn: nat -> seq<byte>,
                 pageOutcome: nat -> bool)
      requires BlockSizeOk(blockSize) && SectorsOk(sectors)
      ensures Valid() && this.blockSize == blockSize && this.sectors == sectors && fresh(ioBuffer)
      ensures mounted && forall i :: 0 <= i < CACHE_SIZE ==> !cache[i].valid
    {
      this.blockSize, this.sectors := blockSize, sectors;
      this.outcome, this.torn, this.pageOutcome := outcome, torn, pageOutcome;
      ioBuffer := new byte[IO_BUFFER_SIZE](_ => 0);
      transfers, pageRequests, mounted := 0, 0, true;
      cache := seq(CACHE_SIZE, i => CacheEntry(0, NoPage, false, false));
    }

    /** One sector from the disk; fails by the schedule of outcomes or past the end of the disk. */
    method ReadSector(sector: nat, off: nat) returns (ok: bool)
      requires Valid() && off + SECTOR_SIZE <= ioBuffer.Length
      modifies this`transfers, ioBuffer
      ensures transfers == old(transfers) + 1
      ensures ok <==> old(outcome(transfers)) && sector < |sectors|
      ensures ok ==> ioBuffer[..] == old(ioBuffer[..off]) + sectors[sector] + old(ioBuffer[off + SECTOR_SIZE..])
      ensures !ok ==> ioBuffer[..] == old(ioBuffer[..])
    {
      ok := outcome(transfers) && sector < |sectors|;
      transfers := transfers + 1;
      if ok {
        Memcpy(ioBuffer, off, sectors[sector]);
      }
    }

    /** One sector to the disk; a failed write may leave anything of sector size in its place. */
    method WriteSector(sector: nat, data: seq<byte>) returns (ok: bool)
      requires Valid() && |data| == SECTOR_SIZE
      modifies this`transfers, this`sectors
      ensures Valid() && transfers == old(transfers) + 1
      ensures ok <==> old(outcome(transfers)) && sector < |old(sectors)|
      ensures ok ==> sectors == old(sectors)[sector := data]
      ensures !ok ==> |sectors| == |old(sectors)|
      ensures !ok ==> forall k :: 0 <= k < |sectors| && k != sector ==> sectors[k] == old(sectors)[k]
    {
      ok := outcome(transfers) && sector < |sectors|;
      if ok {
        sectors := sectors[sector := data];
      } else if sector < |sectors| && |torn(transfers)| == SECTOR_SIZE {
        sectors := sectors[sector := torn(transfers)];
      }
      transfers := transfers + 1;
    }

    /** The transfer loop of ext2_read_block. */
    method ReadSectors(first: u32, n: nat) returns (ok: bool)
      requires Valid() && n * SECTOR_SIZE <= ioBuffer.Length
      modifies this`transfers, ioBuffer
      ensures ok ==> first + n <= |sectors| || n == 0
      ensures ok && n > 0 ==> ioBuffer[..n * SECTOR_SIZE] == Gather(sectors, first, n)
      ensures ioBuffer[n * SECTOR_SIZE..] == old(ioBuffer[n * SECTOR_SIZE..])
      ensures (forall k :: outcome(k)) && first + n <= |sectors| ==> ok
    {
      for i := 0 to n
        invariant i > 0 ==> first + i <= |sectors|
        invariant i > 0 ==> ioBuffer[..i * SECTOR_SIZE] == Gather(sectors, first, i)
        invariant ioBuffer[n * SECTOR_SIZE..] == old(ioBuffer[n * SECTOR_SIZE..])
      {
        var read := ReadSector(first + i, i * SECTOR_SIZE);
        if !read {
          return false;
        }
      }
      ok := true;
    }

    /** The transfer loop of ext2_write_block. */
    method WriteSectors(first: u32, data: seq<byte>, n: nat) returns (ok: bool)
      requires Valid() && |data| == n * SECTOR_SIZE && n > 0
      modifies this`transfers, this`sectors
      ensures Valid() && |sectors| == |old(sectors)|
      ensures ok ==> first + n <= |sectors| && sectors == Scatter(old(sectors), first, data, n)
      ensures forall k :: 0 <= k < |sectors| && !(first <= k < first + n) ==> sectors[k] == old(sectors)[k]
      ensures (forall k :: outcome(k)) && first + n <= |sectors| ==> ok
    {
      ghost var s0 := sectors;
      for i := 0 to n
        invariant Valid() && |sectors| == |s0|
        invariant i > 0 ==> first + i <= |sectors|
        invariant first + i <= |sectors| ==> sectors == Scatter(s0, first, data, i)
        invariant forall k :: 0 <= k < |sectors| && !(first <= k < first + n) ==> sectors[k] == s0[k]
      {
        var written := WriteSector(first + i, data[i * SECTOR_SIZE .. (i + 1) * SECTOR_SIZE]);
        if !written {
          return false;
        }
      }
      ok := true;
    }

    /** The block lands in the first `blockSize` bytes of the I/O buffer. */
    method ReadBlock(b: u32) returns (ok: bool)
      requires Valid()
      modifies this`transfers, this`cache, this`pageRequests, ioBuffer
      ensures Valid()
      ensures ioBuffer[blockSize..] == old(ioBuffer[blockSize..])
      ensures ok && mounted ==> Page(ioBuffer[..blockSize]) == old(Seen(cache, sectors, b, SectorsPerBlock()))
      ensures ok && !mounted ==> OnDisk(sectors, b, SectorsPerBlock())
                                 && ioBuffer[..blockSize] == DiskBlock(sectors, b, SectorsPerBlock())
      ensures !mounted || !ok ==> cache == old(cache)
      ensures mounted && old(CacheIndex(cache, b)) < CACHE_SIZE ==>
                ok && cache == old(cache) && transfers == old(transfers)
      ensures mounted && ok && old(CacheIndex(cache, b)) == CACHE_SIZE ==>
                Filled(old(cache), cache, b, ioBuffer[..blockSize], pageOutcome(old(pageRequests)))
      ensures old(Unique(cache)) ==> Unique(cache)
      ensures old(Coherent(cache, sectors, SectorsPerBlock())) && Addressable(b, SectorsPerBlock()) ==>
                Coherent(cache, sectors, SectorsPerBlock())
      ensures old(Synced(cache, sectors, SectorsPerBlock())) && Addressable(b, SectorsPerBlock()) ==>
                Synced(cache, sectors, SectorsPerBlock())
      ensures (forall k :: outcome(k)) && OnDisk(sectors, b, SectorsPerBlock()) ==> ok
    {
      hide Unique, Coherent, Synced, Gather, Wrap32, Filled;
      if mounted {
        var i := FindCached(b);
        if i < CACHE_SIZE {
          Memcpy(ioBuffer, 0, cache[i].data.bytes);
          return true;
        }
      }
      var spb := SectorsPerBlock();
      ok := ReadSectors(FirstSector(b, spb), spb);
      if ok && mounted {
        FillCache(b);
      }
    }

    /** The lookup loop; finds the first valid entry for `b`. */
    method FindCached(b: u32) returns (i: nat)
      requires Valid()
      ensures i == CacheIndex(cache, b)
    {
      i := 0;
      while i < CACHE_SIZE
        invariant i <= CACHE_SIZE
        invariant forall j :: 0 <= j < i ==> !(cache[j].valid && cache[j].blockNo == b)
      {
        if cache[i].valid && cache[i].blockNo == b {
          return;
        }
        i := i + 1;
      }
    }

    /** After a miss: take the first invalid entry, or entry 0, and install the block if there is a page for it. */
    method FillCache(b: u32)
      requires Valid() && CacheIndex(cache, b) == CACHE_SIZE
      requires OnDisk(sectors, b, SectorsPerBlock())
               && ioBuffer[..blockSize] == DiskBlock(sectors, b, SectorsPerBlock())
      modifies this`cache, this`pageRequests
      ensures Valid() && Filled(old(cache), cache, b, ioBuffer[..blockSize], pageOutcome(old(pageRequests)))
      ensures old(Unique(cache)) ==> Unique(cache)
      ensures old(Coherent(cache, sectors, SectorsPerBlock())) && Addressable(b, SectorsPerBlock()) ==>
                Coherent(cache, sectors, SectorsPerBlock())
      ensures old(Synced(cache, sectors, SectorsPerBlock())) && Addressable(b, SectorsPerBlock()) ==>
                Synced(cache, sectors, SectorsPerBlock())
    {
      hide Unique, Coherent, Synced, Gather, Wrap32, DiskBlock, Addressable;
      var k := 0;
      var i := 0;
      while i < CACHE_SIZE
        invariant 0 <= i <= CACHE_SIZE && k == 0
        invariant forall j :: 0 <= j < i ==> cache[j].valid
      {
        if !cache[i].valid {
          k := i;
          break;
        }
        i := i + 1;
      }
      assert IsVictim(cache, k);
      var hasPage := cache[k].data.Page?;
      if !hasPage {
        hasPage := pageOutcome(pageRequests);
        pageRequests := pageRequests + 1;
      }
      if hasPage {
        InstallKeeps(cache, k, b, ioBuffer[..blockSize], sectors, SectorsPerBlock());
        cache := Install(cache, k, b, ioBuffer[..blockSize]);
      }
    }

    /** Writes the first `blockSize` bytes of the I/O buffer through the cache to the disk. */
    method WriteBlock(b: u32) returns (ok: bool)
      requires Valid()
      modifies this`transfers, this`cache, this`sectors
      ensures Valid() && |sectors| == |old(sectors)|
      ensures cache == if mounted then Overwrite(old(cache), b, ioBuffer[..blockSize]) else old(cache)
      ensures OnlyBlockChanged(old(sectors), sectors, b, SectorsPerBlock())
      ensures ok ==> OnDisk(sectors, b, SectorsPerBlock())
                     && sectors == Scatter(old(sectors), FirstSector(b, SectorsPerBlock()), ioBuffer[..blockSize],
                                           SectorsPerBlock())
                     && DiskBlock(sectors, b, SectorsPerBlock()) == ioBuffer[..blockSize]
      ensures (forall k :: outcome(k)) && OnDisk(sectors, b, SectorsPerBlock()) ==> ok
      ensures old(Unique(cache)) ==> Unique(cache)
      ensures mounted && old(Coherent(cache, sectors, SectorsPerBlock())) && Addressable(b, SectorsPerBlock()) ==>
                Coherent(cache, sectors, SectorsPerBlock())
      ensures mounted && ok && old(Synced(cache, sectors, SectorsPerBlock())) && Addressable(b, SectorsPerBlock()) ==>
                Synced(cache, sectors, SectorsPerBlock())
    {
      hide Coherent, Synced, Gather, Wrap32, Addressable, Scatter;
      ghost var c0, s0 := cache, sectors;
      var spb := SectorsPerBlock();
      var data := ioBuffer[..blockSize];
      if mounted {
        UpdateCache(b, data);
      }
      ok := WriteSectors(FirstSector(b, spb), data, spb);
      if ok {
        GatherScatter(s0, FirstSector(b, spb), data, spb);
        assert data[..spb * SECTOR_SIZE] == data;
      }
      if mounted && Addressable(b, spb) {
        if Coherent(c0, s0, spb) {
          OverwriteCoherent(c0, s0, sectors, b, data, spb);
        }
        if ok && Synced(c0, s0, spb) {
          OverwriteSynced(c0, s0, sectors, b, data, spb);
        }
      }
    }

    /** The cache loop of ext2_write_block. */
    method UpdateCache(b: u32, data: seq<byte>)
      requires Valid() && |data| == blockSize
      modifies this`cache
      ensures Valid() && cache == Overwrite(old(cache), b, data)
    {
      ghost var c0 := cache;
      for i := 0 to CACHE_SIZE
        invariant |cache| == CACHE_SIZE
        invariant cache[..i] == Overwrite(c0, b, data)[..i] && cache[i..] == c0[i..]
      {
        if cache[i].valid && cache[i].blockNo == b {
          cache := cache[i := cache[i].(data := Page(data), dirty := true)];
        }
      }
    }
  }
}
