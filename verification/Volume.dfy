/**
 A mounted volume on a disk that does not fail, seen as a sequence of blocks,
 and whole runs of the block layer.
 */
module Volume {
  import opened Bytes
  import opened BlockCache

  type Block = seq<byte>

  /** The blocks of a disk. */
  ghost function Blocks(sectors: seq<seq<byte>>, spb: nat): (vol: seq<Block>)
    requires spb > 0
    ensures |vol| == |sectors| / spb
  {
    seq(|sectors| / spb,
        b requires 0 <= b < |sectors| / spb => (BlockFits(|sectors|, spb, b); Gather(sectors, b * spb, spb)))
  }

  lemma BlockFits(n: nat, spb: nat, b: nat)
    requires spb > 0 && b < n / spb
    ensures b * spb + spb <= n
  {
    assert (b + 1) * spb <= n / spb * spb <= n;
  }

  ghost function Vol(d: Device): (vol: seq<Block>)
    requires BlockSizeOk(d.blockSize)
    reads d`sectors
  {
    Blocks(d.sectors, d.SectorsPerBlock())
  }

  /** Mounted, no transfer fails, the cache equals the disk, and sector numbers fit in 32 bits. */
  ghost predicate Reliable(d: Device)
    reads d
  {
    && d.Valid() && d.mounted && (forall k :: d.outcome(k))
    && Synced(d.cache, d.sectors, d.SectorsPerBlock())
    && |d.sectors| <= 0x1_0000_0000
  }

  lemma BlockOnDisk(sectors: seq<seq<byte>>, spb: nat, b: nat)
    requires spb > 0 && |sectors| <= 0x1_0000_0000 && b < |sectors| / spb && SectorsOk(sectors)
    ensures b < 0x1_0000_0000 && Addressable(b, spb) && OnDisk(sectors, b, spb) && FirstSector(b, spb) == b * spb
    ensures DiskBlock(sectors, b, spb) == Blocks(sectors, spb)[b]
    ensures |Blocks(sectors, spb)[b]| == spb * SECTOR_SIZE
  {
    hide Addressable, FirstSector;
    BlockFits(|sectors|, spb, b);
    BlockNumber(|sectors|, spb, b);
    GatherLength(sectors, b * spb, spb);
  }

  lemma BlockNumber(n: nat, spb: nat, b: nat)
    requires spb > 0 && b * spb + spb <= n <= 0x1_0000_0000
    ensures b < 0x1_0000_0000 && Addressable(b, spb) && FirstSector(b, spb) == b * spb
  {
    assert (b + 1) * spb == b * spb + spb;
    assert b <= b * spb;
  }

  lemma SyncedSeen(cache: seq<CacheEntry>, sectors: seq<seq<byte>>, b: u32, spb: nat)
    requires Synced(cache, sectors, spb) && OnDisk(sectors, b, spb)
    ensures Seen(cache, sectors, b, spb) == Page(DiskBlock(sectors, b, spb))
  {
  }

  /** ext2_read_block on a volume: the I/O buffer holds the block. */
  method LoadBlock(d: Device, b: u32) returns (ok: bool)
    requires d.Valid()
    modifies d`transfers, d`cache, d`pageRequests, d.ioBuffer
    ensures d.Valid()
    ensures d.ioBuffer[d.blockSize..] == old(d.ioBuffer[d.blockSize..])
    ensures old(Reliable(d)) && b < |Vol(d)| ==> ok && Reliable(d) && d.ioBuffer[..d.blockSize] == Vol(d)[b]
  {
    hide Synced, Seen, Blocks, Gather, OnDisk, Addressable, DiskBlock;
    ghost var spb := d.SectorsPerBlock();
    if Reliable(d) && b < |Vol(d)| {
      BlockOnDisk(d.sectors, spb, b);
      SyncedSeen(d.cache, d.sectors, b, spb);
    }
    ok := d.ReadBlock(b);
  }

  /** ext2_write_block on a volume: exactly one block changes. */
  method StoreBlock(d: Device, b: u32) returns (ok: bool)
    requires d.Valid()
    modifies d`transfers, d`cache, d`sectors
    ensures d.Valid() && |d.sectors| == |old(d.sectors)|
    ensures old(Reliable(d)) && b < |old(Vol(d))| ==>
              ok && Reliable(d) && Vol(d) == old(Vol(d))[b := d.ioBuffer[..d.blockSize]]
  {
    hide Synced, Gather, OnDisk, Addressable, DiskBlock, Blocks, Scatter, Unique, Coherent, OnlyBlockChanged;
    ghost var spb, s0 := d.SectorsPerBlock(), d.sectors;
    ok := d.WriteBlock(b);
    if old(Reliable(d)) && b < |Blocks(s0, spb)| {
      BlockOnDisk(d.sectors, spb, b);
      BlocksUpdated(s0, d.sectors, b, spb, d.ioBuffer[..d.blockSize]);
    }
  }

  lemma BlocksUpdated(s: seq<seq<byte>>, t: seq<seq<byte>>, b: u32, spb: nat, data: seq<byte>)
    requires spb > 0 && |s| <= 0x1_0000_0000 && b < |s| / spb && SectorsOk(s) && SectorsOk(t)
    requires OnlyBlockChanged(s, t, b, spb) && OnDisk(t, b, spb) && DiskBlock(t, b, spb) == data
    ensures Blocks(t, spb) == Blocks(s, spb)[b := data]
  {
    BlockOnDisk(s, spb, b);
    forall c: nat | c < |s| / spb ensures Blocks(t, spb)[c] == Blocks(s, spb)[b := data][c] {
      BlockOnDisk(s, spb, c);
      BlockOnDisk(t, spb, c);
      if c != b {
        BlocksDisjoint(b, c, spb);
        GatherSame(s, t, c * spb, spb);
      }
    }
  }

  // ---------- whole runs of the block layer ----------

  datatype Op = Read(b: u32) | Write(b: u32, data: seq<byte>)

  /** The disk after a run of requests, without a cache. */
  ghost function DiskAfter(sectors: seq<seq<byte>>, ops: seq<Op>, spb: nat): (r: seq<seq<byte>>)
    requires Fits(ops, |sectors|, spb)
    ensures |r| == |sectors|
  {
    if ops == [] then sectors
    else
      var s := DiskAfter(sectors, ops[..|ops| - 1], spb);
      match ops[|ops| - 1]
      case Read(_) => s
      case Write(b, data) => Scatter(s, FirstSector(b, spb), data, spb)
  }

  /** Every request is for a whole block of the disk. */
  ghost predicate Fits(ops: seq<Op>, n: nat, spb: nat) {
    forall i :: 0 <= i < |ops| ==> OpFits(ops[i], n, spb)
  }

  ghost predicate OpFits(op: Op, n: nat, spb: nat) {
    OpOk(op, spb) && FirstSector(op.b, spb) + spb <= n
  }

  /** The sector numbers of the request fit in 32 bits, and a write is of a whole block. */
  ghost predicate OpOk(op: Op, spb: nat) {
    Addressable(op.b, spb) && (op.Write? ==> |op.data| == spb * SECTOR_SIZE)
  }

  /** `memcpy` of a block into the I/O buffer, as callers do before a write. */
  method Stage(d: Device, data: seq<byte>)
    requires d.Valid() && |data| == d.blockSize
    modifies d.ioBuffer
    ensures d.ioBuffer[..d.blockSize] == data
  {
    Memcpy(d.ioBuffer, 0, data);
  }

  /**
   A run of reads and writes of whole blocks, on the disk or past its end. Whatever
   fails, no block has two valid entries and clean entries equal the disk; if no
   transfer fails and all blocks are on the disk, every read returns what the disk
   alone would have held at that point.
   */
  method Run(d: Device, ops: seq<Op>) returns (results: seq<Page>)
    requires d.Valid() && d.mounted && forall i :: 0 <= i < |ops| ==> OpOk(ops[i], d.SectorsPerBlock())
    requires Unique(d.cache) && Coherent(d.cache, d.sectors, d.SectorsPerBlock())
    modifies d`transfers, d`cache, d`pageRequests, d`sectors, d.ioBuffer
    ensures d.Valid() && Unique(d.cache) && Coherent(d.cache, d.sectors, d.SectorsPerBlock())
    ensures |results| == |ops| && |d.sectors| == |old(d.sectors)|
    ensures (forall k :: d.outcome(k)) && old(Synced(d.cache, d.sectors, d.SectorsPerBlock()))
            && Fits(ops, |d.sectors|, d.SectorsPerBlock()) ==>
              && d.sectors == DiskAfter(old(d.sectors), ops, d.SectorsPerBlock())
              && forall i :: 0 <= i < |ops| && ops[i].Read? ==>
                   results[i] == Page(DiskBlock(DiskAfter(old(d.sectors), ops[..i], d.SectorsPerBlock()), ops[i].b,
                                                d.SectorsPerBlock()))
  {
    hide Unique, Coherent, Synced, Seen, Gather, Addressable, DiskBlock, Scatter, OnlyBlockChanged, FirstSector;
    results := [];
    ghost var s0, spb := d.sectors, d.SectorsPerBlock();
    ghost var calm := (forall k :: d.outcome(k)) && Synced(d.cache, d.sectors, spb) && Fits(ops, |s0|, spb);
    for n := 0 to |ops|
      invariant d.Valid() && Unique(d.cache) && Coherent(d.cache, d.sectors, spb)
      invariant |results| == n && |d.sectors| == |s0|
      invariant calm ==> Synced(d.cache, d.sectors, spb) && d.sectors == DiskAfter(s0, ops[..n], spb)
      invariant calm ==> forall i :: 0 <= i < n && ops[i].Read? ==>
                  results[i] == Page(DiskBlock(DiskAfter(s0, ops[..i], spb), ops[i].b, spb))
    {
      assert ops[..n + 1][..n] == ops[..n];
      var r := Request(d, ops[n]);
      results := results + [r];
    }
    assert ops[..|ops|] == ops;
  }

  method Request(d: Device, op: Op) returns (r: Page)
    requires d.Valid() && d.mounted && OpOk(op, d.SectorsPerBlock())
    requires Unique(d.cache) && Coherent(d.cache, d.sectors, d.SectorsPerBlock())
    modifies d`transfers, d`cache, d`pageRequests, d`sectors, d.ioBuffer
    ensures d.Valid() && Unique(d.cache) && Coherent(d.cache, d.sectors, d.SectorsPerBlock())
    ensures |d.sectors| == |old(d.sectors)|
    ensures op.Read? ==> d.sectors == old(d.sectors)
    ensures (forall k :: d.outcome(k)) && old(Synced(d.cache, d.sectors, d.SectorsPerBlock()))
            && OpFits(op, |d.sectors|, d.SectorsPerBlock()) ==>
              && Synced(d.cache, d.sectors, d.SectorsPerBlock())
              && (op.Read? ==> r == Page(DiskBlock(d.sectors, op.b, d.SectorsPerBlock())))
              && (op.Write? ==> d.sectors == Scatter(old(d.sectors), FirstSector(op.b, d.SectorsPerBlock()), op.data,
                                                     d.SectorsPerBlock()))
  {
    hide Unique, Coherent, Synced, Seen, Gather, Addressable, DiskBlock, Scatter, OnlyBlockChanged, FirstSector;
    ghost var spb := d.SectorsPerBlock();
    match op
    case Read(b) =>
      if Synced(d.cache, d.sectors, spb) && OnDisk(d.sectors, b, spb) {
        SyncedSeen(d.cache, d.sectors, b, spb);
      }
      var ok := d.ReadBlock(b);
      r := if ok then Page(d.ioBuffer[..d.blockSize]) else NoPage;
    case Write(b, data) =>
      Stage(d, data);
      var ok := d.WriteBlock(b);
      r := NoPage;
  }
}
