/**
 The block map of an inode (kernel/src/fs/ext2.c:344-499): twelve direct
 pointers and single, double and triple indirect trees, all read and written
 through the one I/O buffer.
 */
module BlockMap {
  import opened Bytes
  import opened Bitmaps
  import opened BlockCache
  import opened Volume
  import opened InodeTable
  import opened BlockAllocator
  import opened Ext2State

  const DIRECT: nat := 12
  const SINGLE: nat := 12
  const DOUBLE: nat := 13
  const TRIPLE: nat := 14

  /** Pointers per block. */
  function Fanout(bs: nat): (n: nat)
    requires BlockSizeOk(bs)
    ensures n == 256 || n == 512 || n == 1024
    ensures 4 * n == bs
  {
    bs / 4
  }

  /** The size up to which the driver can add blocks to a file. */
  function SizeLimit(bs: nat): nat
    requires BlockSizeOk(bs)
  {
    (DIRECT + Fanout(bs)) * bs
  }

  // ---------- the index of a block as a path of pointers ----------

  function Square(n: nat): (m: nat)
    ensures n > 0 ==> m > 0
  {
    n * n
  }

  /** The pointer of the inode and then of each index block on the way; empty beyond triple indirection. */
  function Path(idx: nat, n: nat): (p: seq<nat>)
    requires n > 0
  {
    if idx < DIRECT then [idx]
    else if idx - DIRECT < n then [SINGLE, idx - DIRECT]
    else if idx - DIRECT - n < Square(n) then DoublePath(idx - DIRECT - n, n)
    else if idx - DIRECT - n - Square(n) < n * Square(n) then TriplePath(idx - DIRECT - n - Square(n), n)
    else []
  }

  function DoublePath(i: nat, n: nat): seq<nat>
    requires n > 0
  {
    [DOUBLE, i / n, i % n]
  }

  function TriplePath(i: nat, n: nat): seq<nat>
    requires n > 0
  {
    TripleDigitsOf(i, n, Square(n))
  }

  function TripleDigitsOf(i: nat, n: nat, m: nat): seq<nat>
    requires n > 0 && m > 0
  {
    [TRIPLE, i / m, i % m / n, i % m % n]
  }

  /** The paths that pointers can spell. */
  predicate LegalPath(p: seq<nat>, n: nat) {
    && p != [] && p[0] < POINTERS
    && |p| == (if p[0] < DIRECT then 1 else p[0] - DIRECT + 2)
    && forall k :: 1 <= k < |p| ==> p[k] < n
  }

  /** The index a legal path stands for: the trees come one after the other. */
  function Index(p: seq<nat>, n: nat): nat
    requires LegalPath(p, n)
  {
    if p[0] < DIRECT then p[0]
    else if p[0] == SINGLE then DIRECT + p[1]
    else if p[0] == DOUBLE then DIRECT + n + (p[1] * n + p[2])
    else DIRECT + n + Square(n) + (p[1] * Square(n) + (p[2] * n + p[3]))
  }

  function Capacity(n: nat): nat {
    DIRECT + n + Square(n) + n * Square(n)
  }

  lemma DigitBound(a: nat, b: nat, n: nat, m: nat)
    requires a < n && b < m
    ensures a * m + b < n * m
  {
    assert (a + 1) * m <= n * m;
  }

  lemma QuotientBound(x: nat, n: nat, m: nat)
    requires m > 0 && x < n * m
    ensures x / m < n && x == x / m * m + x % m
  {
    if x / m >= n {
      assert false;
    }
  }

  lemma DoubleDigits(i: nat, n: nat)
    requires n > 0 && i < Square(n)
    ensures LegalPath(DoublePath(i, n), n) && DoublePath(i, n)[1] * n + DoublePath(i, n)[2] == i
  {
    QuotientBound(i, n, n);
  }

  lemma TripleDigits(i: nat, n: nat)
    requires n > 0 && i < n * Square(n)
    ensures LegalPath(TriplePath(i, n), n)
    ensures var p := TriplePath(i, n); p[1] * Square(n) + (p[2] * n + p[3]) == i
  {
    var m := Square(n);
    assert m > 0;
    QuotientBound(i, n, m);
    SmallRemainder(i % m, n);
  }

  lemma SmallRemainder(r: nat, n: nat)
    requires n > 0 && r < Square(n)
    ensures r / n < n && r % n < n && r == r / n * n + r % n
  {
    QuotientBound(r, n, n);
  }

  lemma DoubleBack(a: nat, b: nat, n: nat)
    requires a < n && b < n
    ensures a * n + b < Square(n) && DoublePath(a * n + b, n) == [DOUBLE, a, b]
  {
    DigitBound(a, b, n, n);
    ModOfSum(a, n, b);
  }

  lemma TripleBack(a: nat, b: nat, c: nat, n: nat)
    requires a < n && b < n && c < n
    ensures a * Square(n) + (b * n + c) < n * Square(n)
    ensures TriplePath(a * Square(n) + (b * n + c), n) == [TRIPLE, a, b, c]
  {
    hide Square, TripleDigitsOf;
    DoubleBack(b, c, n);
    DigitBound(a, b * n + c, n, Square(n));
    DigitsBack(a, b, c, n, Square(n), b * n + c);
  }

  lemma DigitsBack(a: nat, b: nat, c: nat, n: nat, m: nat, low: nat)
    requires b < n && c < n && low == b * n + c < m
    ensures TripleDigitsOf(a * m + low, n, m) == [TRIPLE, a, b, c]
  {
    ModOfSum(a, m, low);
    var q, r := (a * m + low) / m, (a * m + low) % m;
    assert q == a && r == low;
    ModOfSum(b, n, c);
    assert low / n == b && low % n == c;
  }

  /** Splitting an index into a path loses nothing. */
  lemma PathThenIndex(idx: nat, n: nat)
    requires n > 0 && idx < Capacity(n)
    ensures LegalPath(Path(idx, n), n) && Index(Path(idx, n), n) == idx
  {
    hide Square, TriplePath, DoublePath;
    if idx >= DIRECT + n {
      if idx - DIRECT - n < Square(n) {
        DoubleDigits(idx - DIRECT - n, n);
        DoubleHead(idx - DIRECT - n, n);
      } else {
        TripleDigits(idx - DIRECT - n - Square(n), n);
        TripleHead(idx - DIRECT - n - Square(n), n);
      }
    }
  }

  lemma DoubleHead(i: nat, n: nat)
    requires n > 0
    ensures |DoublePath(i, n)| == 3 && DoublePath(i, n)[0] == DOUBLE
  {
  }

  lemma TripleHead(i: nat, n: nat)
    requires n > 0
    ensures |TriplePath(i, n)| == 4 && TriplePath(i, n)[0] == TRIPLE
  {
  }

  /** Every legal path is the path of its index. */
  lemma IndexThenPath(p: seq<nat>, n: nat)
    requires n > 0 && LegalPath(p, n)
    ensures Index(p, n) < Capacity(n) && Path(Index(p, n), n) == p
  {
    hide Path, Index, Capacity;
    if p[0] == DOUBLE {
      assert p == [DOUBLE, p[1], p[2]];
      BackDouble(p[1], p[2], n);
    } else if p[0] == TRIPLE {
      assert p == [TRIPLE, p[1], p[2], p[3]];
      BackTriple(p[1], p[2], p[3], n);
    } else {
      assert p == if p[0] < DIRECT then [p[0]] else [SINGLE, p[1]];
      BackLow(p, n);
    }
  }

  lemma BackDouble(a: nat, b: nat, n: nat)
    requires a < n && b < n
    ensures LegalPath([DOUBLE, a, b], n)
    ensures Index([DOUBLE, a, b], n) < Capacity(n) && Path(Index([DOUBLE, a, b], n), n) == [DOUBLE, a, b]
  {
    hide Path, DoublePath, Square;
    DoubleBack(a, b, n);
    PathDouble(a * n + b, n);
  }

  lemma BackTriple(a: nat, b: nat, c: nat, n: nat)
    requires a < n && b < n && c < n
    ensures LegalPath([TRIPLE, a, b, c], n)
    ensures Index([TRIPLE, a, b, c], n) < Capacity(n) && Path(Index([TRIPLE, a, b, c], n), n) == [TRIPLE, a, b, c]
  {
    hide Path, TriplePath, Square;
    TripleBack(a, b, c, n);
    PathTriple(a * Square(n) + (b * n + c), n);
  }

  lemma BackLow(p: seq<nat>, n: nat)
    requires n > 0 && LegalPath(p, n) && p[0] <= SINGLE
    ensures Index(p, n) < Capacity(n) && Path(Index(p, n), n) == p
  {
    hide Path, Square;
    PathLow(Index(p, n), n);
    assert p == if p[0] < DIRECT then [p[0]] else [SINGLE, p[1]];
  }

  lemma PathLow(idx: nat, n: nat)
    requires n > 0 && idx < DIRECT + n
    ensures Path(idx, n) == if idx < DIRECT then [idx] else [SINGLE, idx - DIRECT]
  {
  }

  lemma PathDouble(x: nat, n: nat)
    requires n > 0 && x < Square(n)
    ensures Path(DIRECT + n + x, n) == DoublePath(x, n)
  {
    hide Square, DoublePath;
  }

  lemma PathTriple(x: nat, n: nat)
    requires n > 0 && x < n * Square(n)
    ensures Path(DIRECT + n + Square(n) + x, n) == TriplePath(x, n)
  {
    hide Square, TriplePath;
  }

  /** With blocks of at most 4096 bytes no product of the index arithmetic leaves 32 bits. */
  lemma IndexFits(bs: nat)
    requires BlockSizeOk(bs)
    ensures Fanout(bs) * Square(Fanout(bs)) < 0x1_0000_0000 && Capacity(Fanout(bs)) < 0x1_0000_0000
  {
    var n := Fanout(bs);
    if n == 256 {
      assert Square(n) == 65536;
    } else if n == 512 {
      assert Square(n) == 262144;
    } else {
      assert Square(n) == 1048576;
    }
  }

  // ---------- looking a block up ----------

  /** Pointer `k` of index block `b`; 0 where there is none. */
  ghost function Pointer(vol: seq<Block>, b: nat, k: nat): (p: nat) {
    if 0 < b < |vol| && k < |Words(vol[b])| then Words(vol[b])[k] else 0
  }

  /** The recursive radix-tree lookup. */
  ghost function Descend(vol: seq<Block>, b: nat, rest: seq<nat>): (r: nat)
    decreases |rest|
  {
    if rest == [] then b else Descend(vol, Pointer(vol, b, rest[0]), rest[1..])
  }

  /** The block that holds block `idx` of a file, or 0. */
  ghost function BlockOf(vol: seq<Block>, inode: Inode, idx: nat, n: nat): nat
    requires InodeOk(inode) && n > 0
  {
    var p := Path(idx, n);
    if p == [] then 0 else assert p[0] < POINTERS; Descend(vol, inode.block[p[0]], p[1..])
  }

  /** Every index block on the way lies on the volume. */
  ghost predicate ChainOk(vol: seq<Block>, b: nat, rest: seq<nat>)
    decreases |rest|
  {
    rest == [] || b == 0 || (b < |vol| && ChainOk(vol, Pointer(vol, b, rest[0]), rest[1..]))
  }

  ghost predicate MapOk(vol: seq<Block>, inode: Inode, idx: nat, n: nat)
    requires InodeOk(inode) && n > 0
  {
    var p := Path(idx, n);
    p != [] ==> assert p[0] < POINTERS; ChainOk(vol, inode.block[p[0]], p[1..])
  }

  /** Number of blocks the driver takes a file of this size to have, with 32-bit wrap-around. */
  function MaxBlocks(size: u32, bs: nat): nat
    requires bs > 0
  {
    Wrap32(size + bs - 1) / bs
  }

  /** One level down: loads index block `b` into the I/O buffer and takes pointer `k`; 0 on a hole or a failed read. */
  method Follow(d: Device, b: u32, k: nat) returns (p: u32)
    requires d.Valid() && k < Fanout(d.blockSize)
    modifies d`transfers, d`cache, d`pageRequests, d.ioBuffer
    ensures d.Valid()
    ensures old(Reliable(d)) && b < |Vol(d)| ==> Reliable(d) && p == Pointer(Vol(d), b, k)
    ensures b == 0 ==> p == 0 && (old(Reliable(d)) ==> Reliable(d))
  {
    hide Reliable, Vol;
    if b == 0 {
      return 0;
    }
    var ok := LoadBlock(d, b);
    if !ok {
      return 0;
    }
    p := U32(d.ioBuffer[4 * k .. 4 * k + 4]);
    assert d.ioBuffer[4 * k .. 4 * k + 4] == d.ioBuffer[..d.blockSize][4 * k .. 4 * k + 4];
  }

  lemma DoublePathIs(i: nat, n: nat)
    requires n > 0
    ensures DoublePath(i, n) == [DOUBLE, i / n, i % n] && DoublePath(i, n)[1..] == [i / n, i % n]
  {
  }

  lemma TriplePathIs(i: nat, n: nat)
    requires n > 0
    ensures Square(n) > 0
    ensures TriplePath(i, n) == [TRIPLE, i / Square(n), i % Square(n) / n, i % Square(n) % n]
    ensures TriplePath(i, n)[1..] == [i / Square(n), i % Square(n) / n, i % Square(n) % n]
  {
  }

  /** The levels of an indirect tree, one after the other through the same buffer. */
  method FollowPath(d: Device, top: u32, rest: seq<nat>) returns (b: u32)
    requires d.Valid() && forall k :: 0 <= k < |rest| ==> rest[k] < Fanout(d.blockSize)
    modifies d`transfers, d`cache, d`pageRequests, d.ioBuffer
    ensures d.Valid()
    ensures old(Reliable(d)) && ChainOk(Vol(d), top, rest) ==> Reliable(d) && b == Descend(Vol(d), top, rest)
  {
    hide Reliable, Vol;
    b := top;
    ghost var good := Reliable(d) && ChainOk(Vol(d), top, rest);
    for k := 0 to |rest|
      invariant d.Valid()
      invariant good ==> Reliable(d) && ChainOk(Vol(d), b, rest[k..])
      invariant Descend(Vol(d), top, rest) == Descend(Vol(d), b, rest[k..]) || !good
    {
      assert rest[k..][0] == rest[k] && rest[k..][1..] == rest[k + 1..];
      b := Follow(d, b, rest[k]);
    }
  }

  /**
   get_block_from_inode: on a reliable volume, the recursive lookup for every
   index below the size limit and 0 beyond it, although every level of the tree
   is read into the same buffer.
   */
  method GetBlock(d: Device, inode: Inode, idx: u32) returns (found: bool, b: u32)
    requires d.Valid() && InodeOk(inode)
    modifies d`transfers, d`cache, d`pageRequests, d.ioBuffer
    ensures d.Valid() && (found <==> b != 0)
    ensures old(Reliable(d))
            && (idx < MaxBlocks(inode.size, d.blockSize) ==> MapOk(Vol(d), inode, idx, Fanout(d.blockSize))) ==>
              && Reliable(d)
              && b == if idx < MaxBlocks(inode.size, d.blockSize) then BlockOf(Vol(d), inode, idx, Fanout(d.blockSize))
              else 0
  {
    hide Reliable, Vol, Square, DoublePath, TriplePath;
    var n := Fanout(d.blockSize);
    if idx >= MaxBlocks(inode.size, d.blockSize) {
      return false, 0;
    }
    if idx < DIRECT {
      b := inode.block[idx];
      return b != 0, b;
    }
    var i := idx - DIRECT;
    if i < n {
      b := FollowPath(d, inode.block[SINGLE], [i]);
      return b != 0, b;
    }
    i := i - n;
    if i < Square(n) {
      DoubleDigits(i, n);
      DoublePathIs(i, n);
      b := FollowPath(d, inode.block[DOUBLE], [i / n, i % n]);
      PathDouble(i, n);
      return b != 0, b;
    }
    i := i - Square(n);
    if i < n * Square(n) {
      TripleDigits(i, n);
      TriplePathIs(i, n);
      b := FollowPath(d, inode.block[TRIPLE], [i / Square(n), i % Square(n) / n, i % Square(n) % n]);
      PathTriple(i, n);
      return b != 0, b;
    }
    return false, 0;
  }

  // ---------- setting a block ----------

  /** An index block with pointer `k` replaced. */
  ghost function SetWord(block: seq<byte>, k: nat, v: u32): (r: seq<byte>)
    requires 4 * k + 4 <= |block|
    ensures |r| == |block|
  {
    Splice(block, 4 * k, EncodeU32(v))
  }

  lemma SetWordReads(block: seq<byte>, k: nat, v: u32)
    requires 4 * k + 4 <= |block|
    ensures Words(SetWord(block, k, v)) == Words(block)[k := v]
  {
    hide EncodeU32, U32;
    var r := SetWord(block, k, v);
    forall j: nat | j < |block| / 4 ensures Words(r)[j] == Words(block)[k := v][j] {
      if j == k {
        assert r[4 * j .. 4 * j + 4] == EncodeU32(v);
      } else {
        assert r[4 * j .. 4 * j + 4] == block[4 * j .. 4 * j + 4];
      }
    }
  }

  /** Writing a block that holds no bitmap keeps the allocator consistent. */
  lemma NonBitmapWrite(vol: seq<Block>, g: Geometry, groupFree: seq<nat>, superFree: nat, w: nat, data: Block)
    requires AllocOk(vol, g, groupFree, superFree) && w < |vol| && |data| == g.blockSize
    requires forall k :: 0 <= k < |g.bitmaps| ==> g.bitmaps[k] != w
    ensures AllocOk(vol[w := data], g, groupFree, superFree)
    ensures forall c: nat :: UsedBlock(vol[w := data], g, c) <==> UsedBlock(vol, g, c)
  {
    hide BlockAt, Count, BitStates;
    var vol' := vol[w := data];
    assert BlocksOk(vol', g);
    assert forall k: nat :: k < |g.bitmaps| ==> GroupBits(vol', g, k) == GroupBits(vol, g, k);
    assert forall k: nat, i: nat :: Clear(vol', g, k, i) <==> Clear(vol, g, k, i);
    forall c: nat ensures UsedBlock(vol', g, c) <==> UsedBlock(vol, g, c) {
      if UsedBlock(vol', g, c) {
        forall k: nat, i: nat | Clear(vol, g, k, i) ensures BlockAt(g, k, i) != c { assert Clear(vol', g, k, i); }
      }
      if UsedBlock(vol, g, c) {
        forall k: nat, i: nat | Clear(vol', g, k, i) ensures BlockAt(g, k, i) != c { assert Clear(vol, g, k, i); }
      }
    }
  }

  /** An index block is on the volume and holds no bitmap. */
  ghost predicate IndexBlockOk(vol: seq<Block>, g: Geometry, b: nat) {
    b < |vol| && forall k :: 0 <= k < |g.bitmaps| ==> g.bitmaps[k] != b
  }

  /** Loads index block `ind`, sets pointer `j` to `b` and writes it back. */
  method SetPointer(fs: Fs, ind: u32, j: nat, b: u32) returns (ok: bool)
    requires fs.Valid() && j < Fanout(fs.dev.blockSize)
    modifies fs.dev`transfers, fs.dev`cache, fs.dev`pageRequests, fs.dev`sectors, fs.dev.ioBuffer
    ensures fs.Valid()
    ensures old(fs.Ready()) && IndexBlockOk(old(Vol(fs.dev)), fs.geo, ind) ==>
              && ok && fs.Ready() && |old(Vol(fs.dev))[ind]| == fs.dev.blockSize
              && Vol(fs.dev) == old(Vol(fs.dev))[ind := SetWord(old(Vol(fs.dev))[ind], j, b)]
  {
    hide Reliable, Vol, AllocOk, EncodeU32, U32;
    ghost var v0, good := Vol(fs.dev), fs.Ready() && IndexBlockOk(Vol(fs.dev), fs.geo, ind);
    ok := LoadBlock(fs.dev, ind);
    if !ok {
      return;
    }
    if good {
      BlockLength(v0, fs.geo, fs.groupFree, fs.superFree, ind);
      NonBitmapWrite(v0, fs.geo, fs.groupFree, fs.superFree, ind, SetWord(v0[ind], j, b));
    }
    SpliceBuffer(fs.dev, 4 * j, EncodeU32(b));
    ok := StoreBlock(fs.dev, ind);
  }

  lemma BlockLength(vol: seq<Block>, g: Geometry, groupFree: seq<nat>, superFree: nat, b: nat)
    requires AllocOk(vol, g, groupFree, superFree) && b < |vol|
    ensures |vol[b]| == g.blockSize && BlocksOk(vol, g)
  {
  }

  /** The single indirect block, if there is one, can be written. */
  ghost predicate SingleOk(vol: seq<Block>, g: Geometry, inode: Inode) {
    InodeOk(inode) && (inode.block[SINGLE] != 0 ==> IndexBlockOk(vol, g, inode.block[SINGLE]))
  }

  /** What setting pointer `idx` to `b` does to volume and inode; `k` and `i` say which bit a new index block took. */
  ghost predicate SetDone(vol: seq<Block>, vol': seq<Block>, g: Geometry, inode: Inode, inode': Inode, idx: nat, b: u32,
                          ok: bool, k: nat, i: nat)
    requires BlocksOk(vol, g) && SingleOk(vol, g, inode) && InodeOk(inode')
  {
    var ind, j := inode'.block[SINGLE], idx - DIRECT;
    if idx < DIRECT then
      ok && vol' == vol && inode' == inode.(block := inode.block[idx := b])
    else if j >= Fanout(g.blockSize) then
      !ok && vol' == vol && inode' == inode
    else if inode.block[SINGLE] != 0 then
      ok && inode' == inode && vol' == vol[ind := SetWord(vol[ind], j, b)]
    else if !ok then
      vol' == vol && inode' == inode
    else
      && inode' == inode.(block := inode.block[SINGLE := ind])
      && ind > 0 && Clear(vol, g, k, i) && ind == BlockAt(g, k, i) < |vol| && IndexBlockOk(vol, g, ind)
      && vol' == Taken(vol, g, k, i)[ind := SetWord(Zeros(g.blockSize), j, b)]
  }

  /** set_block_in_inode: only direct and single indirect pointers can be set. */
  method SetBlock(fs: Fs, inode: Inode, idx: u32, b: u32) returns (ok: bool, inode': Inode, ghost k: nat, ghost i: nat)
    requires fs.Valid() && InodeOk(inode)
    modifies fs`groupFree, fs`superFree
    modifies fs.dev`transfers, fs.dev`cache, fs.dev`pageRequests, fs.dev`sectors, fs.dev.ioBuffer
    ensures fs.Valid() && InodeOk(inode') && inode' == inode.(block := inode'.block)
    ensures old(fs.Ready()) && SingleOk(old(Vol(fs.dev)), fs.geo, inode) ==>
              && fs.Ready() && BlocksOk(old(Vol(fs.dev)), fs.geo)
              && SetDone(old(Vol(fs.dev)), Vol(fs.dev), fs.geo, inode, inode', idx, b, ok, k, i)
              && (!ok && idx < DIRECT + Fanout(fs.dev.blockSize) ==> fs.superFree == 0)
  {
    hide Reliable, Vol, AllocOk, SetWord, BlockAt, Taken, GroupBits;
    ghost var v0, good := Vol(fs.dev), fs.Ready() && SingleOk(Vol(fs.dev), fs.geo, inode);
    if good {
      ReadyBlocksOk(v0, fs.geo, fs.groupFree, fs.superFree);
    }
    inode', k, i := inode, 0, 0;
    if idx < DIRECT {
      return true, inode.(block := inode.block[idx := b]), 0, 0;
    }
    var j := idx - DIRECT;
    if j >= Fanout(fs.dev.blockSize) {
      return false, inode, 0, 0;
    }
    if inode.block[SINGLE] == 0 {
      var ind;
      ind, k, i := AllocateIndex(fs);
      if ind == 0 {
        return false, inode, 0, 0;
      }
      inode' := inode.(block := inode.block[SINGLE := ind]);
    }
    ok := SetPointer(fs, inode'.block[SINGLE], j, b);
  }

  /** A new index block, zeroed. */
  method AllocateIndex(fs: Fs) returns (ind: u32, ghost k: nat, ghost i: nat)
    requires fs.Valid()
    modifies fs`groupFree, fs`superFree
    modifies fs.dev`transfers, fs.dev`cache, fs.dev`pageRequests, fs.dev`sectors, fs.dev.ioBuffer
    ensures fs.Valid()
    ensures old(fs.Ready()) ==> fs.Ready() && BlocksOk(old(Vol(fs.dev)), fs.geo)
    ensures old(fs.Ready()) && ind == 0 ==> Vol(fs.dev) == old(Vol(fs.dev)) && fs.superFree == 0
    ensures old(fs.Ready()) && ind != 0 ==>
              && Took(old(Vol(fs.dev)), Vol(fs.dev), fs.geo, ind, k, i)
              && IndexBlockOk(Vol(fs.dev), fs.geo, ind) && Vol(fs.dev)[ind] == Zeros(fs.geo.blockSize)
  {
    hide Reliable, Vol, AllocOk, BlockAt, GroupBits, IsFirstFree;
    ghost var v0, gf, sf, ready := Vol(fs.dev), fs.groupFree, fs.superFree, fs.Ready();
    if ready {
      ReadyBlocksOk(v0, fs.geo, gf, sf);
    }
    ind, k, i := AllocateBlock(fs);
    if ind != 0 {
      if ready {
        TakeKeeps(v0, fs.geo, gf, sf, k, i);
      }
      ZeroBuffer(fs.dev);
      var stored := StoreBlock(fs.dev, ind);
      if ready {
        assert Vol(fs.dev) == Taken(v0, fs.geo, k, i);
      }
    }
  }

  // ---------- what setting a pointer does to the map ----------

  /** The lookup along `rest` from `b` reads no index block `w`. */
  ghost predicate Avoids(vol: seq<Block>, b: nat, rest: seq<nat>, w: nat)
    decreases |rest|
  {
    rest == [] || (b != w && Avoids(vol, Pointer(vol, b, rest[0]), rest[1..], w))
  }

  lemma {:induction false} AvoidedWrite(vol: seq<Block>, b: nat, rest: seq<nat>, w: nat, data: Block)
    requires Avoids(vol, b, rest, w) && w < |vol|
    ensures Descend(vol[w := data], b, rest) == Descend(vol, b, rest)
    ensures forall x: nat :: Avoids(vol[w := data], b, rest, x) <==> Avoids(vol, b, rest, x)
    decreases |rest|
  {
    if rest != [] {
      AvoidedWrite(vol, Pointer(vol, b, rest[0]), rest[1..], w, data);
    }
  }

  /** The lookup of `idx` avoids the blocks that setting another pointer writes. */
  ghost predicate Undisturbed(vol: seq<Block>, g: Geometry, inode: Inode, inode': Inode, idx: nat, k: nat)
    requires InodeOk(inode) && InodeOk(inode') && BlockSizeOk(g.blockSize)
  {
    var p := Path(idx, Fanout(g.blockSize));
    p != [] && p[0] > SINGLE && p[0] < POINTERS ==>
      && Avoids(vol, inode.block[p[0]], p[1..], inode'.block[SINGLE])
      && (k < |g.bitmaps| ==> Avoids(vol, inode.block[p[0]], p[1..], g.bitmaps[k]))
  }

  lemma ZeroWords(bs: nat, j: nat)
    requires 4 * j + 4 <= bs
    ensures j < |Words(Zeros(bs))| && Words(Zeros(bs))[j] == 0
  {
    assert Zeros(bs)[4 * j .. 4 * j + 4] == [0, 0, 0, 0];
  }

  /** After a successful set, the lookup of a direct or single indirect index finds the new map. */
  lemma SetThenLookupLow(vol: seq<Block>, vol': seq<Block>, g: Geometry, inode: Inode, inode': Inode, idx: nat, b: u32,
                         k: nat, i: nat, other: nat)
    requires BlocksOk(vol, g) && SingleOk(vol, g, inode) && InodeOk(inode')
    requires SetDone(vol, vol', g, inode, inode', idx, b, true, k, i)
    requires other < DIRECT + Fanout(g.blockSize)
    ensures BlockOf(vol', inode', other, Fanout(g.blockSize)) ==
            if other == idx then b else BlockOf(vol, inode, other, Fanout(g.blockSize))
  {
    hide Square, DoublePath, TriplePath, SetWord, Words, BlockAt, GroupBits;
    var n := Fanout(g.blockSize);
    PathLow(other, n);
    if other >= DIRECT {
      var j := other - DIRECT;
      assert [SINGLE, j][1..] == [j] && [j][1..] == [];
      var s, s' := inode.block[SINGLE], inode'.block[SINGLE];
      assert Descend(vol', s', [j]) == Pointer(vol', s', j) && Descend(vol, s, [j]) == Pointer(vol, s, j);
      if idx >= DIRECT {
        if s != 0 {
          SetWordReads(vol[s], idx - DIRECT, b);
        } else {
          SetWordReads(Zeros(g.blockSize), idx - DIRECT, b);
          ZeroWords(g.blockSize, j);
        }
      }
    }
  }

  lemma SetThenLookupHigh(vol: seq<Block>, vol': seq<Block>, g: Geometry, inode: Inode, inode': Inode, idx: nat, b: u32,
                          k: nat, i: nat, other: nat)
    requires BlocksOk(vol, g) && SingleOk(vol, g, inode) && InodeOk(inode')
    requires SetDone(vol, vol', g, inode, inode', idx, b, true, k, i)
    requires other >= DIRECT + Fanout(g.blockSize) && Undisturbed(vol, g, inode, inode', other, k)
    ensures BlockOf(vol', inode', other, Fanout(g.blockSize)) == BlockOf(vol, inode, other, Fanout(g.blockSize))
  {
    hide Square, SetWord, Words, BlockAt, GroupBits, Descend, Avoids;
    var n := Fanout(g.blockSize);
    var p := Path(other, n);
    if p != [] {
      assert p[0] > SINGLE && inode'.block[p[0]] == inode.block[p[0]];
      var top, rest, ind := inode.block[p[0]], p[1..], inode'.block[SINGLE];
      if idx >= DIRECT && inode.block[SINGLE] != 0 {
        AvoidedWrite(vol, top, rest, ind, SetWord(vol[ind], idx - DIRECT, b));
      } else if idx >= DIRECT {
        var v1 := vol[g.bitmaps[k] := BitmapSet(vol[g.bitmaps[k]], i)];
        AvoidedWrite(vol, top, rest, g.bitmaps[k], BitmapSet(vol[g.bitmaps[k]], i));
        AvoidedWrite(v1, top, rest, ind, Zeros(g.blockSize));
        AvoidedWrite(v1[ind := Zeros(g.blockSize)], top, rest, ind, SetWord(Zeros(g.blockSize), idx - DIRECT, b));
      }
    }
  }

  /** Setting a pointer and looking any index up: the new block at `idx`, and no other index moves. */
  lemma SetThenLookup(vol: seq<Block>, vol': seq<Block>, g: Geometry, inode: Inode, inode': Inode, idx: nat, b: u32,
                      k: nat, i: nat, other: nat)
    requires BlocksOk(vol, g) && SingleOk(vol, g, inode) && InodeOk(inode')
    requires SetDone(vol, vol', g, inode, inode', idx, b, true, k, i)
    requires Undisturbed(vol, g, inode, inode', other, k)
    ensures BlockOf(vol', inode', other, Fanout(g.blockSize)) ==
            if other == idx then b else BlockOf(vol, inode, other, Fanout(g.blockSize))
  {
    hide BlockOf, SetWord, Taken, Path;
    if other < DIRECT + Fanout(g.blockSize) {
      SetThenLookupLow(vol, vol', g, inode, inode', idx, b, k, i, other);
    } else {
      SetThenLookupHigh(vol, vol', g, inode, inode', idx, b, k, i, other);
    }
  }
}
