/**
 Files as byte strings: which block of the volume belongs to which place of
 which file, and what single block writes do to the contents of files.
 */
module FileImage {
  import opened Bytes
  import opened BlockCache
  import opened Volume
  import opened InodeTable
  import opened BlockAllocator
  import opened Ext2State
  import opened BlockMap

  /** Metadata has its roles, and every owned block is a used block of the volume. */
  ghost predicate World(vol: seq<Block>, g: Geometry, owner: Owners) {
    && VolumeOk(vol, g) && BlocksOk(vol, g)
    && (forall k :: 0 <= k < |g.bitmaps| ==> g.bitmaps[k] in owner && owner[g.bitmaps[k]] == Bitmap(k))
    && (forall ino: u32 :: InodeExists(g, ino) ==> BlockOfInode(g,
                                                                ino) in owner && owner[BlockOfInode(g, ino)] == Table)
    && (forall b :: b in owner ==> b < |vol| && UsedBlock(vol, g, b))
  }

  /** Block `b` is the file block at `prefix`, and the pointers along `rest` lead on through file blocks. */
  ghost predicate Owned(vol: seq<Block>, owner: Owners, ino: u32, b: nat, prefix: seq<nat>, rest: seq<nat>)
    decreases |rest|
  {
    && 0 < b < |vol| && b in owner && owner[b] == FileBlock(ino, prefix)
    && (rest != [] ==> Owned(vol, owner, ino, Pointer(vol, b, rest[0]), prefix + [rest[0]], rest[1..]))
  }

  /** Block `w` is none of the index blocks between `prefix` and the end of `rest`. */
  ghost predicate NotOnWay(owner: Owners, ino: u32, w: nat, prefix: seq<nat>, rest: seq<nat>) {
    w in owner && owner[w].FileBlock? && owner[w].ino == ino ==>
      !(|owner[w].path| < |prefix| + |rest| && prefix <= owner[w].path && owner[w].path <= prefix + rest)
  }

  lemma {:induction false} OwnedLeaf(vol: seq<Block>, owner: Owners, ino: u32, b: nat, prefix: seq<nat>, rest: seq<nat>)
    requires Owned(vol, owner, ino, b, prefix, rest)
    ensures Owned(vol, owner, ino, Descend(vol, b, rest), prefix + rest, [])
    ensures ChainOk(vol, b, rest)
    decreases |rest|
  {
    if rest == [] {
      assert prefix + rest == prefix;
    } else {
      OwnedLeaf(vol, owner, ino, Pointer(vol, b, rest[0]), prefix + [rest[0]], rest[1..]);
      assert prefix + [rest[0]] + rest[1..] == prefix + rest;
    }
  }

  /** Writing a block that is not an index block on the way changes neither the way nor its end. */
  lemma {:induction false} OwnedFrame(vol: seq<Block>, owner: Owners, ino: u32, b: nat, prefix: seq<nat>,
                                      rest: seq<nat>, w: nat, data: Block)
    requires Owned(vol, owner, ino, b, prefix, rest) && w < |vol| && NotOnWay(owner, ino, w, prefix, rest)
    ensures Owned(vol[w := data], owner, ino, b, prefix, rest)
    ensures Descend(vol[w := data], b, rest) == Descend(vol, b, rest)
    decreases |rest|
  {
    if rest != [] {
      assert prefix + rest == prefix + [rest[0]] + rest[1..];
      assert prefix <= prefix + rest;
      assert b != w;
      OwnedFrame(vol, owner, ino, Pointer(vol, b, rest[0]), prefix + [rest[0]], rest[1..], w, data);
    }
  }

  /** More owned blocks do not disturb a way. */
  lemma {:induction false} OwnedMore(vol: seq<Block>, owner: Owners, owner': Owners, ino: u32, b: nat, prefix: seq<nat>,
                                     rest: seq<nat>)
    requires Owned(vol, owner, ino, b, prefix, rest)
    requires forall c :: c in owner ==> c in owner' && owner'[c] == owner[c]
    ensures Owned(vol, owner', ino, b, prefix, rest)
    decreases |rest|
  {
    if rest != [] {
      OwnedMore(vol, owner, owner', ino, Pointer(vol, b, rest[0]), prefix + [rest[0]], rest[1..]);
    }
  }

  // ---------- contents ----------

  /** Block `idx` of the file is mapped through blocks it owns. */
  ghost predicate Mapped(vol: seq<Block>, owner: Owners, ino: u32, inode: Inode, idx: nat, n: nat)
    requires InodeOk(inode) && n > 0
  {
    var p := Path(idx, n);
    p != [] && p[0] < POINTERS && Owned(vol, owner, ino, inode.block[p[0]], [p[0]], p[1..])
  }

  lemma MappedBlock(vol: seq<Block>, owner: Owners, ino: u32, inode: Inode, idx: nat, n: nat)
    requires InodeOk(inode) && n > 0 && Mapped(vol, owner, ino, inode, idx, n)
    ensures var b := BlockOf(vol, inode, idx, n);
            0 < b < |vol| && b in owner && owner[b] == FileBlock(ino, Path(idx, n))
    ensures MapOk(vol, inode, idx, n)
  {
    hide Path;
    var p := Path(idx, n);
    OwnedLeaf(vol, owner, ino, inode.block[p[0]], [p[0]], p[1..]);
    assert [p[0]] + p[1..] == p;
  }

  lemma MappedFrame(vol: seq<Block>, owner: Owners, ino: u32, inode: Inode, idx: nat, n: nat, w: nat, data: Block)
    requires InodeOk(inode) && n > 0 && Mapped(vol, owner, ino, inode, idx, n) && w < |vol|
    requires w in owner && owner[w].FileBlock? && owner[w].ino == ino ==> !(owner[w].path < Path(idx, n))
    ensures Mapped(vol[w := data], owner, ino, inode, idx, n)
    ensures BlockOf(vol[w := data], inode, idx, n) == BlockOf(vol, inode, idx, n)
  {
    hide Path, Descend, Owned;
    var p := Path(idx, n);
    assert [p[0]] + p[1..] == p;
    OwnedFrame(vol, owner, ino, inode.block[p[0]], [p[0]], p[1..], w, data);
  }

  /** Distinct indices have distinct paths, and no path extends another. */
  lemma PathsDiffer(i: nat, j: nat, n: nat)
    requires n > 0 && i != j && i < Capacity(n) && j < Capacity(n)
    ensures Path(i, n) != Path(j, n) && !(Path(i, n) < Path(j, n))
  {
    hide Path, Index, Capacity;
    PathThenIndex(i, n);
    PathThenIndex(j, n);
  }

  /** The first `count` blocks of the file are mapped. */
  ghost predicate Covered(vol: seq<Block>, owner: Owners, ino: u32, inode: Inode, count: nat, n: nat)
    requires InodeOk(inode) && n > 0
  {
    count <= Capacity(n) && forall idx: nat :: idx < count ==> Mapped(vol, owner, ino, inode, idx, n)
  }

  /** The single indirect block, if there is one, belongs to the file. */
  ghost predicate SingleOwned(owner: Owners, ino: u32, inode: Inode)
    requires InodeOk(inode)
  {
    inode.block[SINGLE] != 0 ==> inode.block[SINGLE] in owner && owner[inode.block[SINGLE]] == FileBlock(ino, [SINGLE])
  }

  /** Byte `i` of the file, where it is mapped. */
  ghost function ByteAt(vol: seq<Block>, inode: Inode, i: nat, bs: nat): int
    requires InodeOk(inode) && BlockSizeOk(bs)
  {
    var b := BlockOf(vol, inode, i / bs, Fanout(bs));
    if b < |vol| && i % bs < |vol[b]| then vol[b][i % bs] else 0
  }

  /**
   The file at `inode` owns its first `count` blocks and holds `data` in them.
   */
  ghost predicate Holds(vol: seq<Block>, owner: Owners, ino: u32, inode: Inode, count: nat, data: seq<byte>, bs: nat)
    requires InodeOk(inode) && BlockSizeOk(bs)
  {
    && Covered(vol, owner, ino, inode, count, Fanout(bs))
    && SingleOwned(owner, ino, inode)
    && |data| <= count * bs
    && forall i: nat :: i < |data| ==> ByteAt(vol, inode, i, bs) == data[i]
  }

  lemma ByteBlock(i: nat, count: nat, bs: nat)
    requires bs > 0 && i < count * bs
    ensures i / bs < count
  {
    QuotientBound(i, count, bs);
  }

  /** A write to a block of another file, of no file or outside the map leaves a file as it is. */
  lemma OtherWrite(vol: seq<Block>, owner: Owners, ino: u32, inode: Inode, count: nat, data: seq<byte>, bs: nat,
                   w: nat, block: Block)
    requires InodeOk(inode) && BlockSizeOk(bs) && Holds(vol, owner, ino, inode, count, data, bs) && w < |vol|
    requires w in owner ==> !owner[w].FileBlock? || owner[w].ino != ino
    ensures Holds(vol[w := block], owner, ino, inode, count, data, bs)
  {
    hide Mapped, Path, BlockOf;
    var vol' := vol[w := block];
    forall idx: nat | idx < count ensures Mapped(vol', owner, ino, inode, idx, Fanout(bs)) {
      MappedFrame(vol, owner, ino, inode, idx, Fanout(bs), w, block);
    }
    forall i: nat | i < |data| ensures ByteAt(vol', inode, i, bs) == data[i] {
      ByteBlock(i, count, bs);
      MappedBlock(vol, owner, ino, inode, i / bs, Fanout(bs));
      MappedFrame(vol, owner, ino, inode, i / bs, Fanout(bs), w, block);
      assert ByteAt(vol, inode, i, bs) == data[i];
    }
  }

  /** Giving a role to a block without one leaves every file as it is. */
  lemma MoreOwners(vol: seq<Block>, owner: Owners, owner': Owners, ino: u32, inode: Inode, count: nat, data: seq<byte>,
                   bs: nat)
    requires InodeOk(inode) && BlockSizeOk(bs) && Holds(vol, owner, ino, inode, count, data, bs)
    requires forall c :: c in owner ==> c in owner' && owner'[c] == owner[c]
    ensures Holds(vol, owner', ino, inode, count, data, bs)
  {
    hide Path, BlockOf, ByteAt, Capacity;
    forall idx: nat | idx < count ensures Mapped(vol, owner', ino, inode, idx, Fanout(bs)) {
      assert Mapped(vol, owner, ino, inode, idx, Fanout(bs));
      var p := Path(idx, Fanout(bs));
      OwnedMore(vol, owner, owner', ino, inode.block[p[0]], [p[0]], p[1..]);
    }
  }

  /** Writing data block `idx` replaces exactly the bytes of that block. */
  lemma DataWrite(vol: seq<Block>, owner: Owners, ino: u32, inode: Inode, count: nat, data: seq<byte>, bs: nat,
                  idx: nat, block: Block, data': seq<byte>)
    requires InodeOk(inode) && BlockSizeOk(bs) && Holds(vol, owner, ino, inode, count, data, bs)
    requires idx < count && |block| == bs && |data'| <= count * bs
    requires forall i: nat :: i < |data'| && i / bs == idx ==> data'[i] == block[i % bs]
    requires forall i: nat :: i < |data'| && i / bs != idx ==> i < |data| && data'[i] == data[i]
    ensures BlockOf(vol, inode, idx, Fanout(bs)) < |vol|
    ensures Holds(vol[BlockOf(vol, inode, idx, Fanout(bs)) := block], owner, ino, inode, count, data', bs)
  {
    hide Mapped, Path, BlockOf, Capacity;
    var n := Fanout(bs);
    MappedBlock(vol, owner, ino, inode, idx, n);
    var w := BlockOf(vol, inode, idx, n);
    var vol' := vol[w := block];
    forall j: nat | j < count
      ensures Mapped(vol', owner, ino, inode, j, n) && BlockOf(vol', inode, j, n) == BlockOf(vol, inode, j, n)
      ensures j != idx ==> BlockOf(vol, inode, j, n) != w
    {
      MappedBlock(vol, owner, ino, inode, j, n);
      if j != idx {
        PathsDiffer(idx, j, n);
      }
      MappedFrame(vol, owner, ino, inode, j, n, w, block);
    }
    forall i: nat | i < |data'| ensures ByteAt(vol', inode, i, bs) == data'[i] {
      ByteBlock(i, count, bs);
      if i / bs != idx {
        assert ByteAt(vol, inode, i, bs) == data[i];
      }
    }
  }

  // ---------- adding a block at the end ----------

  /** Roles after block `b` became block `idx` of the file, with a new single indirect block if there was none. */
  function AddedOwners(owner: Owners, ino: u32, inode: Inode, inode': Inode, idx: nat, b: nat, n: nat): Owners
    requires InodeOk(inode) && InodeOk(inode') && n > 0
  {
    var o := owner[b := FileBlock(ino, Path(idx, n))];
    if idx >= DIRECT && inode.block[SINGLE] == 0 then o[inode'.block[SINGLE] := FileBlock(ino, [SINGLE])] else o
  }

  /** The preconditions of adding block `idx` to a file of `idx` blocks. */
  ghost predicate CanAppend(vol: seq<Block>, vol': seq<Block>, g: Geometry, owner: Owners, ino: u32, inode: Inode,
                            inode': Inode, idx: nat, b: u32, k: nat, i: nat, data: seq<byte>)
  {
    && BlocksOk(vol, g) && SingleOk(vol, g, inode) && InodeOk(inode')
    && SetDone(vol, vol', g, inode, inode', idx, b, true, k, i)
    && Holds(vol, owner, ino, inode, idx, data, g.blockSize)
    && idx < DIRECT + Fanout(g.blockSize)
    && 0 < b < |vol| && b !in owner
    && (idx >= DIRECT && inode.block[SINGLE] == 0 ==>
          inode'.block[SINGLE] !in owner && inode'.block[SINGLE] != b
          && g.bitmaps[k] in owner && owner[g.bitmaps[k]] == Bitmap(k) && g.bitmaps[k] != inode'.block[SINGLE])
  }

  /** Below a missing single indirect block a file has only direct blocks. */
  lemma NoSingleMeansDirect(vol: seq<Block>, owner: Owners, ino: u32, inode: Inode, count: nat, n: nat)
    requires InodeOk(inode) && n > 0 && Covered(vol, owner, ino, inode, count, n) && inode.block[SINGLE] == 0
    ensures count <= DIRECT
  {
    PathLow(DIRECT, n);
    assert !Mapped(vol, owner, ino, inode, DIRECT, n);
  }

  /** The blocks that appending writes are none of the file's data blocks so far. */
  lemma AppendKeepsBlock(vol: seq<Block>, vol': seq<Block>, g: Geometry, owner: Owners, ino: u32, inode: Inode,
                         inode': Inode, idx: nat, b: u32, k: nat, i: nat, data: seq<byte>, j: nat)
    requires CanAppend(vol, vol', g, owner, ino, inode, inode', idx, b, k, i, data) && j < idx
    ensures BlockOf(vol', inode', j, Fanout(g.blockSize)) == BlockOf(vol, inode, j, Fanout(g.blockSize)) < |vol|
    ensures |vol'| == |vol|
    ensures vol'[BlockOf(vol, inode, j, Fanout(g.blockSize))] == vol[BlockOf(vol, inode, j, Fanout(g.blockSize))]
  {
    hide Path, BlockOf, SetWord, BlockAt, Zeros, GroupBits, Mapped;
    var n := Fanout(g.blockSize);
    SetThenLookupLow(vol, vol', g, inode, inode', idx, b, k, i, j);
    assert Mapped(vol, owner, ino, inode, j, n);
    MappedBlock(vol, owner, ino, inode, j, n);
    PathLow(j, n);
  }

  lemma AppendKeepsMapped(vol: seq<Block>, vol': seq<Block>, g: Geometry, owner: Owners, ino: u32, inode: Inode,
                          inode': Inode, idx: nat, b: u32, k: nat, i: nat, data: seq<byte>, j: nat)
    requires CanAppend(vol, vol', g, owner, ino, inode, inode', idx, b, k, i, data) && j <= idx
    ensures Mapped(vol', AddedOwners(owner, ino, inode, inode', idx, b, Fanout(g.blockSize)), ino, inode', j,
                   Fanout(g.blockSize))
  {
    hide Path, BlockAt, Zeros, GroupBits, SetWord, Words;
    var n := Fanout(g.blockSize);
    var owner' := AddedOwners(owner, ino, inode, inode', idx, b, n);
    PathLow(j, n);
    PathLow(idx, n);
    if j < idx {
      assert Mapped(vol, owner, ino, inode, j, n);
    }
    if j >= DIRECT {
      assert [SINGLE, j - DIRECT][1..] == [j - DIRECT] && [j - DIRECT][1..] == [];
      var ind, ind' := inode.block[SINGLE], inode'.block[SINGLE];
      if ind == 0 {
        NoSingleMeansDirect(vol, owner, ino, inode, idx, n);
        SetWordReads(Zeros(g.blockSize), idx - DIRECT, b);
      } else {
        SetWordReads(vol[ind], idx - DIRECT, b);
      }
      assert Pointer(vol', ind', j - DIRECT) == if j == idx then b else Pointer(vol, ind, j - DIRECT);
      assert [SINGLE] + [j - DIRECT] == [SINGLE, j - DIRECT];
      if j < idx {
        assert Owned(vol, owner, ino, ind, [SINGLE], [j - DIRECT]);
        assert Owned(vol, owner, ino, Pointer(vol, ind, j - DIRECT), [SINGLE, j - DIRECT], []);
      }
      assert Owned(vol', owner', ino, Pointer(vol', ind', j - DIRECT), [SINGLE, j - DIRECT], []);
      assert Owned(vol', owner', ino, ind', [SINGLE], [j - DIRECT]);
    } else {
      assert [j][1..] == [] && |vol'| == |vol|;
      assert j < idx ==> inode'.block[j] == inode.block[j];
    }
  }

  /** Appending a block keeps the contents and covers one block more. */
  lemma Append(vol: seq<Block>, vol': seq<Block>, g: Geometry, owner: Owners, ino: u32, inode: Inode, inode': Inode,
               idx: nat, b: u32, k: nat, i: nat, data: seq<byte>)
    requires CanAppend(vol, vol', g, owner, ino, inode, inode', idx, b, k, i, data)
    ensures Holds(vol', AddedOwners(owner, ino, inode, inode', idx, b, Fanout(g.blockSize)), ino, inode', idx + 1, data,
                  g.blockSize)
  {
    hide Mapped, Path, BlockOf, SetDone, Square;
    var n, bs := Fanout(g.blockSize), g.blockSize;
    var owner' := AddedOwners(owner, ino, inode, inode', idx, b, n);
    forall j: nat | j < idx + 1 ensures Mapped(vol', owner', ino, inode', j, n) {
      AppendKeepsMapped(vol, vol', g, owner, ino, inode, inode', idx, b, k, i, data, j);
    }
    forall x: nat | x < |data| ensures ByteAt(vol', inode', x, bs) == data[x] {
      ByteBlock(x, idx, bs);
      AppendKeepsBlock(vol, vol', g, owner, ino, inode, inode', idx, b, k, i, data, x / bs);
      assert ByteAt(vol, inode, x, bs) == data[x];
    }
    AppendSingle(vol, vol', g, owner, ino, inode, inode', idx, b, k, i, data);
  }

  lemma AppendSingle(vol: seq<Block>, vol': seq<Block>, g: Geometry, owner: Owners, ino: u32, inode: Inode,
                     inode': Inode, idx: nat, b: u32, k: nat, i: nat, data: seq<byte>)
    requires CanAppend(vol, vol', g, owner, ino, inode, inode', idx, b, k, i, data)
    ensures SingleOwned(AddedOwners(owner, ino, inode, inode', idx, b, Fanout(g.blockSize)), ino, inode')
    ensures idx + 1 <= Capacity(Fanout(g.blockSize))
  {
    hide Path, SetWord, Taken, Holds;
    assert SingleOwned(owner, ino, inode) by { HoldsSingle(vol, owner, ino, inode, idx, data, g.blockSize); }
  }

  lemma HoldsSingle(vol: seq<Block>, owner: Owners, ino: u32, inode: Inode, count: nat, data: seq<byte>, bs: nat)
    requires InodeOk(inode) && BlockSizeOk(bs) && Holds(vol, owner, ino, inode, count, data, bs)
    ensures SingleOwned(owner, ino, inode)
  {
  }
}
