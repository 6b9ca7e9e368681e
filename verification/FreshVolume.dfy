/**
 Where runs start: a consistent volume right after mounting, with its metadata
 blocks in use and only empty files.
 */
module FreshVolume {
  import opened Bytes
  import opened Volume
  import opened InodeTable
  import opened BlockAllocator
  import opened Ext2State
  import opened BlockMap
  import opened FileImage
  import opened FileWorld
  import opened FileSteps
  import opened OpenFiles

  ghost predicate IsTableBlock(g: Geometry, b: nat)
    requires GeometryOk(g)
  {
    exists ino: u32 :: InodeExists(g, ino) && BlockOfInode(g, ino) == b
  }

  /** The roles of the metadata blocks alone. */
  ghost function MetadataOwners(g: Geometry, n: nat): Owners
    requires GeometryOk(g)
  {
    map b: nat | b < n && (b in g.bitmaps || IsTableBlock(g, b)) :: if b in g.bitmaps then Bitmap(GroupWith(g, b))
    else Table
  }

  ghost function GroupWith(g: Geometry, b: nat): (k: nat)
    requires b in g.bitmaps
    ensures k < |g.bitmaps| && g.bitmaps[k] == b
  {
    var k :| 0 <= k < |g.bitmaps| && g.bitmaps[k] == b;
    k
  }

  /** Bitmaps and inode tables are apart, and in use. */
  ghost predicate MetadataInUse(vol: seq<Block>, g: Geometry) {
    && VolumeOk(vol, g) && BlocksOk(vol, g)
    && (forall k :: 0 <= k < |g.bitmaps| ==> !IsTableBlock(g, g.bitmaps[k]) && UsedBlock(vol, g, g.bitmaps[k]))
    && (forall b: nat :: IsTableBlock(g, b) ==> UsedBlock(vol, g, b))
  }

  lemma MetadataWorld(vol: seq<Block>, g: Geometry)
    requires MetadataInUse(vol, g)
    ensures World(vol, g, MetadataOwners(g, |vol|))
  {
    hide UsedBlock, BlockOfInode, InodeExists;
    var owner := MetadataOwners(g, |vol|);
    forall ino: u32 | InodeExists(g, ino)
      ensures BlockOfInode(g, ino) in owner && owner[BlockOfInode(g, ino)] == Table
    {
      InodePlace(g, |vol|, ino);
      assert IsTableBlock(g, BlockOfInode(g, ino));
    }
  }

  /** An inode without size or indirect block is a file without bytes. */
  lemma EmptyFile(vol: seq<Block>, g: Geometry, owner: Owners, ino: u32)
    requires VolumeOk(vol, g) && InodeExists(g, ino)
    requires InodeAt(vol, g, ino).size == 0 && InodeAt(vol, g, ino).block[SINGLE] == 0
    ensures FileAt(vol, g, owner, ino, [])
  {
    hide InodeAt, InodeExists, TablesOk;
    CeilBlocks(0, g.blockSize);
    assert MaxBlocks(0, g.blockSize) == 0;
  }

  /** A mounted volume with empty files and no open handles is where any run of calls may start. */
  lemma FreshOk(fs: Fs, files: set<u32>)
    requires fs.Ready() && MetadataInUse(Vol(fs.dev), fs.geo)
    requires fs.owner == MetadataOwners(fs.geo, |Vol(fs.dev)|)
    requires forall ino :: ino in files ==> InodeExists(fs.geo, ino)
    requires forall ino :: ino in files ==>
               InodeAt(Vol(fs.dev), fs.geo, ino).size == 0 && InodeAt(Vol(fs.dev), fs.geo, ino).block[SINGLE] == 0
    requires fs.files == map ino | ino in files :: []
    requires forall i :: 0 <= i < |fs.openFiles| ==> !fs.openFiles[i].isOpen
    ensures FsOk(fs)
  {
    hide Vol, Reliable, AllocOk, InodeAt, InodeExists, UsedBlock, VolumeOk;
    var vol := Vol(fs.dev);
    MetadataWorld(vol, fs.geo);
    forall m: u32 | m in fs.files ensures FileAt(vol, fs.geo, fs.owner, m, fs.files[m]) {
      EmptyFile(vol, fs.geo, fs.owner, m);
    }
  }
}
