/**
 Whole runs on one volume: reads and writes through handles, and lookups,
 additions and removals of names in directories, in any order.
 */
module VolumeRuns {
  import opened Bytes
  import opened BlockCache
  import opened Volume
  import opened InodeTable
  import opened Ext2State
  import opened BlockMap
  import opened FileWorld
  import opened FileSteps
  import opened DirBlock
  import opened DirList
  import opened DirSteps
  import opened Directory
  import OpenFiles
  import DirRuns

  datatype Op = OnFile(op: OpenFiles.Op) | OnDir(dir: u32, dirOp: DirRuns.Op)
  datatype Answer = FromFile(a: OpenFiles.Answer) | FromDir(dirAnswer: DirRuns.Answer)

  /** A point of a run: files and handles as callers see them, the volume, and the handles themselves. */
  datatype Point = Point(plain: OpenFiles.Plain, look: DirRuns.Look, handles: seq<OpenFile>)

  ghost function At(fs: Fs): Point
    requires BlockSizeOk(fs.dev.blockSize)
    reads fs, fs.dev`sectors
  {
    Point(OpenFiles.View(fs), DirRuns.LookAt(fs), fs.openFiles)
  }

  /** The volume is in order, and every one of `dirs` is a directory with distinct names that nobody has open. */
  ghost predicate Running(fs: Fs, dirs: set<u32>)
    reads fs, fs.dev
  {
    OpenFiles.FsOk(fs) && forall d :: d in dirs ==> DirRuns.Running(fs, d)
  }

  /** Where the call may be made: directory calls on one of the directories, and as `DirRuns.Allowed` says. */
  ghost predicate Allowed(p: Point, g: Geometry, dirs: set<u32>, op: Op) {
    op.OnDir? ==> op.dir in dirs && DirRuns.Allowed(p.look, g, p.handles, op.dir, op.dirOp)
  }

  /**
   A call on a file is one on plain byte strings and leaves the directories alone; a
   call on a directory is one on a map from names and leaves handles and all other
   files alone.
   */
  ghost predicate Step(p: Point, g: Geometry, dirs: set<u32>, op: Op, a: Answer, q: Point) {
    match op
    case OnFile(o) =>
      && a.FromFile? && BlockSizeOk(g.blockSize) && OpenFiles.PlainOk(p.plain)
      && OpenFiles.Step(p.plain, o, a.a, q.plain, SizeLimit(g.blockSize))
      && SameDirs(p.plain.files, q.plain.files, dirs) && HeadsKept(p.look.vol, q.look.vol, g)
    case OnDir(d, o) =>
      && a.FromDir? && DirRuns.Readable(p.look, g, d) && DirRuns.Readable(q.look, g, d)
      && DirRuns.Step(p.look, g, d, o, a.dirAnswer, q.look)
      && q.plain.handles == p.plain.handles
  }

  ghost predicate SameDirs(files: Files, files': Files, dirs: set<u32>) {
    forall d :: d in dirs ==> d in files && d in files' && files'[d] == files[d]
  }

  // ---------- a directory that a call does not touch ----------

  lemma DirStays(fs: Fs, dir: u32, p: Point)
    requires OpenFiles.FsOk(fs) && BlockSizeOk(fs.dev.blockSize) && ModesKept(p.look.vol, Vol(fs.dev), fs.geo)
    requires DirWas(p, fs.geo, dir) && dir in fs.files && fs.files[dir] == p.look.files[dir]
    requires Unopened(fs.openFiles, dir)
    ensures DirRuns.Running(fs, dir)
  {
    hide OpenFiles.FsOk, Vol, InodeAt, DirOk, Listing, DistinctNames, TablesOk;
  }

  /** What made `dir` a directory of the run at point `p`. */
  ghost predicate DirWas(p: Point, g: Geometry, dir: u32) {
    && BlockSizeOk(g.blockSize) && dir in p.look.files && DirOk(p.look.files[dir], g.blockSize)
    && DistinctNames(Listing(p.look.files[dir], g.blockSize))
    && VolumeOk(p.look.vol, g) && InodeExists(g, dir) && IsDir(InodeAt(p.look.vol, g, dir).mode)
  }

  lemma DirIs(fs: Fs, dir: u32)
    requires DirRuns.Running(fs, dir) && BlockSizeOk(fs.dev.blockSize)
    ensures DirWas(At(fs), fs.geo, dir) && Unopened(fs.openFiles, dir) && At(fs).look.files == fs.files
  {
    hide OpenFiles.FsOk, Vol, InodeAt, DirOk, Listing, DistinctNames, VolumeOk, InodeExists, Unopened;
  }

  // ---------- calls on files ----------

  /** A call through a handle changes at most the file of the handle, and no handle's inode. */
  lemma FileCallElsewhere(s: OpenFiles.Plain, o: OpenFiles.Op, a: OpenFiles.Answer, s': OpenFiles.Plain, limit: nat,
                          handles: seq<OpenFile>, handles': seq<OpenFile>, dir: u32)
    requires OpenFiles.PlainOk(s) && OpenFiles.Step(s, o, a, s', limit)
    requires s.handles == OpenFiles.HandlesView(handles) && s'.handles == OpenFiles.HandlesView(handles')
    requires Unopened(handles, dir) && dir in s.files
    ensures dir in s'.files && s'.files[dir] == s.files[dir] && Unopened(handles', dir)
  {
    hide FileSteps.Overlay;
    assert forall i :: 0 <= i < |handles| ==>
             s.handles[i].ino == handles[i].inodeNum && s.handles[i].isOpen == handles[i].isOpen;
    assert forall i :: 0 <= i < |handles'| ==>
             s'.handles[i].ino == handles'[i].inodeNum && s'.handles[i].isOpen == handles'[i].isOpen;
  }

  method DoFile(fs: Fs, o: OpenFiles.Op, ghost dirs: set<u32>, ghost fine: bool) returns (a: Answer)
    requires fs.Valid() && BlockSizeOk(fs.dev.blockSize) && OpenFiles.Sized(o) && (fine ==> Running(fs, dirs))
    modifies fs`groupFree, fs`superFree, fs`owner, fs`openFiles, fs`files
    modifies fs.dev`transfers, fs.dev`cache, fs.dev`pageRequests, fs.dev`sectors, fs.dev.ioBuffer
    ensures fs.Valid()
    ensures fine ==> Running(fs, dirs) && Step(old(At(fs)), fs.geo, dirs, OnFile(o), a, At(fs))
  {
    hide OpenFiles.FsOk, OpenFiles.Step, OpenFiles.PlainOk, OpenFiles.Called, DirRuns.Running, DirWas, Vol, ModesKept,
         HeadsKept, Unopened;
    ghost var p := At(fs);
    if fine {
      forall d | d in dirs ensures DirWas(p, fs.geo, d) && Unopened(fs.openFiles, d) { DirIs(fs, d); }
    }
    var r := OpenFiles.Call(fs, o);
    a := FromFile(r);
    if fine {
      OpenFiles.CalledStep(fs, p.plain, p.look.vol, o, r);
      HeadsModes(p.look.vol, Vol(fs.dev), fs.geo);
      forall d | d in dirs
        ensures d in p.plain.files && d in fs.files && fs.files[d] == p.plain.files[d] && DirRuns.Running(fs, d)
      {
        WasFile(p, fs.geo, d);
        FileCallElsewhere(p.plain, o, r, OpenFiles.View(fs), SizeLimit(fs.geo.blockSize), p.handles, fs.openFiles, d);
        DirStays(fs, d, p);
      }
    }
  }

  lemma WasFile(p: Point, g: Geometry, d: u32)
    requires DirWas(p, g, d)
    ensures d in p.look.files
  {
  }

  // ---------- calls on directories ----------

  method DoDir(fs: Fs, dir: u32, o: DirRuns.Op, ghost dirs: set<u32>, ghost fine: bool) returns (a: Answer)
    requires fs.Valid() && BlockSizeOk(fs.dev.blockSize)
    requires fine ==> Running(fs, dirs) && Allowed(At(fs), fs.geo, dirs, OnDir(dir, o))
    modifies fs`groupFree, fs`superFree, fs`owner, fs`files
    modifies fs.dev`transfers, fs.dev`cache, fs.dev`pageRequests, fs.dev`sectors, fs.dev.ioBuffer
    ensures fs.Valid()
    ensures fine ==> Running(fs, dirs) && Step(old(At(fs)), fs.geo, dirs, OnDir(dir, o), a, At(fs))
  {
    hide OpenFiles.FsOk, DirRuns.Step, DirRuns.Readable, DirRuns.Running, DirWas, Vol, ModesKept, Unopened,
         DirRuns.Allowed;
    ghost var p := At(fs);
    if fine {
      forall d | d in dirs ensures DirWas(p, fs.geo, d) && Unopened(fs.openFiles, d) { DirIs(fs, d); }
    }
    var r := DirRuns.Do(fs, dir, o, fine);
    a := FromDir(r);
    if fine {
      DirRunning(fs, dir);
      DirCallElsewhere(p.look, fs.geo, dir, o, r, DirRuns.LookAt(fs));
      forall d | d in dirs ensures DirRuns.Running(fs, d) {
        if d != dir {
          WasFile(p, fs.geo, d);
          DirStays(fs, d, p);
        }
      }
    }
  }

  lemma DirRunning(fs: Fs, dir: u32)
    requires DirRuns.Running(fs, dir)
    ensures OpenFiles.FsOk(fs)
  {
    hide OpenFiles.FsOk;
  }

  lemma DirCallElsewhere(l: DirRuns.Look, g: Geometry, dir: u32, o: DirRuns.Op, a: DirRuns.Answer, l': DirRuns.Look)
    requires DirRuns.Readable(l, g, dir) && DirRuns.Readable(l', g, dir) && DirRuns.Step(l, g, dir, o, a, l')
    ensures forall d :: d in l.files && d != dir ==> d in l'.files && l'.files[d] == l.files[d]
  {
    hide DirRuns.Table, DirRuns.Entries, DirRuns.IsFile, DistinctNames, VolumeOk, DirOk;
  }

  // ---------- runs ----------

  /** If the call is at a fine point, it is a step. */
  ghost predicate Obeys(fine: bool, p: Point, g: Geometry, dirs: set<u32>, op: Op, a: Answer, q: Point) {
    fine ==> Step(p, g, dirs, op, a, q)
  }

  /**
   Any run of reads, writes, lookups, additions and removals on one volume. A point
   is fine when all calls before it were allowed where they were made. Up to a fine
   point every file is a byte string, every directory a map from names to inode
   numbers, a call changes only what it is about, and the volume stays in order.
   */
  method Run(fs: Fs, dirs: set<u32>, ops: seq<Op>)
    returns (answers: seq<Answer>, ghost points: seq<Point>, ghost fine: seq<bool>)
    requires fs.Valid() && BlockSizeOk(fs.dev.blockSize) && Running(fs, dirs)
    requires forall i :: 0 <= i < |ops| && ops[i].OnFile? ==> OpenFiles.Sized(ops[i].op)
    modifies fs`groupFree, fs`superFree, fs`owner, fs`openFiles, fs`files
    modifies fs.dev`transfers, fs.dev`cache, fs.dev`pageRequests, fs.dev`sectors, fs.dev.ioBuffer
    ensures |answers| == |ops| && |points| == |fine| == |ops| + 1
    ensures points[0] == old(At(fs)) && points[|ops|] == At(fs) && fine[0] && (fine[|ops|] ==> Running(fs, dirs))
    ensures forall k :: 0 <= k < |ops| ==> (fine[k + 1] <==> fine[k] && Allowed(points[k], fs.geo, dirs, ops[k]))
    ensures forall k :: 0 <= k < |ops| ==>
              Obeys(fine[k + 1], points[k], fs.geo, dirs, ops[k], answers[k], points[k + 1])
  {
    hide Running, At, Obeys, Allowed, OpenFiles.Sized;
    answers, points, fine := [], [At(fs)], [true];
    for n := 0 to |ops|
      invariant fs.Valid() && BlockSizeOk(fs.dev.blockSize)
      invariant |answers| == n && |points| == |fine| == n + 1
      invariant points[0] == old(At(fs)) && points[n] == At(fs) && fine[0] && (fine[n] ==> Running(fs, dirs))
      invariant forall k :: 0 <= k < n ==> (fine[k + 1] <==> fine[k] && Allowed(points[k], fs.geo, dirs, ops[k]))
      invariant forall k :: 0 <= k < n ==>
                  Obeys(fine[k + 1], points[k], fs.geo, dirs, ops[k], answers[k], points[k + 1])
    {
      ghost var next := fine[n] && Allowed(points[n], fs.geo, dirs, ops[n]);
      var a := Do(fs, ops[n], dirs, next);
      answers, points, fine := answers + [a], points + [At(fs)], fine + [next];
    }
  }

  method Do(fs: Fs, op: Op, ghost dirs: set<u32>, ghost fine: bool) returns (a: Answer)
    requires fs.Valid() && BlockSizeOk(fs.dev.blockSize) && (op.OnFile? ==> OpenFiles.Sized(op.op))
    requires fine ==> Running(fs, dirs) && Allowed(At(fs), fs.geo, dirs, op)
    modifies fs`groupFree, fs`superFree, fs`owner, fs`openFiles, fs`files
    modifies fs.dev`transfers, fs.dev`cache, fs.dev`pageRequests, fs.dev`sectors, fs.dev.ioBuffer
    ensures fs.Valid()
    ensures (fine ==> Running(fs, dirs)) && Obeys(fine, old(At(fs)), fs.geo, dirs, op, a, At(fs))
  {
    hide Running, At, Step, Allowed, OpenFiles.Sized;
    match op {
      case OnFile(o) => a := DoFile(fs, o, dirs, fine);
      case OnDir(d, o) => a := DoDir(fs, d, o, dirs, fine);
    }
  }
}
