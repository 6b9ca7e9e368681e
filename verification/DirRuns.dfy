/**
 Whole runs on one directory: finding, adding and unlinking names behaves as the
 same run on a map from names to inode numbers.
 */
module DirRuns {
  import opened Bytes
  import opened BlockCache
  import opened Volume
  import opened InodeTable
  import opened Ext2State
  import opened BlockMap
  import opened FileWorld
  import opened FileSteps
  import opened OpenFiles
  import opened DirBlock
  import opened DirScan
  import opened DirList
  import opened DirSteps
  import opened Directory

  // ---------- a list of entries as a map ----------

  ghost function NameSet(l: seq<Item>): set<Name> {
    set i | 0 <= i < |l| :: l[i].name
  }

  /** What a lookup finds for every name on the list. */
  ghost function Table(l: seq<Item>): map<Name, u32> {
    map n | n in NameSet(l) :: First(l, n)
  }

  lemma TableFinds(l: seq<Item>, n: Name)
    requires NoZero(l)
    ensures n in Table(l) <==> First(l, n) != 0
    ensures n in Table(l) ==> Table(l)[n] == First(l, n)
  {
    FirstIff(l, n);
  }

  lemma TableSame(l: seq<Item>, m: map<Name, u32>)
    requires NoZero(l)
    requires forall n :: n in m <==> First(l, n) != 0
    requires forall n :: n in m ==> m[n] == First(l, n)
    ensures Table(l) == m
  {
    hide First, NoZero, NameSet;
    forall n ensures n in Table(l) <==> n in m {
      TableFinds(l, n);
    }
  }

  lemma TableInserted(l: seq<Item>, l': seq<Item>, x: Item)
    requires NoZero(l) && x.ino != 0 && Inserted(l, l', x) && First(l, x.name) == 0
    ensures NoZero(l') && Table(l') == Table(l)[x.name := x.ino]
  {
    hide First, NoZero, Table, Inserted;
    var m := Table(l)[x.name := x.ino];
    InsertedFirst(l, l', x, x.name);
    forall n ensures (n in m <==> First(l', n) != 0) && (n in m ==> m[n] == First(l', n)) {
      TableFinds(l, n);
      InsertedFirst(l, l', x, n);
    }
    TableSame(l', m);
  }

  lemma TableDropped(l: seq<Item>, name: Name)
    requires NoZero(l) && DistinctNames(l)
    ensures NoZero(Drop(l, name)) && Table(Drop(l, name)) == Table(l) - {name}
  {
    hide First, Table, Drop;
    DropNoZero(l, name);
    var l', m := Drop(l, name), Table(l) - {name};
    forall n ensures (n in m <==> First(l', n) != 0) && (n in m ==> m[n] == First(l', n)) {
      TableFinds(l, n);
      DropFirst(l, name, n);
    }
    TableSame(l', m);
  }

  lemma DropNoZero(l: seq<Item>, name: Name)
    requires NoZero(l)
    ensures NoZero(Drop(l, name))
  {
    hide Drop;
    forall i | 0 <= i < |Drop(l, name)| ensures Drop(l, name)[i].ino != 0 {
      DropIsPart(l, name, i);
    }
  }

  // ---------- one call ----------

  datatype Op = Find(name: Name) | Create(item: Item) | Remove(name: Name)
  datatype Answer = Found(ino: u32) | Done(ok: bool)

  /** The volume as a run finds it: files, blocks, and the number of free blocks. */
  datatype Look = Look(files: Files, vol: seq<Block>, free: nat)

  ghost function LookAt(fs: Fs): Look
    requires BlockSizeOk(fs.dev.blockSize)
    reads fs`files, fs`superFree, fs.dev`sectors
  {
    Look(fs.files, Vol(fs.dev), fs.superFree)
  }

  /** The entries of the directory. */
  ghost function Entries(l: Look, g: Geometry, ino: u32): seq<Item>
    requires g.blockSize > 0 && ino in l.files && DirOk(l.files[ino], g.blockSize)
  {
    Listing(l.files[ino], g.blockSize)
  }

  /** The directory can be read, and no two entries have the same name. */
  ghost predicate Readable(l: Look, g: Geometry, ino: u32) {
    && BlockSizeOk(g.blockSize) && ino in l.files && DirOk(l.files[ino], g.blockSize) && VolumeOk(l.vol, g)
    && DistinctNames(Entries(l, g, ino))
  }

  /** The inode number is that of a file. */
  ghost predicate IsFile(l: Look, g: Geometry, target: u32)
    requires VolumeOk(l.vol, g)
  {
    InodeExists(g, target) && !IsDir(InodeAt(l.vol, g, target).mode)
  }

  /** The calls of the theorem: an entry goes to a safe place, and a file to be unlinked is not open. */
  ghost predicate Allowed(l: Look, g: Geometry, handles: seq<OpenFile>, ino: u32, op: Op) {
    Readable(l, g, ino) &&
    match op
    case Find(_) => true
    case Create(x) => SafeDir(l.files[ino], g.blockSize, Room(|x.name|))
    case Remove(name) =>
      var target := First(Entries(l, g, ino), name);
      target != 0 && IsFile(l, g, target) ==> Unopened(handles, target)
  }

  /** One call on a map from names to inode numbers; a removal takes one link from the file and none from any other. */
  ghost predicate Step(l: Look, g: Geometry, ino: u32, op: Op, a: Answer, l': Look)
    requires Readable(l, g, ino) && Readable(l', g, ino)
  {
    var m, m' := Table(Entries(l, g, ino)), Table(Entries(l', g, ino));
    && l'.files == l.files[ino := l'.files[ino]]
    && match op
       case Find(name) => a == Found(if name in m then m[name] else 0) && m' == m && HeadsKept(l.vol, l'.vol, g)
       case Create(x) =>
         HeadsKept(l.vol, l'.vol, g) &&
         if x.name in m || x.ino == 0 || |x.name| > NAME_LEN then a == Done(false) && m' == m
         else
           && a.Done? && m' == (if a.ok then m[x.name := x.ino] else m)
           && (!a.ok ==> l'.free == 0 || |l.files[ino]| >= SizeLimit(g.blockSize))
       case Remove(name) =>
         && a == Done(name in m && IsFile(l, g, m[name]))
         && m' == (if a.ok then m - {name} else m)
         && (if a.ok then OneLinkLess(l.vol, l'.vol, g, m[name]) else l'.vol == l.vol)
  }

  /** The state of a run on the directory `ino`. */
  ghost predicate Running(fs: Fs, ino: u32)
    reads fs, fs.dev
  {
    && KnownDir(fs, ino) && BlockSizeOk(fs.geo.blockSize) && Unopened(fs.openFiles, ino)
    && DistinctNames(Listing(fs.files[ino], fs.geo.blockSize))
  }

  lemma RunningReadable(fs: Fs, ino: u32)
    requires Running(fs, ino) && BlockSizeOk(fs.dev.blockSize)
    ensures Readable(LookAt(fs), fs.geo, ino) && KnownDir(fs, ino) && ino > 0
    ensures HeadsKept(Vol(fs.dev), Vol(fs.dev), fs.geo)
    ensures NoZero(Entries(LookAt(fs), fs.geo, ino))
            && Entries(LookAt(fs), fs.geo, ino) == Listing(fs.files[ino], fs.geo.blockSize)
  {
    hide FsOk, DistinctNames, NoZero, Names, Pages, AllTiled, InodeAt, TablesOk;
    NamesNoZero(Pages(fs.files[ino], fs.geo.blockSize));
    FsVolume(fs);
  }

  // ---------- each call is a step ----------

  /** The entries of a directory that can be read have inode numbers. */
  lemma EntriesNoZero(l: Look, g: Geometry, ino: u32)
    requires Readable(l, g, ino)
    ensures NoZero(Entries(l, g, ino))
  {
    hide Names, Pages, DistinctNames, VolumeOk;
    NamesNoZero(Pages(l.files[ino], g.blockSize));
  }

  lemma FindIsStep(l: Look, g: Geometry, ino: u32, name: Name)
    requires Readable(l, g, ino) && HeadsKept(l.vol, l.vol, g)
    ensures Step(l, g, ino, Find(name), Found(First(Entries(l, g, ino), name)), l)
  {
    hide HeadsKept, First, Entries, DistinctNames, NoZero, Table, VolumeOk, DirOk;
    EntriesNoZero(l, g, ino);
    TableFinds(Entries(l, g, ino), name);
  }

  lemma RefusedIsStep(l: Look, g: Geometry, ino: u32, x: Item)
    requires Readable(l, g, ino) && (First(Entries(l, g, ino), x.name) != 0 || x.ino == 0 || |x.name| > NAME_LEN)
    requires HeadsKept(l.vol, l.vol, g)
    ensures Step(l, g, ino, Create(x), Done(false), l)
  {
    hide HeadsKept, First, Entries, DistinctNames, NoZero, Table, VolumeOk, DirOk;
    EntriesNoZero(l, g, ino);
    TableFinds(Entries(l, g, ino), x.name);
  }

  lemma GainedIsStep(l: Look, g: Geometry, ino: u32, x: Item, l': Look)
    requires Readable(l, g, ino) && x.ino != 0 && |x.name| <= NAME_LEN && First(Entries(l, g, ino), x.name) == 0
    requires ino in l'.files && l'.files == l.files[ino := l'.files[ino]] && DirOk(l'.files[ino], g.blockSize)
             && VolumeOk(l'.vol, g)
    requires Inserted(Entries(l, g, ino), Entries(l', g, ino), x) && HeadsKept(l.vol, l'.vol, g)
    ensures Readable(l', g, ino) && Step(l, g, ino, Create(x), Done(true), l')
  {
    hide HeadsKept, First, Entries, DistinctNames, NoZero, Table, VolumeOk, DirOk, Inserted;
    var e, e' := Entries(l, g, ino), Entries(l', g, ino);
    EntriesNoZero(l, g, ino);
    TableFinds(e, x.name);
    TableInserted(e, e', x);
    InsertedDistinct(e, e', x);
  }

  lemma FullIsStep(l: Look, g: Geometry, ino: u32, x: Item, l': Look)
    requires Readable(l, g, ino) && First(Entries(l, g, ino), x.name) == 0 && x.ino != 0 && |x.name| <= NAME_LEN
    requires l'.files == l.files && VolumeOk(l'.vol, g) && (l'.free == 0 || |l.files[ino]| >= SizeLimit(g.blockSize))
    requires HeadsKept(l.vol, l'.vol, g)
    ensures Readable(l', g, ino) && Step(l, g, ino, Create(x), Done(false), l')
  {
    hide HeadsKept, First, DistinctNames, NoZero, Table, VolumeOk, DirOk, Listing;
    EntriesNoZero(l, g, ino);
    TableFinds(Entries(l, g, ino), x.name);
    assert l.files[ino := l.files[ino]] == l.files;
  }

  lemma KeptIsStep(l: Look, g: Geometry, ino: u32, name: Name, l': Look)
    requires Readable(l, g, ino) && l'.files == l.files && l'.vol == l.vol
    requires First(Entries(l, g, ino), name) == 0 || !IsFile(l, g, First(Entries(l, g, ino), name))
    ensures Readable(l', g, ino) && Step(l, g, ino, Remove(name), Done(false), l')
  {
    hide First, DistinctNames, NoZero, Table, VolumeOk, DirOk, IsFile, Listing;
    EntriesNoZero(l, g, ino);
    TableFinds(Entries(l, g, ino), name);
    assert l.files[ino := l.files[ino]] == l.files;
  }

  lemma LostIsStep(l: Look, g: Geometry, ino: u32, name: Name, l': Look)
    requires Readable(l, g, ino) && First(Entries(l, g, ino), name) != 0
             && IsFile(l, g, First(Entries(l, g, ino), name))
    requires ino in l'.files && l'.files == l.files[ino := l'.files[ino]] && DirOk(l'.files[ino], g.blockSize)
             && VolumeOk(l'.vol, g)
    requires Entries(l', g, ino) == Drop(Entries(l, g, ino), name)
    requires OneLinkLess(l.vol, l'.vol, g, First(Entries(l, g, ino), name))
    ensures Readable(l', g, ino) && Step(l, g, ino, Remove(name), Done(true), l')
  {
    hide OneLinkLess, First, Entries, DistinctNames, NoZero, Table, VolumeOk, DirOk, Drop, IsFile;
    EntriesNoZero(l, g, ino);
    TableFinds(Entries(l, g, ino), name);
    TableDropped(Entries(l, g, ino), name);
    DropDistinct(Entries(l, g, ino), name);
  }

  // ---------- the calls ----------

  /** What a call has to show: the run goes on, and the call was a step on the map. */
  ghost predicate Stepped(fs: Fs, ino: u32, l: Look, op: Op, a: Answer)
    reads fs, fs.dev
  {
    && BlockSizeOk(fs.dev.blockSize) && Running(fs, ino) && Readable(l, fs.geo, ino)
    && Readable(LookAt(fs), fs.geo, ino)
    && Step(l, fs.geo, ino, op, a, LookAt(fs)) && ModesKept(l.vol, Vol(fs.dev), fs.geo)
  }

  lemma RunsOn(fs: Fs, ino: u32, l: Look, op: Op, a: Answer)
    requires BlockSizeOk(fs.dev.blockSize) && KnownDir(fs, ino) && Unopened(fs.openFiles, ino)
    requires Readable(l, fs.geo, ino) && Readable(LookAt(fs), fs.geo, ino) && Step(l, fs.geo, ino, op, a, LookAt(fs))
    requires ModesKept(l.vol, Vol(fs.dev), fs.geo)
    ensures Stepped(fs, ino, l, op, a)
  {
    hide KnownDir, Unopened, Step, Listing, DirOk, DistinctNames, ModesKept;
  }

  method DoFind(fs: Fs, ino: u32, name: Name) returns (a: Answer)
    requires fs.Valid() && BlockSizeOk(fs.dev.blockSize)
    modifies fs.dev`transfers, fs.dev`cache, fs.dev`pageRequests, fs.dev.ioBuffer
    ensures fs.Valid()
    ensures old(Running(fs, ino)) ==> Stepped(fs, ino, old(LookAt(fs)), Find(name), a)
  {
    hide KnownDir, Listing, DistinctNames, Unopened, First, Table, Vol, Readable, NoZero, Entries, Step, Stepped,
         ModesKept, HeadsKept;
    ghost var good, l := Running(fs, ino), LookAt(fs);
    if good {
      RunningReadable(fs, ino);
    }
    var r := FindInDir(fs, ino, name);
    a := Found(r);
    if good {
      assert LookAt(fs) == l;
      FindIsStep(l, fs.geo, ino, name);
      HeadsModes(l.vol, l.vol, fs.geo);
      RunsOn(fs, ino, l, Find(name), a);
    }
  }

  /** A new name: looked up first, as create_file does, and added when it is absent. */
  method DoCreate(fs: Fs, ino: u32, x: Item) returns (a: Answer)
    requires fs.Valid() && BlockSizeOk(fs.dev.blockSize)
    modifies fs`groupFree, fs`superFree, fs`owner, fs`files
    modifies fs.dev`transfers, fs.dev`cache, fs.dev`pageRequests, fs.dev`sectors, fs.dev.ioBuffer
    ensures fs.Valid()
    ensures old(Running(fs, ino)) && Allowed(old(LookAt(fs)), fs.geo, fs.openFiles, ino, Create(x)) ==>
              Stepped(fs, ino, old(LookAt(fs)), Create(x), a)
  {
    hide KnownDir, Listing, DistinctNames, Unopened, First, Table, Vol, Readable, NoZero, Entries, Step, Stepped,
         SafeDir, Added, GaveUp, ModesKept, HeadsKept;
    ghost var good, l := Running(fs, ino) && Allowed(LookAt(fs), fs.geo, fs.openFiles, ino, Create(x)), LookAt(fs);
    if good {
      RunningReadable(fs, ino);
    }
    var r := FindInDir(fs, ino, x.name);
    assert good ==> LookAt(fs) == l;
    if r != 0 {
      if good {
        RefusedIsStep(l, fs.geo, ino, x);
        HeadsModes(l.vol, l.vol, fs.geo);
        RunsOn(fs, ino, l, Create(x), Done(false));
      }
      return Done(false);
    }
    var ok := AddEntry(fs, ino, x);
    a := Done(ok);
    if good {
      CreateEnds(fs, ino, l, x, ok);
    }
  }

  /** How adding an absent name to a safe place ends. */
  lemma CreateEnds(fs: Fs, ino: u32, l: Look, x: Item, ok: bool)
    requires BlockSizeOk(fs.dev.blockSize) && Readable(l, fs.geo, ino) && Unopened(fs.openFiles, ino)
    requires SafeDir(l.files[ino], fs.geo.blockSize, Room(|x.name|)) && First(Entries(l, fs.geo, ino), x.name) == 0
    requires x.ino == 0 || |x.name| > NAME_LEN ==> !ok && LookAt(fs) == l && KnownDir(fs, ino)
    requires x.ino != 0 && |x.name| <= NAME_LEN ==>
               if ok then Added(fs, l.files, ino, x) else GaveUp(fs, l.files, ino, l.files[ino])
    requires HeadsKept(l.vol, Vol(fs.dev), fs.geo)
    ensures Stepped(fs, ino, l, Create(x), Done(ok))
  {
    hide FsOk, DistinctNames, Unopened, First, Table, Vol, NoZero, Step, Stepped, SafeDir, Inserted, Pages, AllTiled,
         Names, InodeAt, TablesOk, SizeLimit, ModesKept, HeadsKept;
    HeadsModes(l.vol, Vol(fs.dev), fs.geo);
    if x.ino == 0 || |x.name| > NAME_LEN {
      RefusedIsStep(l, fs.geo, ino, x);
    } else if ok {
      GainedIsStep(l, fs.geo, ino, x, LookAt(fs));
    } else {
      FullIsStep(l, fs.geo, ino, x, LookAt(fs));
    }
    RunsOn(fs, ino, l, Create(x), Done(ok));
  }

  method DoRemove(fs: Fs, ino: u32, name: Name) returns (a: Answer)
    requires fs.Valid() && BlockSizeOk(fs.dev.blockSize)
    modifies fs`files, fs.dev`transfers, fs.dev`cache, fs.dev`pageRequests, fs.dev`sectors, fs.dev.ioBuffer
    ensures fs.Valid()
    ensures old(Running(fs, ino)) && Allowed(old(LookAt(fs)), fs.geo, fs.openFiles, ino, Remove(name)) ==>
              Stepped(fs, ino, old(LookAt(fs)), Remove(name), a)
  {
    hide KnownDir, Listing, DistinctNames, Unopened, First, Table, Vol, Readable, NoZero, Entries, Step, Stepped,
         Removable, NotAFile, Lost, IsFile, ModesKept, OneLinkLess;
    ghost var good, l := Running(fs, ino) && Allowed(LookAt(fs), fs.geo, fs.openFiles, ino, Remove(name)), LookAt(fs);
    if good {
      RunningReadable(fs, ino);
      UnlinkCases(fs, ino, name);
    }
    ghost var removable := good && Removable(fs, ino, name);
    var ok, target := Unlink(fs, ino, name);
    a := Done(ok);
    if good {
      RemoveEnds(fs, ino, l, name, removable);
    }
  }

  lemma UnlinkCases(fs: Fs, ino: u32, name: Name)
    requires KnownDir(fs, ino) && BlockSizeOk(fs.dev.blockSize)
             && Allowed(LookAt(fs), fs.geo, fs.openFiles, ino, Remove(name))
    ensures var target := First(Entries(LookAt(fs), fs.geo, ino), name);
            if target != 0 && IsFile(LookAt(fs), fs.geo, target) then Removable(fs, ino, name)
            else NotAFile(fs, ino, name)
    ensures Removable(fs, ino, name) ==> !NotAFile(fs, ino, name)
  {
    hide FsOk, DistinctNames, Unopened, First, Vol, InodeAt, VolumeOk, Names, Pages, AllTiled;
  }

  lemma RemoveEnds(fs: Fs, ino: u32, l: Look, name: Name, removable: bool)
    requires BlockSizeOk(fs.dev.blockSize) && Readable(l, fs.geo, ino) && Unopened(fs.openFiles, ino)
    requires var target := First(Entries(l, fs.geo, ino), name);
             removable <==> target != 0 && IsFile(l, fs.geo, target)
    requires if removable then Lost(fs, l.files, ino, name)
             else KnownDir(fs, ino) && LookAt(fs).files == l.files && Vol(fs.dev) == l.vol
    requires removable ==> OneLinkLess(l.vol, Vol(fs.dev), fs.geo, First(Entries(l, fs.geo, ino), name))
    ensures Stepped(fs, ino, l, Remove(name), Done(removable))
  {
    hide FsOk, DistinctNames, Unopened, First, Table, Vol, NoZero, Step, Stepped, Drop, Pages, AllTiled, Names, InodeAt,
         TablesOk, IsFile, ModesKept, OneLinkLess, HeadsKept;
    if removable {
      LostIsStep(l, fs.geo, ino, name, LookAt(fs));
      OneLinkModes(l.vol, Vol(fs.dev), fs.geo, First(Entries(l, fs.geo, ino), name));
    } else {
      KeptIsStep(l, fs.geo, ino, name, LookAt(fs));
      FsVolume(fs);
      HeadsModes(l.vol, l.vol, fs.geo);
    }
    RunsOn(fs, ino, l, Remove(name), Done(removable));
  }

  // ---------- runs ----------

  /** If call and state before it are fine, the call is a step on the map. */
  ghost predicate Obeys(fine: bool, l: Look, g: Geometry, ino: u32, op: Op, a: Answer, l': Look) {
    fine ==> Readable(l, g, ino) && Readable(l', g, ino) && Step(l, g, ino, op, a, l')
  }

  /**
   Any run of find, create and unlink calls on a directory that nobody has open. A
   point of the run is fine when all calls before it were allowed where they were
   made; up to a fine point each call answers and changes the directory as a map
   from names to inode numbers would, and no other file changes.
   */
  method Run(fs: Fs, ino: u32, ops: seq<Op>) returns (answers: seq<Answer>, ghost looks: seq<Look>,
                                                      ghost fine: seq<bool>)
    requires fs.Valid() && BlockSizeOk(fs.dev.blockSize) && Running(fs, ino)
    modifies fs`groupFree, fs`superFree, fs`owner, fs`files
    modifies fs.dev`transfers, fs.dev`cache, fs.dev`pageRequests, fs.dev`sectors, fs.dev.ioBuffer
    ensures |answers| == |ops| && |looks| == |fine| == |ops| + 1
    ensures looks[0] == old(LookAt(fs)) && looks[|ops|] == LookAt(fs) && fine[0] && (fine[|ops|] ==> Running(fs, ino))
    ensures forall k :: 0 <= k < |ops| ==>
              (fine[k + 1] <==> fine[k] && Allowed(looks[k], fs.geo, fs.openFiles, ino, ops[k]))
    ensures forall k :: 0 <= k < |ops| ==> Obeys(fine[k + 1], looks[k], fs.geo, ino, ops[k], answers[k], looks[k + 1])
  {
    hide Running, LookAt, Obeys, Allowed, ModesKept;
    answers, looks, fine := [], [LookAt(fs)], [true];
    for n := 0 to |ops|
      invariant fs.Valid() && BlockSizeOk(fs.dev.blockSize)
      invariant |answers| == n && |looks| == |fine| == n + 1
      invariant looks[0] == old(LookAt(fs)) && looks[n] == LookAt(fs) && fine[0] && (fine[n] ==> Running(fs, ino))
      invariant forall k :: 0 <= k < n ==>
                  (fine[k + 1] <==> fine[k] && Allowed(looks[k], fs.geo, fs.openFiles, ino, ops[k]))
      invariant forall k :: 0 <= k < n ==> Obeys(fine[k + 1], looks[k], fs.geo, ino, ops[k], answers[k], looks[k + 1])
    {
      ghost var next := fine[n] && Allowed(looks[n], fs.geo, fs.openFiles, ino, ops[n]);
      var a := Do(fs, ino, ops[n], next);
      answers, looks, fine := answers + [a], looks + [LookAt(fs)], fine + [next];
    }
  }

  method Do(fs: Fs, ino: u32, op: Op, ghost fine: bool) returns (a: Answer)
    requires fs.Valid() && BlockSizeOk(fs.dev.blockSize)
    requires fine ==> Running(fs, ino) && Allowed(LookAt(fs), fs.geo, fs.openFiles, ino, op)
    modifies fs`groupFree, fs`superFree, fs`owner, fs`files
    modifies fs.dev`transfers, fs.dev`cache, fs.dev`pageRequests, fs.dev`sectors, fs.dev.ioBuffer
    ensures fs.Valid()
    ensures (fine ==> Running(fs, ino)) && Obeys(fine, old(LookAt(fs)), fs.geo, ino, op, a, LookAt(fs))
    ensures fine ==> ModesKept(old(LookAt(fs)).vol, Vol(fs.dev), fs.geo)
  {
    hide Running, LookAt, Readable, Step, Allowed, ModesKept;
    match op {
      case Find(name) => a := DoFind(fs, ino, name);
      case Create(x) => a := DoCreate(fs, ino, x);
      case Remove(name) => a := DoRemove(fs, ino, name);
    }
  }
}
