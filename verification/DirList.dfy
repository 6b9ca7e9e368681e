/**
 A whole directory: the contents of a file cut into blocks, and the list of its
 entries over all blocks.
 */
module DirList {
  import opened Bytes
  import opened FileSteps
  import opened DirBlock
  import opened DirScan

  /** The blocks of a directory's contents. */
  ghost function Pages(data: seq<byte>, bs: nat): (p: seq<seq<byte>>)
    requires bs > 0
    ensures |p| == |data| / bs
  {
    seq(|data| / bs, k requires 0 <= k < |data| / bs => (PageFits(|data|, bs, k); data[k * bs..][..bs]))
  }

  lemma PageFits(n: nat, bs: nat, k: nat)
    requires bs > 0 && k < n / bs
    ensures k * bs + bs <= n
  {
    assert (k + 1) * bs <= n / bs * bs <= n;
  }

  ghost predicate AllTiled(p: seq<seq<byte>>) {
    forall k :: 0 <= k < |p| ==> Tiled(p[k], 0)
  }

  /** A file whose contents are whole tiled blocks. */
  ghost predicate DirOk(data: seq<byte>, bs: nat)
    requires bs > 0
  {
    |data| % bs == 0 && AllTiled(Pages(data, bs))
  }

  /** The live entries of all blocks in order. */
  ghost function Names(p: seq<seq<byte>>): seq<Item>
    requires AllTiled(p)
  {
    if p == [] then [] else Live(p[0], 0) + Names(p[1..])
  }

  ghost function Listing(data: seq<byte>, bs: nat): seq<Item>
    requires bs > 0 && DirOk(data, bs)
  {
    Names(Pages(data, bs))
  }

  lemma {:induction false} NamesNoZero(p: seq<seq<byte>>)
    requires AllTiled(p)
    ensures NoZero(Names(p))
  {
    if p != [] {
      LiveNoZero(p[0], 0);
      NamesNoZero(p[1..]);
    }
  }

  lemma {:induction false} NamesSum(p: seq<seq<byte>>, q: seq<seq<byte>>)
    requires AllTiled(p) && AllTiled(q)
    ensures AllTiled(p + q) && Names(p + q) == Names(p) + Names(q)
  {
    hide Tiled, Live;
    if p == [] {
      assert p + q == q;
    } else {
      assert (p + q)[1..] == p[1..] + q;
      NamesSum(p[1..], q);
    }
  }

  lemma NamesOne(b: seq<byte>)
    requires Tiled(b, 0)
    ensures AllTiled([b]) && Names([b]) == Live(b, 0)
  {
    hide Tiled, Live;
    assert [b][1..] == [] && Names([]) == [];
  }

  /** The entries before, in and after block `k`. */
  lemma NamesAround(p: seq<seq<byte>>, k: nat)
    requires AllTiled(p) && k < |p|
    ensures AllTiled(p[..k]) && AllTiled(p[k + 1..])
    ensures Names(p) == Names(p[..k]) + Live(p[k], 0) + Names(p[k + 1..])
  {
    hide Tiled, Live, Names;
    NamesOne(p[k]);
    assert p == p[..k] + [p[k]] + p[k + 1..];
    NamesSum(p[..k], [p[k]]);
    NamesSum(p[..k] + [p[k]], p[k + 1..]);
  }

  lemma NamesUpdate(p: seq<seq<byte>>, k: nat, b: seq<byte>)
    requires AllTiled(p) && k < |p| && Tiled(b, 0)
    ensures AllTiled(p[k := b]) && AllTiled(p[..k]) && AllTiled(p[k + 1..])
    ensures Names(p[k := b]) == Names(p[..k]) + Live(b, 0) + Names(p[k + 1..])
  {
    hide Tiled, Live, Names;
    var p' := p[k := b];
    assert p'[..k] == p[..k] && p'[k + 1..] == p[k + 1..];
    NamesAround(p', k);
  }

  /** An insertion in one block is an insertion in the directory. */
  lemma InsertInBlock(p: seq<seq<byte>>, k: nat, b: seq<byte>, x: Item)
    requires AllTiled(p) && k < |p| && Tiled(b, 0) && Inserted(Live(p[k], 0), Live(b, 0), x)
    ensures AllTiled(p[k := b]) && Inserted(Names(p), Names(p[k := b]), x)
  {
    hide Tiled, Live, Names, InsertedAt;
    NamesAround(p, k);
    NamesUpdate(p, k, b);
    var i: nat :| InsertedAt(Live(p[k], 0), Live(b, 0), x, i);
    InsertedInside(Live(p[k], 0), Live(b, 0), x, i, Names(p[..k]), Names(p[k + 1..]));
  }

  lemma InsertedInside(l: seq<Item>, l': seq<Item>, x: Item, i: nat, a: seq<Item>, b: seq<Item>)
    requires InsertedAt(l, l', x, i)
    ensures InsertedAt(a + l + b, a + l' + b, x, |a| + i)
  {
    var m, j := a + l + b, |a| + i;
    assert m[..j] == a + l[..i] && m[j..] == l[i..] + b;
  }

  /** A new block at the end with one entry. */
  lemma InsertAtEnd(p: seq<seq<byte>>, b: seq<byte>, x: Item)
    requires AllTiled(p) && Tiled(b, 0) && Live(b, 0) == [x]
    ensures AllTiled(p + [b]) && Inserted(Names(p), Names(p + [b]), x)
  {
    hide Tiled, Live, Names;
    NamesOne(b);
    NamesSum(p, [b]);
    assert InsertedAt(Names(p), Names(p) + [x], x, |Names(p)|);
  }

  /** Dropping the first entry of a name in the first block that has it. */
  lemma DropInBlock(p: seq<seq<byte>>, k: nat, b: seq<byte>, name: Name)
    requires AllTiled(p) && k < |p| && Tiled(b, 0) && Live(b, 0) == Drop(Live(p[k], 0), name)
    requires First(Names(p[..k]), name) == 0 && First(Live(p[k], 0), name) != 0
    ensures AllTiled(p[k := b]) && Names(p[k := b]) == Drop(Names(p), name)
  {
    hide Tiled, Live, Names, Drop, First;
    NamesAround(p, k);
    NamesUpdate(p, k, b);
    var a, l, r := Names(p[..k]), Live(p[k], 0), Names(p[k + 1..]);
    NamesNoZero(p[..k]);
    LiveNoZero(p[k], 0);
    assert a + l + r == a + (l + r);
    DropOfSum(a, l + r, name);
    DropFront(l, r, name);
  }

  // ---------- blocks of the contents ----------

  lemma PageIs(data: seq<byte>, bs: nat, k: nat)
    requires bs > 0 && k < |data| / bs
    ensures k * bs + bs <= |data| && Pages(data, bs)[k] == data[k * bs..][..bs] && |Pages(data, bs)[k]| == bs
  {
    PageFits(|data|, bs, k);
  }

  lemma PageGap(j: nat, k: nat, bs: nat)
    requires j != k
    ensures j * bs + bs <= k * bs || k * bs + bs <= j * bs
  {
    if j < k {
      assert (j + 1) * bs <= k * bs;
    } else {
      assert (k + 1) * bs <= j * bs;
    }
  }

  lemma PagesUpdate(data: seq<byte>, bs: nat, k: nat, b: seq<byte>)
    requires bs > 0 && k < |data| / bs && |b| == bs
    ensures k * bs + bs <= |data|
    ensures Pages(Overlay(data, k * bs, b), bs) == Pages(data, bs)[k := b]
  {
    hide Overlay, Pages;
    PageIs(data, bs, k);
    var data' := Overlay(data, k * bs, b);
    forall j: nat | j < |data| / bs ensures Pages(data', bs)[j] == Pages(data, bs)[k := b][j] {
      PageIs(data, bs, j);
      PageIs(data', bs, j);
      if j != k {
        PageGap(j, k, bs);
      }
      OverlayPage(data, j * bs, k * bs, bs, b);
    }
  }

  lemma OverlayPage(data: seq<byte>, j: nat, k: nat, bs: nat, b: seq<byte>)
    requires |b| == bs && j + bs <= |data| && k + bs <= |data| && (j == k || j + bs <= k || k + bs <= j)
    ensures Overlay(data, k, b)[j..][..bs] == if j == k then b else data[j..][..bs]
  {
    hide Overlay;
    var t := Overlay(data, k, b);
    forall i: nat | i < bs ensures t[j..][..bs][i] == if j == k then b[i] else data[j..][..bs][i] {
      OverlayAt(data, k, b, j + i);
    }
  }

  lemma PagesAppend(data: seq<byte>, bs: nat, b: seq<byte>)
    requires bs > 0 && |data| % bs == 0 && |b| == bs
    ensures (|data| + bs) / bs == |data| / bs + 1 && (|data| + bs) % bs == 0
    ensures Pages(data + b, bs) == Pages(data, bs) + [b]
  {
    hide Pages;
    var n, data' := |data| / bs, data + b;
    assert |data| == n * bs;
    ModOfSum(n + 1, bs, 0);
    assert (n + 1) * bs == |data'|;
    forall j: nat | j < n + 1 ensures Pages(data', bs)[j] == (Pages(data, bs) + [b])[j] {
      PageIs(data', bs, j);
      if j < n {
        PageIs(data, bs, j);
        assert data'[j * bs..][..bs] == data[j * bs..][..bs];
      } else {
        assert data'[n * bs..][..bs] == b;
      }
    }
  }

  // ---------- the place of a new entry ----------

  /** No block before `k` has room for `size` bytes. */
  ghost predicate NoRoom(data: seq<byte>, bs: nat, size: nat, k: nat)
    requires bs > 0 && DirOk(data, bs)
  {
    k <= |data| / bs && forall j :: 0 <= j < k ==> FirstFit(Pages(data, bs)[j], 0, size) >= bs
  }

  /** Block `k` is the first with room for `size` bytes. */
  ghost predicate RoomAt(data: seq<byte>, bs: nat, size: nat, k: nat)
    requires bs > 0 && DirOk(data, bs)
  {
    k < |data| / bs && NoRoom(data, bs, size, k) && FirstFit(Pages(data, bs)[k], 0, size) < bs
  }

  /** In the first block with room, the first fit is safe. */
  ghost predicate SafeDir(data: seq<byte>, bs: nat, size: nat)
    requires bs > 0 && DirOk(data, bs)
  {
    forall k: nat :: RoomAt(data, bs, size, k) ==> SafeFit(Pages(data, bs)[k], size)
  }

  /** Some block of the directory shows slack for a name of `n` bytes. */
  ghost predicate SlackInDir(data: seq<byte>, bs: nat, n: nat)
    requires bs > 0
  {
    exists k: nat, o: nat :: k < |data| / bs && HasSlack(Pages(data, bs)[k], o, n)
  }

  lemma SlackIsRoom(data: seq<byte>, bs: nat, n: nat)
    requires bs > 0 && DirOk(data, bs) && SlackInDir(data, bs, n)
    ensures !NoRoom(data, bs, Room(n), |data| / bs)
  {
    hide Pages, HasSlack, FirstFit;
    var k: nat, o: nat :| k < |data| / bs && HasSlack(Pages(data, bs)[k], o, n);
    SlackIsTaken(Pages(data, bs)[k], o, n);
    PageIs(data, bs, k);
  }

  lemma RoomStarts(data: seq<byte>, bs: nat, size: nat)
    requires bs > 0 && DirOk(data, bs)
    ensures NoRoom(data, bs, size, 0)
  {
  }

  lemma RoomNext(data: seq<byte>, bs: nat, size: nat, k: nat)
    requires bs > 0 && DirOk(data, bs) && NoRoom(data, bs, size, k) && k < |data| / bs
    ensures Tiled(Pages(data, bs)[k], 0) && |Pages(data, bs)[k]| == bs
    ensures if FirstFit(Pages(data, bs)[k], 0, size) < bs then RoomAt(data, bs, size, k)
            else NoRoom(data, bs, size, k + 1)
  {
    hide Tiled, FirstFit, Pages;
    PageIs(data, bs, k);
  }

  /** There is only one first block with room. */
  lemma SafeAt(data: seq<byte>, bs: nat, size: nat, k: nat)
    requires bs > 0 && DirOk(data, bs) && RoomAt(data, bs, size, k)
    ensures |Pages(data, bs)[k]| == bs && Tiled(Pages(data, bs)[k], 0)
    ensures SafeDir(data, bs, size) <==> SafeFit(Pages(data, bs)[k], size)
  {
    hide Tiled, FirstFit, Pages, SafeFit;
    PageIs(data, bs, k);
    forall j: nat | RoomAt(data, bs, size, j) ensures j == k {
    }
  }

  lemma SafeWithoutRoom(data: seq<byte>, bs: nat, size: nat)
    requires bs > 0 && DirOk(data, bs) && NoRoom(data, bs, size, |data| / bs)
    ensures SafeDir(data, bs, size)
  {
    hide Tiled, FirstFit, Pages, SafeFit;
  }

  /** Putting `x` at its first fit in block `k` inserts exactly it if the fit is safe; for an absent name, only then. */
  lemma PlacedInDir(p: seq<seq<byte>>, k: nat, x: Item)
    requires AllTiled(p) && k < |p| && |p[k]| < 0x1_0000 && |x.name| <= NAME_LEN && x.ino != 0
    requires FirstFit(p[k], 0, Room(|x.name|)) < |p[k]|
    ensures SafeFit(p[k], Room(|x.name|)) ==>
              AllTiled(p[k := Placed(p[k], x)]) && Inserted(Names(p), Names(p[k := Placed(p[k], x)]), x)
    ensures First(Names(p), x.name) == 0 ==>
              (AllTiled(p[k := Placed(p[k], x)]) && Inserted(Names(p), Names(p[k := Placed(p[k], x)]), x) ==>
                 SafeFit(p[k], Room(|x.name|)))
  {
    hide Tiled, Live, Names, First, Inserted, Placed, FirstFit, SafeFit;
    var b := Placed(p[k], x);
    if SafeFit(p[k], Room(|x.name|)) {
      PlacedKeeps(p[k], x);
      InsertInBlock(p, k, b, x);
    } else if First(Names(p), x.name) == 0 && AllTiled(p[k := b]) {
      assert p[k := b][k] == b;
      NamesAround(p, k);
      NamesUpdate(p, k, b);
      NamesNoZero(p);
      UnsafeGains(p[k], x, Names(p[..k]), Names(p[k + 1..]));
    }
  }

  /** An unsafe reuse brings other entries into the list, whatever stands around the block. */
  lemma UnsafeGains(s: seq<byte>, x: Item, a: seq<Item>, b: seq<Item>)
    requires Tiled(s, 0) && |s| < 0x1_0000 && |x.name| <= NAME_LEN && x.ino != 0
    requires FirstFit(s, 0, Room(|x.name|)) < |s| && !SafeFit(s, Room(|x.name|)) && Tiled(Placed(s, x), 0)
    requires NoZero(a + Live(s, 0) + b) && First(a + Live(s, 0) + b, x.name) == 0
    ensures !Inserted(a + Live(s, 0) + b, a + Live(Placed(s, x), 0) + b, x)
  {
    hide Reaches, LiveUpTo, Live, Next, FirstFit, PutAt, SplitAt, Inserted, Tiled, First, NoZero;
    var size := Room(|x.name|);
    var o := FirstFit(s, 0, size);
    FitFound(s, size);
    UnusedAt(s, o);
    ReuseExact(s, o, x, size);
    var l, r, r' := LiveUpTo(s, 0, o), Live(s, Next(s, o)), Live(s, o + size);
    assert a + (l + r) + b == (a + l) + (r + b);
    assert a + (l + [x] + r') + b == (a + l) + [x] + (r' + b);
    InsertedExactly(a + l, r + b, r' + b, x);
    SameFront(r, r', b);
  }

  lemma SameFront(r: seq<Item>, r': seq<Item>, b: seq<Item>)
    ensures r + b == r' + b ==> r == r'
  {
    if r + b == r' + b {
      assert |r| == |r'| && r == (r + b)[..|r|] && r' == (r' + b)[..|r'|];
    }
  }
}
