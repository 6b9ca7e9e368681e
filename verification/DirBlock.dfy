/**
 One block of a directory ("The Second Extended File System: Internal Layout",
 section "Linked List Directory"): entries that tile the block by their record
 lengths, and what adding and removing an entry does to the list of names.
 */
module DirBlock {
  import opened Bytes

  const HEADER: nat := 8

  type Name = seq<byte>

  /** A live entry as callers see it. */
  datatype Item = Item(name: Name, ino: u32, fileType: byte)

  // ---------- the entry at an offset ----------

  function InoAt(s: seq<byte>, off: nat): u32
    requires off + HEADER <= |s|
  {
    U32(s[off..off + 4])
  }

  function RecLen(s: seq<byte>, off: nat): u16
    requires off + HEADER <= |s|
  {
    U16(s[off + 4..off + 6])
  }

  function NameLen(s: seq<byte>, off: nat): byte
    requires off + HEADER <= |s|
  {
    s[off + 6]
  }

  /** The fields of an entry, byte by byte: inode, record length, name length, type, name. */
  lemma EntryLayout(s: seq<byte>, off: nat)
    requires off + 8 <= |s|
    ensures InoAt(s, off) % 0x100 == s[off] && InoAt(s, off) / 0x100 % 0x100 == s[off + 1]
    ensures InoAt(s, off) / 0x1_0000 % 0x100 == s[off + 2] && InoAt(s, off) / 0x100_0000 == s[off + 3]
    ensures RecLen(s, off) % 0x100 == s[off + 4] && RecLen(s, off) / 0x100 == s[off + 5]
    ensures NameLen(s, off) == s[off + 6]
    ensures EntryOk(s, off) ==> NameAt(s, off) == s[off + 8..off + 8 + s[off + 6]]
    ensures EntryOk(s, off) && InoAt(s, off) != 0 ==> ItemsAt(s, off)[0].fileType == s[off + 7]
  {
    hide U32, U16;
    assert s[off..off + 4][0] == s[off] && s[off..off + 4][1] == s[off + 1];
    assert s[off..off + 4][2] == s[off + 2] && s[off..off + 4][3] == s[off + 3];
    assert s[off + 4..off + 6][0] == s[off + 4] && s[off + 4..off + 6][1] == s[off + 5];
  }

  /** An entry lies in the block and its record holds its name. */
  predicate EntryOk(s: seq<byte>, off: nat) {
    && off + HEADER <= |s|
    && HEADER + NameLen(s, off) <= RecLen(s, off)
    && off + RecLen(s, off) <= |s|
  }

  function NameAt(s: seq<byte>, off: nat): (n: Name)
    requires EntryOk(s, off)
    ensures |n| == NameLen(s, off)
  {
    s[off + HEADER..off + HEADER + NameLen(s, off)]
  }

  function Next(s: seq<byte>, off: nat): (n: nat)
    requires EntryOk(s, off)
    ensures off < n <= |s|
  {
    off + RecLen(s, off)
  }

  /** The live entry at `off`, if it is live. */
  function ItemsAt(s: seq<byte>, off: nat): seq<Item>
    requires EntryOk(s, off)
  {
    if InoAt(s, off) == 0 then [] else [Item(NameAt(s, off), InoAt(s, off), s[off + 7])]
  }

  // ---------- a block of entries ----------

  /** From `off` on, the record lengths tile the block exactly. */
  ghost predicate Tiled(s: seq<byte>, off: nat)
    decreases |s| - off
  {
    off == |s| || (off < |s| && EntryOk(s, off) && Tiled(s, Next(s, off)))
  }

  /** The live entries from `off` on. */
  ghost function Live(s: seq<byte>, off: nat): seq<Item>
    requires Tiled(s, off)
    decreases |s| - off
  {
    if off == |s| then [] else ItemsAt(s, off) + Live(s, Next(s, off))
  }

  /** Walking the entries from `off` arrives at `o`. */
  ghost predicate Reaches(s: seq<byte>, off: nat, o: nat)
    decreases |s| - off
  {
    off == o || (off < o && off < |s| && EntryOk(s, off) && Reaches(s, Next(s, off), o))
  }

  /** The live entries from `off` up to `o`. */
  ghost function LiveUpTo(s: seq<byte>, off: nat, o: nat): seq<Item>
    requires Reaches(s, off, o)
    decreases |s| - off
  {
    if off == o then [] else ItemsAt(s, off) + LiveUpTo(s, Next(s, off), o)
  }

  /** The first live entry called `name` decides what a lookup finds. */
  function First(l: seq<Item>, name: Name): u32 {
    if l == [] then 0 else if l[0].name == name then l[0].ino else First(l[1..], name)
  }

  // ---------- blocks that agree in part ----------

  lemma EntrySame(s: seq<byte>, t: seq<byte>, off: nat, n: nat)
    requires |s| == |t| && EntryOk(s, off) && off + HEADER + NameLen(s, off) <= n <= |s|
    requires s[off..n] == t[off..n]
    ensures EntryOk(t, off) && Next(t, off) == Next(s, off) && ItemsAt(t, off) == ItemsAt(s, off)
    ensures NameLen(t, off) == NameLen(s, off) && RecLen(t, off) == RecLen(s, off) && InoAt(t, off) == InoAt(s, off)
  {
    SliceSame(s, t, off, n, off, off + 4);
    SliceSame(s, t, off, n, off + 4, off + 6);
    SliceSame(s, t, off, n, off + 6, off + HEADER);
    assert s[off + 6] == s[off + 6..off + HEADER][0] && t[off + 6] == t[off + 6..off + HEADER][0];
    assert s[off + 7] == s[off + 6..off + HEADER][1] && t[off + 7] == t[off + 6..off + HEADER][1];
    SliceSame(s, t, off, n, off + HEADER, off + HEADER + NameLen(s, off));
  }

  lemma EntrySameTail(s: seq<byte>, t: seq<byte>, off: nat)
    requires |s| == |t| && EntryOk(s, off) && s[off..] == t[off..]
    ensures EntryOk(t, off) && Next(t, off) == Next(s, off) && ItemsAt(t, off) == ItemsAt(s, off)
    ensures NameLen(t, off) == NameLen(s, off) && RecLen(t, off) == RecLen(s, off) && InoAt(t, off) == InoAt(s, off)
  {
    hide ItemsAt;
    assert s[..|s|] == s && t[..|s|] == t;
    EntrySame(s, t, off, |s|);
  }

  lemma SliceSame(s: seq<byte>, t: seq<byte>, a: nat, b: nat, i: nat, j: nat)
    requires |s| == |t| && a <= i <= j <= b <= |s| && s[a..b] == t[a..b]
    ensures s[i..j] == t[i..j]
  {
    forall k | 0 <= k < j - i ensures s[i..j][k] == t[i..j][k] {
      assert s[a..b][i + k - a] == s[i + k] && t[a..b][i + k - a] == t[i + k];
    }
  }

  /** What follows `off` depends on the bytes from there on. */
  lemma {:induction false} SameAfter(s: seq<byte>, t: seq<byte>, off: nat)
    requires |s| == |t| && off <= |s| && s[off..] == t[off..] && Tiled(s, off)
    ensures Tiled(t, off) && Live(t, off) == Live(s, off)
    decreases |s| - off
  {
    hide EntryOk, Next, ItemsAt;
    if off < |s| {
      EntryBounds(s, off);
      EntrySameTail(s, t, off);
      var n := Next(s, off);
      assert s[n..] == s[off..][n - off..] && t[n..] == t[off..][n - off..];
      SameAfter(s, t, n);
    }
  }

  lemma EntryBounds(s: seq<byte>, off: nat)
    requires EntryOk(s, off)
    ensures off + HEADER + NameLen(s, off) <= Next(s, off) <= |s| && off < Next(s, off) == off + RecLen(s, off)
  {
  }

  /** What comes before `o` depends on the bytes up to there. */
  lemma {:induction false} SameBefore(s: seq<byte>, t: seq<byte>, off: nat, o: nat)
    requires |s| == |t| && o <= |s| && s[..o] == t[..o] && Reaches(s, off, o)
    ensures Reaches(t, off, o) && LiveUpTo(t, off, o) == LiveUpTo(s, off, o)
    decreases |s| - off
  {
    hide EntryOk, Next, ItemsAt;
    if off != o {
      EntryBounds(s, off);
      ReachesBound(s, Next(s, off), o);
      assert s[off..o] == s[..o][off..] && t[off..o] == t[..o][off..];
      EntrySame(s, t, off, o);
      SameBefore(s, t, Next(s, off), o);
    }
  }

  lemma ReachesBound(s: seq<byte>, off: nat, o: nat)
    requires Reaches(s, off, o)
    ensures off <= o
  {
  }

  /** A block is the entries before `o` and those from `o` on. */
  lemma {:induction false} SplitWalk(s: seq<byte>, off: nat, o: nat)
    requires Reaches(s, off, o)
    ensures Tiled(s, off) <==> Tiled(s, o)
    ensures Tiled(s, o) ==> Live(s, off) == LiveUpTo(s, off, o) + Live(s, o)
    decreases |s| - off
  {
    hide EntryOk, Next, ItemsAt;
    if off != o {
      EntryBounds(s, off);
      SplitWalk(s, Next(s, off), o);
    }
  }

  lemma {:induction false} ReachesNext(s: seq<byte>, off: nat, o: nat)
    requires Reaches(s, off, o) && EntryOk(s, o) && o < |s|
    ensures Reaches(s, off, Next(s, o)) && LiveUpTo(s, off, Next(s, o)) == LiveUpTo(s, off, o) + ItemsAt(s, o)
    decreases |s| - off
  {
    hide EntryOk, Next, ItemsAt;
    EntryBounds(s, o);
    if off != o {
      EntryBounds(s, off);
      ReachesNext(s, Next(s, off), o);
      ReachesBound(s, Next(s, off), o);
    } else {
      assert Reaches(s, Next(s, o), Next(s, o)) && LiveUpTo(s, Next(s, o), Next(s, o)) == [];
    }
  }

  // ---------- the changes the driver makes ----------

  /** Length of a record for a name of `n` bytes: `(8 + n + 7) & ~7`. */
  function Room(n: nat): (r: nat)
    ensures HEADER + n <= r <= HEADER + n + 7 && r % 8 == 0
  {
    (HEADER + n + 7) / 8 * 8
  }

  /** The bytes of an entry. */
  function EntryBytes(x: Item, rec: u16): (b: seq<byte>)
    requires |x.name| < 0x100
    ensures |b| == HEADER + |x.name|
  {
    EncodeU32(x.ino) + EncodeU16(rec) + [|x.name|, x.fileType] + x.name
  }

  /** Shortens the entry at `o` to `a` bytes and puts `x` behind it. */
  function SplitAt(s: seq<byte>, o: nat, a: u16, x: Item, rec: u16): (t: seq<byte>)
    requires |x.name| < 0x100 && o + HEADER <= |s| && o + a + HEADER + |x.name| <= |s|
    ensures |t| == |s|
  {
    Splice(Splice(s, o + 4, EncodeU16(a)), o + a, EntryBytes(x, rec))
  }

  /** Gives the entry at `o` another record length. */
  function ResizeAt(s: seq<byte>, o: nat, rec: u16): (t: seq<byte>)
    requires o + HEADER <= |s|
    ensures |t| == |s|
  {
    Splice(s, o + 4, EncodeU16(rec))
  }

  function ClearAt(s: seq<byte>, o: nat): (t: seq<byte>)
    requires o + HEADER <= |s|
    ensures |t| == |s|
  {
    Splice(s, o, EncodeU32(0))
  }

  function PutAt(s: seq<byte>, o: nat, x: Item, rec: u16): (t: seq<byte>)
    requires |x.name| < 0x100 && o + HEADER + |x.name| <= |s|
    ensures |t| == |s|
  {
    Splice(s, o, EntryBytes(x, rec))
  }

  lemma PutReads(s: seq<byte>, o: nat, x: Item, rec: u16)
    requires |x.name| < 0x100 && HEADER + |x.name| <= rec && o + rec <= |s|
    ensures EntryOk(PutAt(s, o, x, rec), o) && Next(PutAt(s, o, x, rec), o) == o + rec
    ensures InoAt(PutAt(s, o, x, rec), o) == x.ino && ItemsAt(PutAt(s, o, x, rec), o) == if x.ino == 0 then [] else [x]
    ensures PutAt(s, o, x, rec)[..o] == s[..o] && PutAt(s, o, x, rec)[o + rec..] == s[o + rec..]
  {
    hide EncodeU32, EncodeU16, U32, U16;
    var t, b := PutAt(s, o, x, rec), EntryBytes(x, rec);
    assert b[..4] == EncodeU32(x.ino) && b[4..6] == EncodeU16(rec) && b[HEADER..] == x.name;
    assert t[o..o + 4] == b[..4];
    assert t[o + 4..o + 6] == b[4..6];
    assert t[o + HEADER..o + HEADER + |x.name|] == b[HEADER..];
  }

  lemma ResizeReads(s: seq<byte>, o: nat, rec: u16)
    requires EntryOk(s, o) && HEADER + NameLen(s, o) <= rec && o + rec <= |s|
    ensures EntryOk(ResizeAt(s, o, rec), o) && Next(ResizeAt(s, o, rec), o) == o + rec
    ensures ItemsAt(ResizeAt(s, o, rec), o) == ItemsAt(s, o)
    ensures ResizeAt(s, o, rec)[..o] == s[..o] && ResizeAt(s, o, rec)[o + HEADER..] == s[o + HEADER..]
  {
    hide EncodeU16, U32, U16;
    var t := ResizeAt(s, o, rec);
    assert t[o..o + 4] == s[o..o + 4] && t[o + 4..o + 6] == EncodeU16(rec);
    assert t[o + HEADER..o + HEADER + NameLen(s, o)] == s[o + HEADER..o + HEADER + NameLen(s, o)];
  }

  lemma ClearReads(s: seq<byte>, o: nat)
    requires EntryOk(s, o)
    ensures EntryOk(ClearAt(s, o), o) && Next(ClearAt(s, o), o) == Next(s, o)
    ensures ItemsAt(ClearAt(s, o), o) == []
    ensures ClearAt(s, o)[..o] == s[..o] && ClearAt(s, o)[o + HEADER..] == s[o + HEADER..]
  {
    hide EncodeU32, U32, U16;
    var t := ClearAt(s, o);
    assert t[o..o + 4] == EncodeU32(0) && t[o + 4..o + 6] == s[o + 4..o + 6];
  }

  lemma TailOfTail(s: seq<byte>, t: seq<byte>, a: nat, b: nat)
    requires |s| == |t| && a <= b <= |s| && s[a..] == t[a..]
    ensures s[b..] == t[b..]
  {
    assert s[b..] == s[a..][b - a..] && t[b..] == t[a..][b - a..];
  }

  /** One entry replaced by another that ends at the same place or where the walk goes on. */
  lemma Rebuilt(s: seq<byte>, t: seq<byte>, o: nat, n: nat)
    requires |s| == |t| && Reaches(s, 0, o) && o < n <= |s| && Tiled(s, n)
    requires t[..o] == s[..o] && t[n..] == s[n..] && EntryOk(t, o) && Next(t, o) == n
    ensures Tiled(t, 0) && Live(t, 0) == LiveUpTo(s, 0, o) + ItemsAt(t, o) + Live(s, n)
  {
    hide EntryOk, Next, ItemsAt, LiveUpTo, Reaches;
    SameBefore(s, t, 0, o);
    SameAfter(s, t, n);
    SplitWalk(t, 0, o);
  }

  /** Splitting an entry inserts the new one right behind it and keeps the tiling. */
  lemma SplitKeeps(s: seq<byte>, o: nat, a: u16, x: Item)
    requires Tiled(s, 0) && Reaches(s, 0, o) && o < |s| && EntryOk(s, o)
    requires |x.name| < 0x100 && x.ino != 0
    requires HEADER + NameLen(s, o) <= a && a + HEADER + |x.name| <= RecLen(s, o)
    ensures Tiled(SplitAt(s, o, a, x, RecLen(s, o) - a), 0)
    ensures Tiled(s, Next(s, o))
    ensures Live(SplitAt(s, o, a, x, RecLen(s, o) - a), 0) ==
            LiveUpTo(s, 0, o) + ItemsAt(s, o) + [x] + Live(s, Next(s, o))
    ensures Live(s, 0) == LiveUpTo(s, 0, o) + ItemsAt(s, o) + Live(s, Next(s, o))
  {
    hide ItemsAt, Reaches, LiveUpTo, ResizeAt, PutAt, EntryBytes, EntryOk, Next, Live, SplitAt;
    EntryBounds(s, o);
    var rec, n := RecLen(s, o) - a, Next(s, o);
    SplitWalk(s, 0, o);
    LiveStep(s, o);
    var t := PutAt(s, o + a, x, rec);
    PutReads(s, o + a, x, rec);
    SliceSame(s, t, 0, o + a, 0, o);
    SameAfter(s, t, n);
    LiveStep(t, o + a);
    SameBefore(s, t, 0, o);
    var r := ResizeAt(t, o, a);
    ResizeMeets(s, o, a, x, rec);
    SplitEntry(s, t, o, a);
    TailOfTail(r, t, o + HEADER, o + a);
    Rebuilt(t, r, o, o + a);
    assert LiveUpTo(s, 0, o) + ItemsAt(s, o) + ([x] + Live(s, n))
           == LiveUpTo(s, 0, o) + ItemsAt(s, o) + [x] + Live(s, n);
  }

  lemma LiveStep(s: seq<byte>, o: nat)
    requires o < |s| && EntryOk(s, o)
    ensures Tiled(s, o) <==> Tiled(s, Next(s, o))
    ensures Tiled(s, o) ==> Live(s, o) == ItemsAt(s, o) + Live(s, Next(s, o))
  {
  }

  /** The order of the two writes of a split does not matter. */
  lemma ResizeMeets(s: seq<byte>, o: nat, a: u16, x: Item, rec: u16)
    requires |x.name| < 0x100 && o + a + HEADER + |x.name| <= |s| && HEADER <= a
    ensures ResizeAt(PutAt(s, o + a, x, rec), o, a) == SplitAt(s, o, a, x, rec)
  {
  }

  /** The shortened entry still reads as before, and the walk goes to the new one. */
  lemma SplitEntry(s: seq<byte>, t: seq<byte>, o: nat, a: u16)
    requires EntryOk(s, o) && HEADER + NameLen(s, o) <= a && o + a <= |s| == |t| && s[..o + a] == t[..o + a]
    ensures EntryOk(ResizeAt(t, o, a), o) && Next(ResizeAt(t, o, a), o) == o + a
    ensures ItemsAt(ResizeAt(t, o, a), o) == ItemsAt(s, o)
    ensures ResizeAt(t, o, a)[..o] == t[..o] && ResizeAt(t, o, a)[o + HEADER..] == t[o + HEADER..]
  {
    hide ItemsAt, ResizeAt;
    assert s[o..o + a] == s[..o + a][o..] && t[o..o + a] == t[..o + a][o..];
    EntrySame(s, t, o, o + a);
    ResizeReads(t, o, a);
  }

  /** Merging an entry into its predecessor takes exactly that entry away and keeps the tiling. */
  lemma MergeKeeps(s: seq<byte>, q: nat, o: nat)
    requires |s| < 0x1_0000 && Tiled(s, 0) && Reaches(s, 0, q) && q < |s| && EntryOk(s, q)
    requires o == Next(s, q) && o < |s| && EntryOk(s, o)
    ensures Reaches(s, 0, o) && Tiled(s, Next(s, o))
    ensures var t := ResizeAt(s, q, RecLen(s, q) + RecLen(s, o));
            Tiled(t, 0) && Live(t, 0) == LiveUpTo(s, 0, o) + Live(s, Next(s, o))
    ensures Live(s, 0) == LiveUpTo(s, 0, o) + ItemsAt(s, o) + Live(s, Next(s, o))
  {
    hide ItemsAt, Reaches, LiveUpTo, ResizeAt, EntryOk, Next, Live;
    EntryBounds(s, q);
    EntryBounds(s, o);
    ReachesNext(s, 0, q);
    SplitWalk(s, 0, o);
    LiveStep(s, o);
    var n := Next(s, o);
    ResizeReads(s, q, RecLen(s, q) + RecLen(s, o));
    var t := ResizeAt(s, q, RecLen(s, q) + RecLen(s, o));
    TailOfTail(t, s, q + HEADER, n);
    Rebuilt(s, t, q, n);
  }

  /** Clearing the inode number of an entry takes exactly that entry away and keeps the tiling. */
  lemma ClearKeeps(s: seq<byte>, o: nat)
    requires Tiled(s, 0) && Reaches(s, 0, o) && o < |s| && EntryOk(s, o)
    ensures Tiled(s, Next(s, o))
    ensures Tiled(ClearAt(s, o), 0) && Live(ClearAt(s, o), 0) == LiveUpTo(s, 0, o) + Live(s, Next(s, o))
    ensures Live(s, 0) == LiveUpTo(s, 0, o) + ItemsAt(s, o) + Live(s, Next(s, o))
  {
    hide ItemsAt, Reaches, LiveUpTo, ClearAt, EntryOk, Next, Live;
    EntryBounds(s, o);
    SplitWalk(s, 0, o);
    LiveStep(s, o);
    ClearReads(s, o);
    TailOfTail(ClearAt(s, o), s, o + HEADER, Next(s, o));
    Rebuilt(s, ClearAt(s, o), o, Next(s, o));
  }

  /**
   Reusing the record at `o` with the shorter length `size`: the block stays
   tiled exactly when the bytes from `o + size` on already tile it.
   */
  lemma ReuseExact(s: seq<byte>, o: nat, x: Item, size: u16)
    requires Reaches(s, 0, o) && |x.name| < 0x100 && x.ino != 0 && HEADER + |x.name| <= size && o + size <= |s|
    ensures Tiled(PutAt(s, o, x, size), 0) <==> Tiled(s, o + size)
    ensures Tiled(s, o + size) ==> Live(PutAt(s, o, x, size), 0) == LiveUpTo(s, 0, o) + [x] + Live(s, o + size)
  {
    hide ItemsAt, Reaches, LiveUpTo, PutAt, EntryOk, Next, Live, EntryBytes;
    var t := PutAt(s, o, x, size);
    PutReads(s, o, x, size);
    SameBefore(s, t, 0, o);
    SplitWalk(t, 0, o);
    EntryBounds(t, o);
    LiveStep(t, o);
    if Tiled(s, o + size) {
      SameAfter(s, t, o + size);
    }
    if Tiled(t, o + size) {
      SameAfter(t, s, o + size);
    }
    assert Tiled(s, o + size) ==>
             LiveUpTo(s, 0, o) + ([x] + Live(s, o + size)) == LiveUpTo(s, 0, o) + [x] + Live(s, o + size);
  }

  /** Reuse never keeps the tiling when the slack behind the new record is cleared: the walk stops there. */
  lemma ReuseBreaks(s: seq<byte>, o: nat, x: Item, size: u16)
    requires Reaches(s, 0, o) && |x.name| < 0x100 && x.ino != 0 && HEADER + |x.name| <= size && o + size + HEADER <= |s|
    requires s[o + size + 4] == 0 && s[o + size + 5] == 0
    ensures !Tiled(PutAt(s, o, x, size), 0)
  {
    hide Reaches, PutAt;
    assert RecLen(s, o + size) == 0;
    ReuseExact(s, o, x, size);
  }

  // ---------- lists of entries ----------

  /** `x` was inserted at position `i`. */
  predicate InsertedAt(l: seq<Item>, l': seq<Item>, x: Item, i: nat) {
    i <= |l| && l' == l[..i] + [x] + l[i..]
  }

  ghost predicate Inserted(l: seq<Item>, l': seq<Item>, x: Item) {
    exists i: nat :: InsertedAt(l, l', x, i)
  }

  /** The list without the first entry called `name`. */
  function Drop(l: seq<Item>, name: Name): seq<Item> {
    if l == [] then [] else if l[0].name == name then l[1..] else [l[0]] + Drop(l[1..], name)
  }

  predicate NoZero(l: seq<Item>) {
    forall i :: 0 <= i < |l| ==> l[i].ino != 0
  }

  predicate DistinctNames(l: seq<Item>) {
    forall i, j :: 0 <= i < j < |l| ==> l[i].name != l[j].name
  }

  predicate Lists(l: seq<Item>, name: Name) {
    exists i :: 0 <= i < |l| && l[i].name == name
  }

  lemma {:induction false} FirstIff(l: seq<Item>, name: Name)
    requires NoZero(l)
    ensures First(l, name) != 0 <==> Lists(l, name)
  {
    if l != [] {
      FirstIff(l[1..], name);
      if l[0].name != name && Lists(l, name) {
        var i :| 0 <= i < |l| && l[i].name == name;
        assert l[1..][i - 1].name == name;
      }
    }
  }

  lemma {:induction false} FirstOfSum(l: seq<Item>, m: seq<Item>, name: Name)
    requires NoZero(l)
    ensures First(l + m, name) == if First(l, name) != 0 then First(l, name) else First(m, name)
  {
    if l == [] {
      assert l + m == m;
    } else {
      assert (l + m)[1..] == l[1..] + m;
      FirstOfSum(l[1..], m, name);
    }
  }

  lemma {:induction false} DropOfSum(l: seq<Item>, m: seq<Item>, name: Name)
    requires NoZero(l) && First(l, name) == 0
    ensures Drop(l + m, name) == l + Drop(m, name)
  {
    if l == [] {
      assert l + m == m;
    } else {
      assert (l + m)[1..] == l[1..] + m;
      DropOfSum(l[1..], m, name);
    }
  }

  lemma {:induction false} DropFront(l: seq<Item>, m: seq<Item>, name: Name)
    requires NoZero(l) && First(l, name) != 0
    ensures Drop(l + m, name) == Drop(l, name) + m
  {
    assert l != [] && (l + m)[0] == l[0] && (l + m)[1..] == l[1..] + m;
    if l[0].name != name {
      var rest := l[1..];
      DropFront(rest, m, name);
      assert [l[0]] + (Drop(rest, name) + m) == [l[0]] + Drop(rest, name) + m;
    }
  }

  /** A lookup after an insertion of a new name. */
  lemma InsertedFirst(l: seq<Item>, l': seq<Item>, x: Item, name: Name)
    requires NoZero(l) && x.ino != 0 && Inserted(l, l', x) && First(l, x.name) == 0
    ensures NoZero(l') && First(l', name) == if name == x.name then x.ino else First(l, name)
  {
    var i: nat :| InsertedAt(l, l', x, i);
    var a, b := l[..i], l[i..];
    assert l == a + b && l' == a + ([x] + b);
    FirstOfSum(a, b, name);
    FirstOfSum(a, [x] + b, name);
    assert ([x] + b)[1..] == b;
    FirstOfSum(a, b, x.name);
  }

  lemma InsertedDistinct(l: seq<Item>, l': seq<Item>, x: Item)
    requires NoZero(l) && DistinctNames(l) && Inserted(l, l', x) && First(l, x.name) == 0
    ensures DistinctNames(l')
  {
    FirstIff(l, x.name);
    var i: nat :| InsertedAt(l, l', x, i);
    forall j, k | 0 <= j < k < |l'| ensures l'[j].name != l'[k].name {
      assert l'[j] == if j < i then l[j] else if j == i then x else l[j - 1];
      assert l'[k] == if k < i then l[k] else if k == i then x else l[k - 1];
    }
  }

  lemma {:induction false} DropIsPart(l: seq<Item>, name: Name, i: nat)
    requires i < |Drop(l, name)|
    ensures |Drop(l, name)| <= |l| && exists j :: i <= j < |l| && Drop(l, name)[i] == l[j]
  {
    if l[0].name == name {
      assert l[1..][i] == l[i + 1];
    } else if i > 0 {
      DropIsPart(l[1..], name, i - 1);
      var j :| i - 1 <= j < |l[1..]| && Drop(l[1..], name)[i - 1] == l[1..][j];
      assert l[1..][j] == l[j + 1];
    } else {
      DropLength(l, name);
    }
  }

  lemma {:induction false} DropLength(l: seq<Item>, name: Name)
    ensures |Drop(l, name)| <= |l|
  {
    if l != [] {
      DropLength(l[1..], name);
    }
  }

  /** A lookup after the first entry of a name is gone: with distinct names it finds all others and not this one. */
  lemma {:induction false} DropFirst(l: seq<Item>, name: Name, other: Name)
    requires NoZero(l)
    ensures other != name ==> First(Drop(l, name), other) == First(l, other)
    ensures DistinctNames(l) ==> First(Drop(l, name), name) == 0
  {
    if l != [] {
      if l[0].name == name {
        FirstIff(l[1..], name);
        assert DistinctNames(l) ==> !Lists(l[1..], name);
      } else {
        assert DistinctNames(l) ==> DistinctNames(l[1..]);
        DropFirst(l[1..], name, other);
        assert ([l[0]] + Drop(l[1..], name))[1..] == Drop(l[1..], name);
      }
    }
  }

  lemma {:induction false} DropDistinct(l: seq<Item>, name: Name)
    requires DistinctNames(l)
    ensures DistinctNames(Drop(l, name))
  {
    if l != [] && l[0].name != name {
      assert DistinctNames(l[1..]);
      DropDistinct(l[1..], name);
      var d := Drop(l[1..], name);
      forall k | 0 <= k < |d| ensures d[k].name != l[0].name {
        DropIsPart(l[1..], name, k);
        var j :| k <= j < |l[1..]| && d[k] == l[1..][j];
        assert l[1..][j] == l[j + 1];
      }
    }
  }

  lemma {:induction false} LiveNoZero(s: seq<byte>, off: nat)
    requires Tiled(s, off)
    ensures NoZero(Live(s, off))
    decreases |s| - off
  {
    if off < |s| {
      LiveNoZero(s, Next(s, off));
    }
  }
}
