/**
 The scans over one directory block in the I/O buffer: looking a name up,
 placing an entry, taking an entry away (kernel/src/fs/ext2.c:586-601,
 690-745, 1431-1464).
 */
module DirScan {
  import opened Bytes
  import opened BlockCache
  import opened DirBlock

  const NAME_LEN: nat := 255

  // ---------- looking up ----------

  lemma PrefixFields(s: seq<byte>, n: nat, off: nat)
    requires off + HEADER <= n <= |s|
    ensures InoAt(s[..n], off) == InoAt(s, off) && RecLen(s[..n], off) == RecLen(s, off)
            && NameLen(s[..n], off) == NameLen(s, off)
  {
    assert s[..n][off..off + 4] == s[off..off + 4] && s[..n][off + 4..off + 6] == s[off + 4..off + 6];
  }

  lemma PrefixName(s: seq<byte>, n: nat, off: nat)
    requires n <= |s| && EntryOk(s[..n], off)
    ensures off + HEADER + NameLen(s, off) <= |s|
    ensures NameAt(s[..n], off) == s[off + HEADER..off + HEADER + NameLen(s, off)]
  {
    PrefixFields(s, n, off);
  }

  /** A scan that has arrived at `off` without meeting `name`. */
  ghost predicate Passed(s: seq<byte>, off: nat, name: Name) {
    && off <= |s| && Tiled(s, 0) && Reaches(s, 0, off) && Tiled(s, off)
    && First(LiveUpTo(s, 0, off), name) == 0
  }

  lemma PassedStart(s: seq<byte>, name: Name)
    requires Tiled(s, 0)
    ensures Passed(s, 0, name)
  {
  }

  lemma {:induction false} UpToNoZero(s: seq<byte>, off: nat, o: nat)
    requires Reaches(s, off, o)
    ensures NoZero(LiveUpTo(s, off, o))
    decreases |s| - off
  {
    if off != o {
      UpToNoZero(s, Next(s, off), o);
    }
  }

  /** The entry at `off` either is the one a lookup finds, or the scan passes it. */
  lemma PassedEntry(s: seq<byte>, off: nat, name: Name)
    requires Passed(s, off, name) && off < |s|
    ensures EntryOk(s, off)
    ensures InoAt(s, off) != 0 && NameAt(s, off) == name ==> First(Live(s, 0), name) == InoAt(s, off)
    ensures InoAt(s, off) == 0 || NameAt(s, off) != name ==> Passed(s, Next(s, off), name)
  {
    hide Reaches, LiveUpTo, Live, EntryOk, Next;
    TiledEntry(s, off);
    EntryBounds(s, off);
    var before := LiveUpTo(s, 0, off);
    SplitWalk(s, 0, off);
    LiveStep(s, off);
    UpToNoZero(s, 0, off);
    ReachesNext(s, 0, off);
    FirstOfSum(before, ItemsAt(s, off), name);
    FirstOfSum(before, Live(s, off), name);
  }

  lemma TiledEntry(s: seq<byte>, off: nat)
    requires Tiled(s, off) && off < |s|
    ensures EntryOk(s, off) && Tiled(s, Next(s, off))
  {
  }

  lemma PassedAll(s: seq<byte>, name: Name)
    requires Passed(s, |s|, name)
    ensures First(Live(s, 0), name) == 0
  {
    SplitWalk(s, 0, |s|);
    assert Live(s, 0) == LiveUpTo(s, 0, |s|);
  }

  /** The inner loop of find_file_in_dir: on a tiled block, the first live entry with the name. */
  method FindInBlock(buf: array<byte>, bs: nat, name: Name) returns (ino: u32)
    requires BlockSizeOk(bs) && buf.Length == IO_BUFFER_SIZE
    ensures Tiled(buf[..bs], 0) ==> ino == First(Live(buf[..bs], 0), name)
  {
    hide Passed, Tiled, Live, First, InoAt, RecLen, NameLen;
    ghost var s, tiled := buf[..bs], Tiled(buf[..bs], 0);
    var off := 0;
    if tiled {
      PassedStart(s, name);
    }
    while off < bs
      invariant tiled ==> off <= bs && Passed(s, off, name)
      decreases bs - off
    {
      if tiled {
        PassedEntry(s, off, name);
        PrefixFields(buf[..], bs, off);
        PrefixName(buf[..], bs, off);
        assert buf[..][..bs] == s;
      }
      var rec, inode, len := RecLen(buf[..], off), InoAt(buf[..], off), NameLen(buf[..], off);
      if rec == 0 {
        return 0;
      }
      if inode != 0 && len == |name| && buf[..][off + HEADER..off + HEADER + len] == name {
        return inode;
      }
      off := off + rec;
    }
    if tiled {
      PassedAll(s, name);
    }
    ino := 0;
  }

  // ---------- placing an entry ----------

  /** An unused record that is long enough, or slack behind the name. */
  predicate FitsAt(s: seq<byte>, off: nat, size: nat)
    requires EntryOk(s, off)
  {
    (InoAt(s, off) == 0 && RecLen(s, off) >= size) || RecLen(s, off) >= Room(NameLen(s, off)) + size
  }

  /** The first place for a record of `size` bytes, or the end of the block. */
  ghost function FirstFit(s: seq<byte>, off: nat, size: nat): (o: nat)
    requires Tiled(s, off)
    decreases |s| - off
  {
    if off == |s| || FitsAt(s, off, size) then off else FirstFit(s, Next(s, off), size)
  }

  lemma {:induction false} FirstFitReached(s: seq<byte>, off: nat, size: nat)
    requires Tiled(s, off) && Reaches(s, 0, off)
    ensures var o := FirstFit(s, off, size);
            && o <= |s| && Reaches(s, 0, o) && Tiled(s, o)
            && (o < |s| ==> EntryOk(s, o) && FitsAt(s, o, size))
    decreases |s| - off
  {
    hide Reaches, EntryOk, Next, FitsAt;
    if off < |s| && !FitsAt(s, off, size) {
      EntryBounds(s, off);
      ReachesNext(s, 0, off);
      FirstFitReached(s, Next(s, off), size);
    }
  }

  /**
   Seen from the bytes, the record at `o` has room for a name of `n` bytes: it is
   unused and long enough, or has that much behind its own name.
   */
  ghost predicate HasSlack(s: seq<byte>, o: nat, n: nat) {
    && Tiled(s, 0) && Reaches(s, 0, o) && o + 8 <= |s|
    && var rec := (s[o + 4] as int) + 0x100 * (s[o + 5] as int);
       (s[o..o + 4] == [0, 0, 0, 0] && rec >= Room(n)) || rec >= Room(s[o + 6]) + Room(n)
  }

  /** Slack is not passed over. */
  lemma SlackIsTaken(s: seq<byte>, o: nat, n: nat)
    requires HasSlack(s, o, n)
    ensures FirstFit(s, 0, Room(n)) <= o < |s|
  {
    hide Tiled, Reaches, FirstFit;
    SplitTiled(s, 0, o);
    FitNoLater(s, 0, o, Room(n));
  }

  lemma {:induction false} SplitTiled(s: seq<byte>, off: nat, o: nat)
    requires Tiled(s, off) && Reaches(s, off, o)
    ensures Tiled(s, o)
    decreases |s| - off
  {
    if off != o {
      SplitTiled(s, Next(s, off), o);
    }
  }

  lemma {:induction false} FitNoLater(s: seq<byte>, off: nat, o: nat, size: nat)
    requires Tiled(s, off) && Reaches(s, off, o) && o < |s| && EntryOk(s, o) && FitsAt(s, o, size)
    ensures FirstFit(s, off, size) <= o
    decreases |s| - off
  {
    hide FitsAt, EntryOk;
    if off != o && !FitsAt(s, off, size) {
      FitNoLater(s, Next(s, off), o, size);
    }
  }

  /** The block after `x` was put at its first fit. */
  ghost function Placed(s: seq<byte>, x: Item): (t: seq<byte>)
    requires Tiled(s, 0) && |s| < 0x1_0000 && |x.name| <= NAME_LEN && FirstFit(s, 0, Room(|x.name|)) < |s|
    ensures |t| == |s|
  {
    var o := FirstFit(s, 0, Room(|x.name|));
    FirstFitReached(s, 0, Room(|x.name|));
    if InoAt(s, o) == 0 && RecLen(s, o) >= Room(|x.name|) then PutAt(s, o, x, Room(|x.name|))
    else SplitAt(s, o, Room(NameLen(s, o)), x, RecLen(s, o) - Room(NameLen(s, o)))
  }

  /**
   If the first fit is an unused record, the entries behind a record of `size`
   bytes there are those behind the record itself. A record of just that size is
   the plain case; slack that happens to spell entries out is not.
   */
  ghost predicate SafeFit(s: seq<byte>, size: nat)
    requires Tiled(s, 0)
  {
    var o := FirstFit(s, 0, size);
    o < |s| && EntryOk(s, o) && InoAt(s, o) == 0 && RecLen(s, o) >= size ==>
      Tiled(s, o + size) && Tiled(s, Next(s, o)) && Live(s, o + size) == Live(s, Next(s, o))
  }

  /** The first fit is no unused record with slack behind the new name. */
  ghost predicate ExactFit(s: seq<byte>, size: nat)
    requires Tiled(s, 0)
  {
    var o := FirstFit(s, 0, size);
    o < |s| && EntryOk(s, o) && InoAt(s, o) == 0 && RecLen(s, o) >= size ==> RecLen(s, o) == size
  }

  /** A record of just the right size is a safe place. */
  lemma ExactIsSafe(s: seq<byte>, size: nat)
    requires Tiled(s, 0) && ExactFit(s, size)
    ensures SafeFit(s, size)
  {
    hide Live, FirstFit, Reaches;
    FitFound(s, size);
  }

  lemma FitFound(s: seq<byte>, size: nat)
    requires Tiled(s, 0)
    ensures var o := FirstFit(s, 0, size);
            && o <= |s| && Reaches(s, 0, o) && Tiled(s, o)
            && (o < |s| ==> EntryOk(s, o) && FitsAt(s, o, size))
  {
    FirstFitReached(s, 0, size);
  }

  /** With a safe fit the block stays tiled and its list gains exactly the new entry. */
  lemma PlacedKeeps(s: seq<byte>, x: Item)
    requires Tiled(s, 0) && |s| < 0x1_0000 && |x.name| <= NAME_LEN && x.ino != 0
    requires FirstFit(s, 0, Room(|x.name|)) < |s| && SafeFit(s, Room(|x.name|))
    ensures Tiled(Placed(s, x), 0) && Inserted(Live(s, 0), Live(Placed(s, x), 0), x)
  {
    hide Reaches, LiveUpTo, Live, Next, FirstFit, PutAt, SplitAt, Inserted, Tiled, InoAt, RecLen, NameLen, ItemsAt;
    var size := Room(|x.name|);
    var o := FirstFit(s, 0, size);
    FitFound(s, size);
    if InoAt(s, o) == 0 && RecLen(s, o) >= size {
      UnusedAt(s, o);
      ReuseExact(s, o, x, size);
      InsertedBetween(Live(s, 0), Live(Placed(s, x), 0), x, LiveUpTo(s, 0, o), Live(s, Next(s, o)));
    } else {
      SplitKeeps(s, o, Room(NameLen(s, o)), x);
      InsertedBetween(Live(s, 0), Live(Placed(s, x), 0), x, LiveUpTo(s, 0, o) + ItemsAt(s, o), Live(s, Next(s, o)));
    }
  }

  /** An unused record adds nothing to the list. */
  lemma UnusedAt(s: seq<byte>, o: nat)
    requires Tiled(s, 0) && Reaches(s, 0, o) && o < |s| && EntryOk(s, o) && InoAt(s, o) == 0
    ensures Tiled(s, Next(s, o)) && Live(s, 0) == LiveUpTo(s, 0, o) + Live(s, Next(s, o))
  {
    hide Reaches, LiveUpTo, Live;
    SplitWalk(s, 0, o);
    LiveStep(s, o);
  }

  lemma InsertedBetween(l: seq<Item>, l': seq<Item>, x: Item, a: seq<Item>, b: seq<Item>)
    requires l == a + b && l' == a + [x] + b
    ensures Inserted(l, l', x)
  {
    assert InsertedAt(l, l', x, |a|);
  }

  /** A list gains a new name between `a` and `b` exactly when what follows it is still `b`. */
  lemma InsertedExactly(a: seq<Item>, b: seq<Item>, b': seq<Item>, x: Item)
    requires NoZero(a + b) && First(a + b, x.name) == 0
    ensures Inserted(a + b, a + [x] + b', x) <==> b' == b
  {
    hide First, NoZero;
    FirstIff(a + b, x.name);
    if b' == b {
      InsertedBetween(a + b, a + [x] + b', x, a, b);
    }
    if Inserted(a + b, a + [x] + b', x) {
      var i: nat :| InsertedAt(a + b, a + [x] + b', x, i);
      OnlyPlace(a, b, b', x, i);
    }
  }

  lemma OnlyPlace(a: seq<Item>, b: seq<Item>, b': seq<Item>, x: Item, i: nat)
    requires !Lists(a + b, x.name) && InsertedAt(a + b, a + [x] + b', x, i)
    ensures b' == b
  {
    var l, l' := a + b, a + [x] + b';
    assert l'[|a|] == x && l' == l[..i] + [x] + l[i..];
    assert forall j :: 0 <= j < |l'| && j != i ==> l'[j] == l[if j < i then j else j - 1];
    assert i == |a|;
    assert b' == l'[|a| + 1..] == l[|a|..] == b;
  }

  /**
   Adding an absent name keeps the block tiled and its list but for the new entry
   if and only if the fit is safe.
   */
  lemma PlacedExactly(s: seq<byte>, x: Item)
    requires Tiled(s, 0) && |s| < 0x1_0000 && |x.name| <= NAME_LEN && x.ino != 0
    requires FirstFit(s, 0, Room(|x.name|)) < |s| && First(Live(s, 0), x.name) == 0
    ensures Tiled(Placed(s, x), 0) && Inserted(Live(s, 0), Live(Placed(s, x), 0), x) <==> SafeFit(s, Room(|x.name|))
  {
    hide Reaches, LiveUpTo, Live, Next, FirstFit, PutAt, SplitAt, Inserted, Tiled, First, NoZero;
    var size := Room(|x.name|);
    var o := FirstFit(s, 0, size);
    FitFound(s, size);
    LiveNoZero(s, 0);
    if SafeFit(s, size) {
      PlacedKeeps(s, x);
    } else {
      UnusedAt(s, o);
      ReuseExact(s, o, x, size);
      if Tiled(s, o + size) {
        InsertedExactly(LiveUpTo(s, 0, o), Live(s, Next(s, o)), Live(s, o + size), x);
      }
    }
  }

  /** `*entry = {ino, rec, name_len, type, name}` at `off`. */
  method PutEntry(buf: array<byte>, off: nat, x: Item, rec: u16)
    requires |x.name| <= NAME_LEN && off + HEADER + |x.name| <= buf.Length
    modifies buf
    ensures buf[..] == PutAt(old(buf[..]), off, x, rec)
  {
    Memcpy(buf, off, EntryBytes(x, rec));
  }

  lemma PutPrefix(s: seq<byte>, n: nat, off: nat, x: Item, rec: u16)
    requires |x.name| <= NAME_LEN && off + HEADER + |x.name| <= n <= |s|
    ensures PutAt(s, off, x, rec)[..n] == PutAt(s[..n], off, x, rec)
  {
  }

  lemma ResizePrefix(s: seq<byte>, n: nat, off: nat, rec: u16)
    requires off + HEADER <= n <= |s|
    ensures ResizeAt(s, off, rec)[..n] == ResizeAt(s[..n], off, rec)
  {
  }

  lemma SplitIsTwo(s: seq<byte>, o: nat, a: u16, x: Item, rec: u16)
    requires |x.name| < 0x100 && o + HEADER <= |s| && o + a + HEADER + |x.name| <= |s|
    ensures PutAt(ResizeAt(s, o, a), o + a, x, rec) == SplitAt(s, o, a, x, rec)
  {
  }

  /** A scan for a place of `size` bytes that has arrived at `off`. */
  ghost predicate Seeking(s: seq<byte>, off: nat, size: nat) {
    off <= |s| && Tiled(s, 0) && Tiled(s, off) && FirstFit(s, off, size) == FirstFit(s, 0, size)
  }

  lemma SeekEntry(s: seq<byte>, off: nat, size: nat)
    requires Seeking(s, off, size) && off < |s|
    ensures EntryOk(s, off)
    ensures FitsAt(s, off, size) ==> FirstFit(s, 0, size) == off
    ensures !FitsAt(s, off, size) ==> Seeking(s, Next(s, off), size)
  {
  }

  /**
   The inner loop of add_dir_entry: on a tiled block, the entry goes to its
   first fit, and nothing changes when there is none.
   */
  method AddInBlock(buf: array<byte>, bs: nat, x: Item) returns (added: bool)
    requires BlockSizeOk(bs) && buf.Length == IO_BUFFER_SIZE && |x.name| <= NAME_LEN
    modifies buf
    ensures old(Tiled(buf[..bs], 0)) ==> (added <==> FirstFit(old(buf[..bs]), 0, Room(|x.name|)) < bs)
    ensures old(Tiled(buf[..bs], 0)) && added ==> buf[..bs] == Placed(old(buf[..bs]), x)
    ensures !added ==> buf[..] == old(buf[..])
  {
    hide Tiled, FirstFit, Seeking, InoAt, RecLen, NameLen, PutAt, SplitAt, ResizeAt;
    ghost var s, tiled := buf[..bs], Tiled(buf[..bs], 0);
    var off, size := 0, Room(|x.name|);
    if tiled {
      SeekStart(s, size);
    }
    while off < bs
      invariant buf[..] == old(buf[..])
      invariant tiled ==> off <= bs && Seeking(s, off, size)
      decreases bs - off
    {
      if tiled {
        SeekEntry(s, off, size);
        PrefixFields(buf[..], bs, off);
        assert buf[..][..bs] == s;
      }
      var rec, inode, len := RecLen(buf[..], off), InoAt(buf[..], off), NameLen(buf[..], off);
      if rec == 0 || (inode == 0 && rec >= size) {
        Reuse(buf, bs, off, x, s, tiled);
        return true;
      }
      if rec >= Room(len) + size {
        Divide(buf, bs, off, Room(len), rec - Room(len), x, s, tiled);
        return true;
      }
      off := off + rec;
    }
    if tiled {
      SeekEnd(s, size);
    }
    added := false;
  }

  lemma SeekStart(s: seq<byte>, size: nat)
    requires Tiled(s, 0)
    ensures Seeking(s, 0, size)
  {
  }

  lemma SeekEnd(s: seq<byte>, size: nat)
    requires Seeking(s, |s|, size)
    ensures FirstFit(s, 0, size) == |s|
  {
  }

  /** Takes an unused record, shortened to the new entry. */
  method Reuse(buf: array<byte>, bs: nat, off: nat, x: Item, ghost s: seq<byte>, ghost tiled: bool)
    requires BlockSizeOk(bs) && buf.Length == IO_BUFFER_SIZE && |x.name| <= NAME_LEN && off < bs && s == buf[..bs]
    requires tiled ==> Tiled(s, 0) && EntryOk(s, off) && FirstFit(s, 0, Room(|x.name|)) == off
    requires tiled ==> InoAt(s, off) == 0 && RecLen(s, off) >= Room(|x.name|)
    modifies buf
    ensures tiled ==> buf[..bs] == Placed(s, x)
  {
    hide Tiled, FirstFit, PutAt;
    assert buf[..][..bs] == s;
    if tiled {
      PutPrefix(buf[..], bs, off, x, Room(|x.name|));
    }
    PutEntry(buf, off, x, Room(|x.name|));
    assert buf[..][..bs] == buf[..bs];
  }

  /** Cuts the entry at `off` to `a` bytes and gives the rest of its record to the new one. */
  method Divide(buf: array<byte>, bs: nat, off: nat, a: u16, rec: u16, x: Item, ghost s: seq<byte>, ghost tiled: bool)
    requires BlockSizeOk(bs) && buf.Length == IO_BUFFER_SIZE && |x.name| <= NAME_LEN && off < bs && s == buf[..bs]
    requires a <= HEADER + NAME_LEN + 7
    requires tiled ==> Tiled(s, 0) && EntryOk(s, off) && FirstFit(s, 0, Room(|x.name|)) == off
    requires tiled ==> !(InoAt(s, off) == 0 && RecLen(s, off) >= Room(|x.name|)) && a == Room(NameLen(s, off))
                       && rec == RecLen(s, off) - a >= Room(|x.name|)
    modifies buf
    ensures tiled ==> buf[..bs] == Placed(s, x)
  {
    hide Tiled, FirstFit, PutAt, SplitAt, ResizeAt;
    ghost var b := buf[..];
    assert b[..bs] == s;
    Resize(buf, off, a);
    PutEntry(buf, off + a, x, rec);
    assert buf[..][..bs] == buf[..bs];
    if tiled {
      ResizePrefix(b, bs, off, a);
      PutPrefix(ResizeAt(b, off, a), bs, off + a, x, rec);
      SplitIsTwo(s, off, a, x, rec);
    }
  }

  /** `entry->rec_len = rec` */
  method Resize(buf: array<byte>, off: nat, rec: u16)
    requires off + HEADER <= buf.Length
    modifies buf
    ensures buf[..] == ResizeAt(old(buf[..]), off, rec)
  {
    Memcpy(buf, off + 4, EncodeU16(rec));
  }

  // ---------- taking an entry away ----------

  /** The entry before `off` starts at `prev`; at the start of the block there is none. */
  ghost predicate Before(s: seq<byte>, prev: int, off: nat) {
    if off == 0 then prev == -1
    else 0 <= prev < |s| && Reaches(s, 0, prev) && EntryOk(s, prev) && Next(s, prev) == off
  }

  /** The block with the entry at `off` merged into its predecessor or cleared. */
  ghost function TakenAway(s: seq<byte>, prev: int, off: nat): (t: seq<byte>)
    requires |s| < 0x1_0000 && EntryOk(s, off) && Before(s, prev, off)
    ensures |t| == |s|
  {
    if off == 0 then ClearAt(s, off) else ResizeAt(s, prev, RecLen(s, prev) + RecLen(s, off))
  }

  lemma DropMiddle(a: seq<Item>, x: Item, b: seq<Item>)
    requires NoZero(a) && First(a, x.name) == 0
    ensures Drop(a + [x] + b, x.name) == a + b
  {
    assert a + [x] + b == a + ([x] + b);
    DropOfSum(a, [x] + b, x.name);
    assert ([x] + b)[1..] == b;
  }

  /** Taking the first entry of a name away: the block stays tiled and its list loses exactly that entry. */
  lemma TakenAwayKeeps(s: seq<byte>, prev: int, off: nat, name: Name)
    requires |s| < 0x1_0000 && off < |s| && EntryOk(s, off) && Before(s, prev, off)
    requires Passed(s, off, name) && InoAt(s, off) != 0 && NameAt(s, off) == name
    ensures Tiled(TakenAway(s, prev, off), 0) && Live(TakenAway(s, prev, off), 0) == Drop(Live(s, 0), name)
  {
    hide Reaches, LiveUpTo, Live, Next, ClearAt, ResizeAt, Tiled, First, Drop;
    UpToNoZero(s, 0, off);
    if off == 0 {
      ClearKeeps(s, off);
    } else {
      MergeKeeps(s, prev, off);
    }
    DropMiddle(LiveUpTo(s, 0, off), ItemsAt(s, off)[0], Live(s, Next(s, off)));
  }

  lemma BeforeNext(s: seq<byte>, off: nat, name: Name)
    requires Passed(s, off, name) && off < |s| && EntryOk(s, off)
    ensures Before(s, off, Next(s, off))
  {
  }

  /**
   The inner loop of ext2_unlink over the block: when a lookup of the name would
   find `ino`, that entry goes and the list loses exactly it.
   */
  method RemoveInBlock(buf: array<byte>, bs: nat, name: Name, ino: u32) returns (removed: bool)
    requires BlockSizeOk(bs) && buf.Length == IO_BUFFER_SIZE && ino != 0
    modifies buf
    ensures old(Tiled(buf[..bs], 0))
            && (First(old(Live(buf[..bs], 0)), name) == 0 || First(old(Live(buf[..bs], 0)), name) == ino) ==>
              && (removed <==> First(old(Live(buf[..bs], 0)), name) == ino)
              && (removed ==> Tiled(buf[..bs], 0) && Live(buf[..bs], 0) == Drop(old(Live(buf[..bs], 0)), name))
    ensures !removed ==> buf[..] == old(buf[..])
  {
    hide Passed, Tiled, Live, First, InoAt, RecLen, NameLen, Before, TakenAway, Drop;
    ghost var s := buf[..bs];
    ghost var good := Tiled(s, 0) && (First(Live(s, 0), name) == 0 || First(Live(s, 0), name) == ino);
    var off, prev := 0, -1;
    if good {
      PassedStart(s, name);
      NoneBefore(s);
    }
    while off < bs
      invariant buf[..] == old(buf[..]) && -1 <= prev < bs
      invariant good ==> off <= bs && Passed(s, off, name) && Before(s, prev, off)
      decreases bs - off
    {
      if good {
        PassedEntry(s, off, name);
        PrefixFields(buf[..], bs, off);
        PrefixName(buf[..], bs, off);
        assert buf[..][..bs] == s;
      }
      var rec, inode, len := RecLen(buf[..], off), InoAt(buf[..], off), NameLen(buf[..], off);
      if rec == 0 {
        return false;
      }
      if inode == ino && len == |name| && buf[..][off + HEADER..off + HEADER + len] == name {
        TakeAway(buf, bs, prev, off, s, good);
        if good {
          TakenAwayKeeps(s, prev, off, name);
        }
        return true;
      }
      if good {
        BeforeNext(s, off, name);
      }
      prev := off;
      off := off + rec;
    }
    if good {
      PassedAll(s, name);
    }
    removed := false;
  }

  lemma NoneBefore(s: seq<byte>)
    ensures Before(s, -1, 0)
  {
  }

  method TakeAway(buf: array<byte>, bs: nat, prev: int, off: nat, ghost s: seq<byte>, ghost good: bool)
    requires BlockSizeOk(bs) && buf.Length == IO_BUFFER_SIZE && -1 <= prev < bs && off < bs && s == buf[..bs]
    requires good ==> EntryOk(s, off) && Before(s, prev, off)
    modifies buf
    ensures good ==> buf[..bs] == TakenAway(s, prev, off)
  {
    hide Reaches, EntryOk, Next, RecLen, ResizeAt, ClearAt;
    ghost var b := buf[..];
    assert b[..bs] == s;
    if good {
      TakenAwayFacts(b, bs, prev, off);
    }
    if prev >= 0 {
      Resize(buf, prev, (RecLen(buf[..], prev) + RecLen(buf[..], off)) % 0x1_0000);
    } else {
      ClearInode(buf, off);
    }
    assert buf[..][..bs] == buf[..bs];
  }

  lemma TakenAwayFacts(b: seq<byte>, bs: nat, prev: int, off: nat)
    requires bs <= |b| && bs < 0x1_0000 && EntryOk(b[..bs], off) && Before(b[..bs], prev, off)
    ensures off + HEADER <= |b|
    ensures if off == 0 then prev == -1 && ClearAt(b, off)[..bs] == TakenAway(b[..bs], prev, off)
            else 0 <= prev && prev + HEADER <= |b|
                 && ResizeAt(b, prev, (RecLen(b, prev) + RecLen(b, off)) % 0x1_0000)[..bs]
                    == TakenAway(b[..bs], prev, off)
  {
    hide Reaches, ResizeAt;
    PrefixFields(b, bs, off);
    if off > 0 {
      PrefixFields(b, bs, prev);
      ResizePrefix(b, bs, prev, RecLen(b, prev) + RecLen(b, off));
    } else {
      assert ClearAt(b, off)[..bs] == ClearAt(b[..bs], off);
    }
  }

  /** `entry->inode = 0` */
  method ClearInode(buf: array<byte>, off: nat)
    requires off + HEADER <= buf.Length
    modifies buf
    ensures buf[..] == ClearAt(old(buf[..]), off)
  {
    Memcpy(buf, off, EncodeU32(0));
  }

  // ---------- an unused record with slack ----------

  /** In a block of zeros: an entry for `b` from byte 24 on. */
  function HalfBlock(zeros: seq<byte>): (s: seq<byte>)
    requires |zeros| == 1024
    ensures |s| == 1024
  {
    PutAt(zeros, 24, Item([98], 7, 1), 1000)
  }

  /** An unused first record of 24 bytes, then an entry for `b` up to the end of the block. */
  function SlackBlock(zeros: seq<byte>): (s: seq<byte>)
    requires |zeros| == 1024
    ensures |s| == 1024
  {
    PutAt(HalfBlock(zeros), 0, Item([120], 0, 1), 24)
  }

  lemma SlackBytes(zeros: seq<byte>)
    requires |zeros| == 1024 && zeros[20] == zeros[21] == 0
    ensures SlackBlock(zeros)[20] == 0 && SlackBlock(zeros)[21] == 0
  {
  }

  lemma SlackWalk(zeros: seq<byte>)
    requires |zeros| == 1024
    ensures Tiled(SlackBlock(zeros), 0) && Live(SlackBlock(zeros), 0) == [Item([98], 7, 1)]
    ensures EntryOk(SlackBlock(zeros), 0) && InoAt(SlackBlock(zeros), 0) == 0 && Next(SlackBlock(zeros), 0) == 24
  {
    hide EntryOk, Next, ItemsAt, PutAt;
    var b, s := HalfBlock(zeros), SlackBlock(zeros);
    PutReads(zeros, 24, Item([98], 7, 1), 1000);
    assert Tiled(b, 1024) && Live(b, 1024) == [];
    LiveStep(b, 24);
    PutReads(b, 0, Item([120], 0, 1), 24);
    SameAfter(b, s, 24);
    LiveStep(s, 0);
  }

  /** Adding a one-letter name to it breaks the tiling, and with it the way to `b`. */
  lemma SlackReuseBreaks(zeros: seq<byte>, x: Item)
    requires |zeros| == 1024 && (forall i :: 0 <= i < 1024 ==> zeros[i] == 0) && |x.name| == 1 && x.ino != 0
    ensures var s := SlackBlock(zeros);
            && Tiled(s, 0) && Live(s, 0) == [Item([98], 7, 1)]
            && FirstFit(s, 0, Room(1)) == 0 && !ExactFit(s, Room(1)) && !SafeFit(s, Room(1)) && !Tiled(Placed(s, x), 0)
  {
    hide PutAt, SlackBlock, Live, Tiled;
    var s := SlackBlock(zeros);
    SlackWalk(zeros);
    SlackBytes(zeros);
    assert Room(1) == 16 && RecLen(s, 0) == 24;
    assert FirstFit(s, 0, 16) == 0;
    ReuseBreaks(s, 0, x, 16);
    if SafeFit(s, 16) {
      PlacedKeeps(s, x);
    }
    if ExactFit(s, 16) {
      ExactIsSafe(s, 16);
    }
  }

  // ---------- a deleted name comes back ----------

  /** Three entries: `a` and `b` of 16 bytes, `c` up to the end of the block. */
  function ThreeNames(zeros: seq<byte>): (s: seq<byte>)
    requires |zeros| == 1024
    ensures |s| == 1024
  {
    PutAt(PutAt(PutAt(zeros, 32, Item([99], 7, 1), 992), 16, Item([98], 6, 1), 16), 0, Item([97], 5, 1), 16)
  }

  lemma ThreeNamesWalk(zeros: seq<byte>)
    requires |zeros| == 1024
    ensures var s := ThreeNames(zeros);
            && EntryOk(s, 0) && Next(s, 0) == 16 && ItemsAt(s, 0) == [Item([97], 5, 1)]
            && EntryOk(s, 16) && Next(s, 16) == 32 && ItemsAt(s, 16) == [Item([98], 6, 1)]
            && Tiled(s, 32) && Live(s, 32) == [Item([99], 7, 1)]
  {
    hide EntryOk, Next, ItemsAt, PutAt;
    var a, b, c := Item([97], 5, 1), Item([98], 6, 1), Item([99], 7, 1);
    var s1 := PutAt(zeros, 32, c, 992);
    var s2 := PutAt(s1, 16, b, 16);
    var s3 := PutAt(s2, 0, a, 16);
    PutReads(zeros, 32, c, 992);
    assert Tiled(s1, 1024) && Live(s1, 1024) == [];
    LiveStep(s1, 32);
    PutReads(s1, 16, b, 16);
    SameAfter(s1, s2, 32);
    PutReads(s2, 0, a, 16);
    TailOfTail(s3, s2, 16, 32);
    SameAfter(s2, s3, 32);
    EntrySameTail(s2, s3, 16);
  }

  /** Unlinking `a` clears it and unlinking `b` merges it into that record; its bytes stay. */
  lemma TwoUnlinks(s0: seq<byte>)
    requires |s0| == 1024 && EntryOk(s0, 0) && Next(s0, 0) == 16 && EntryOk(s0, 16) && Next(s0, 16) == 32
    requires Tiled(s0, 32) && InoAt(s0, 16) != 0
    ensures Before(s0, -1, 0)
    ensures var s1 := TakenAway(s0, -1, 0);
            && EntryOk(s1, 16) && Before(s1, 0, 16)
            && var s2 := TakenAway(s1, 0, 16);
               && Tiled(s2, 0) && Live(s2, 0) == Live(s0, 32) && EntryOk(s2, 0) && InoAt(s2, 0) == 0
               && RecLen(s2, 0) == 32
               && Tiled(s2, 16) && Live(s2, 16) == ItemsAt(s0, 16) + Live(s0, 32)
  {
    hide ItemsAt, ClearAt, ResizeAt, Live, Tiled;
    LiveStep(s0, 16);
    LiveStep(s0, 0);
    var s1 := ClearAt(s0, 0);
    ClearReads(s0, 0);
    ClearKeeps(s0, 0);
    TailOfTail(s1, s0, HEADER, 16);
    SameAfter(s0, s1, 16);
    EntrySameTail(s0, s1, 16);
    var s2 := ResizeAt(s1, 0, 32);
    ResizeReads(s1, 0, 32);
    TailOfTail(s2, s1, HEADER, 16);
    SameAfter(s1, s2, 16);
    ClearedStays(s0);
    TailOfTail(s2, s0, 16, 32);
    SameAfter(s0, s2, 32);
    LiveStep(s2, 0);
  }

  lemma ClearedStays(s0: seq<byte>)
    requires EntryOk(s0, 0) && 32 <= |s0|
    ensures var s2 := ResizeAt(ClearAt(s0, 0), 0, 32);
            InoAt(s2, 0) == 0 && RecLen(s2, 0) == 32 && s2[16..] == s0[16..]
  {
    hide EncodeU16, EncodeU32, U16, U32;
    var s2 := ResizeAt(ClearAt(s0, 0), 0, 32);
    assert s2[0..4] == EncodeU32(0) && s2[4..6] == EncodeU16(32);
  }

  /**
   Unlink `a`, unlink `b`, add a one-letter name: the block is still tiled, but the
   old bytes of `b` are an entry again. The fit was not safe.
   */
  lemma StaleNameReturns(zeros: seq<byte>, x: Item)
    requires |zeros| == 1024 && |x.name| == 1 && x.ino != 0
    ensures var s0 := ThreeNames(zeros);
            && Before(s0, -1, 0) && EntryOk(s0, 0)
            && var s1 := TakenAway(s0, -1, 0);
               && Before(s1, 0, 16) && EntryOk(s1, 16)
               && var s2 := TakenAway(s1, 0, 16);
                  && Tiled(s2, 0) && Live(s2, 0) == [Item([99], 7, 1)] && FirstFit(s2, 0, Room(1)) == 0
                  && Tiled(Placed(s2, x), 0) && Live(Placed(s2, x), 0) == [x, Item([98], 6, 1), Item([99], 7, 1)]
                  && !SafeFit(s2, Room(1))
  {
    hide ThreeNames, TakenAway, Live, Tiled, PutAt, Before;
    var s0 := ThreeNames(zeros);
    ThreeNamesWalk(zeros);
    TwoUnlinks(s0);
    var s2 := TakenAway(TakenAway(s0, -1, 0), 0, 16);
    assert Room(1) == 16 && FirstFit(s2, 0, 16) == 0 && Placed(s2, x) == PutAt(s2, 0, x, 16);
    ReuseExact(s2, 0, x, 16);
    assert LiveUpTo(s2, 0, 0) == [];
    assert Live(Placed(s2, x), 0) == [x, Item([98], 6, 1), Item([99], 7, 1)];
    if SafeFit(s2, 16) {
      PlacedKeeps(s2, x);
    }
  }
}
