/**
 The access rights that page-table entries grant (section 4.6 of the Intel SDM,
 Volume 3A): a page is writable, or open to user code, when every entry of its walk
 says so. New tables are linked so that the last entry alone decides.
 */
module PageRights {
  import opened Bytes
  import opened PageTables

  const WRITE_BIT: nat := 1
  const USER_BIT: nat := 2

  lemma PushBit(x: nat, y: nat, r: nat)
    requires r < 2 && x == 2 * y + r
    ensures Bit(x, 0) == (r == 1)
    ensures forall k: nat :: k > 0 ==> Bit(x, k) == Bit(y, k - 1)
  {
    assert x / 2 == y;
  }

  /** A multiple of 2^m has no say in the low m bits of a sum. */
  lemma {:induction false} LowBitsOfSum(m: nat, k: nat, low: nat, j: nat)
    requires j < m
    ensures Bit(Pow2(m) * k + low, j) == Bit(low, j)
    decreases m
  {
    var h, x := Pow2(m - 1) * k, Pow2(m) * k + low;
    assert Pow2(m) * k == 2 * h;
    assert x == 2 * (h + low / 2) + low % 2;
    if j > 0 {
      assert x / 2 == h + low / 2;
      LowBitsOfSum(m - 1, k, low / 2, j - 1);
    }
  }

  lemma EntryBit(frame: u64, low: nat, j: nat)
    requires frame % PAGE_SIZE == 0 && j < 12
    ensures Bit(frame + low, j) == Bit(low, j)
  {
    hide Bit;
    assert Pow2(12) == 2 * Pow2(11) == 4 * Pow2(10) == 8 * Pow2(9) == 16 * Pow2(8);
    Pow2Eight();
    LowBitsOfSum(12, frame / PAGE_SIZE, low, j);
  }

  /** The fields of an entry: bit 0 is present, bit 7 is huge, and the frame is all but the low twelve bits. */
  lemma EntryFields(e: u64)
    ensures Present(e) <==> Bit(e, 0)
    ensures Huge(e) <==> Bit(e, 7)
    ensures FrameOf(e) % 4096 == 0 && FrameOf(e) + e % 4096 == e
  {
    BitIs(e, 7);
    SmallPowers();
  }

  // ---------- the links of new tables ----------

  /** Entry `j` of table `f` leads to another table if it is present. */
  ghost predicate IsLink(mem: Memory, tables: map<nat, Node>, f: nat, j: nat) {
    f in tables && f in mem && j < |mem[f]| && |tables[f].path| < 3 && Present(mem[f][j])
  }

  ghost predicate OldEntry(m0: Memory, t0: map<nat, Node>, f: nat, j: nat, e: u64) {
    f in t0 && f in m0 && j < |m0[f]| && m0[f][j] == e
  }

  /** Every link was there before, or lets code below it write and, if `user` says so, lets user code pass. */
  ghost predicate NewLinksOpen(m0: Memory, t0: map<nat, Node>, mem: Memory, tables: map<nat, Node>, user: bool) {
    forall f, j: nat :: IsLink(mem, tables, f, j) ==>
      OldEntry(m0, t0, f, j, mem[f][j]) || (Bit(mem[f][j], 1) && (user ==> Bit(mem[f][j], 2)))
  }

  lemma NewLinksNone(mem: Memory, tables: map<nat, Node>, user: bool)
    ensures NewLinksOpen(mem, tables, mem, tables, user)
  {
  }

  lemma NewLinksAdd(mem: Memory, tables: map<nat, Node>, f: nat, j: nat, c: nat, e: u64, user: bool)
    requires f in tables && f in mem && j < |mem[f]| && c !in tables && c != f
    requires Bit(e, 1) && (user ==> Bit(e, 2))
    ensures NewLinksOpen(mem, tables, AddTable(mem, f, j, c, e), tables[c := Child(tables[f], j)], user)
  {
    hide Bit;
  }

  lemma NewLinksTwice(m0: Memory, t0: map<nat, Node>, m1: Memory, t1: map<nat, Node>, m2: Memory, t2: map<nat, Node>,
                      user: bool)
    requires NewLinksOpen(m0, t0, m1, t1, user) && NewLinksOpen(m1, t1, m2, t2, user)
    requires forall f :: f in t1 ==> f in t2 && t2[f] == t1[f]
    ensures NewLinksOpen(m0, t0, m2, t2, user)
  {
    hide Bit, Present;
    forall f, j: nat | IsLink(m2, t2, f, j)
      ensures OldEntry(m0, t0, f, j, m2[f][j]) || (Bit(m2[f][j], 1) && (user ==> Bit(m2[f][j], 2)))
    {
      if OldEntry(m1, t1, f, j, m2[f][j]) {
        assert IsLink(m1, t1, f, j);
      }
    }
  }

  /** Writes that leave no new link: to a last table, or of an absent entry. */
  lemma NewLinksWrite(mem: Memory, tables: map<nat, Node>, f: nat, j: nat, e: u64, user: bool)
    requires f in tables && f in mem && j < |mem[f]| && (|tables[f].path| == 3 || !Present(e))
    ensures NewLinksOpen(mem, tables, WriteEntry(mem, f, j, e), tables, user)
  {
    hide Bit;
  }

  /** Nor does a write outside the tables. */
  lemma NewLinksData(mem: Memory, tables: map<nat, Node>, c: nat, data: seq<u64>, user: bool)
    requires c !in tables
    ensures NewLinksOpen(mem, tables, mem[c := data], tables, user)
  {
    hide Bit;
  }

  // ---------- what a walk allows ----------

  /** The entry lies below the lower half of the root. */
  predicate IsLower(n: Node, j: nat) {
    if n.path == [] then j < LOWER_ENTRIES else n.path[0] < LOWER_ENTRIES
  }

  /** All links of the lower half can be written through by user code. */
  ghost predicate Open(mem: Memory, tables: map<nat, Node>) {
    forall f, j: nat :: IsLink(mem, tables, f, j) && IsLower(tables[f], j) ==> Bit(mem[f][j], 1) && Bit(mem[f][j], 2)
  }

  lemma OpenStays(m0: Memory, t0: map<nat, Node>, mem: Memory, tables: map<nat, Node>)
    requires Open(m0, t0) && NewLinksOpen(m0, t0, mem, tables, true)
    requires forall f :: f in t0 ==> f in tables && tables[f] == t0[f]
    ensures Open(mem, tables)
  {
    hide Bit, Present;
    forall f, j: nat | IsLink(mem, tables, f, j) && IsLower(tables[f], j)
      ensures Bit(mem[f][j], 1) && Bit(mem[f][j], 2)
    {
      if OldEntry(m0, t0, f, j, mem[f][j]) {
        assert IsLink(m0, t0, f, j);
      }
    }
  }

  /** The processor allows an access: `bit` is set in every entry of the walk. */
  ghost predicate Allows(mem: Memory, table: nat, rest: seq<nat>, bit: nat)
    decreases |rest|
  {
    rest != [] && table in mem && rest[0] < |mem[table]| &&
    var e := mem[table][rest[0]];
    Present(e) && Bit(e, bit)
    && (|rest| == 1 || (|rest| < 4 && Huge(e)) || Allows(mem, FrameOf(e), rest[1..], bit))
  }

  /** With open links the bits of the last entry decide what a 4 KiB page of the lower half allows. */
  lemma {:induction false} LastEntryDecides(mem: Memory, tables: map<nat, Node>, f: nat, rest: seq<nat>, bit: nat)
    requires Forest(mem, tables) && Open(mem, tables) && f in tables && Completes(tables[f], rest)
    requires IsLower(tables[f], rest[0]) && (bit == WRITE_BIT || bit == USER_BIT) && Walk(mem, f, rest).Page4K?
    ensures Allows(mem, f, rest, bit) <==> Bit(Walk(mem, f, rest).bits, bit)
    decreases |rest|
  {
    hide Bit, Present, Huge, FrameOf;
    assert TableOk(mem, tables, f) && LinkOk(mem, tables, f, rest[0]);
    var e := mem[f][rest[0]];
    if |rest| == 1 {
      LowBitsKept(e, bit);
    } else {
      assert IsLink(mem, tables, f, rest[0]);
      LastEntryDecides(mem, tables, FrameOf(e), rest[1..], bit);
    }
  }

  lemma LowBitsKept(e: u64, bit: nat)
    requires bit < 12
    ensures Bit(e % PAGE_SIZE, bit) == Bit(e, bit)
  {
    hide Bit;
    EntryBit(FrameOf(e), e % PAGE_SIZE, bit);
  }

  /** A page of the lower half that is mapped for user code and for writing can be used so. */
  lemma PageAllows(mem: Memory, tables: map<nat, Node>, root: nat, p: nat, bit: nat)
    requires Forest(mem, tables) && Open(mem, tables) && IsRoot(tables, root) && p < LOWER_PAGES
    requires bit == WRITE_BIT || bit == USER_BIT
    requires p in Flat(mem, root) && Flat(mem, root)[p].Page4K?
    ensures Allows(mem, root, Indices(p), bit) <==> Bit(Flat(mem, root)[p].bits, bit)
  {
    hide Forest, Open, Walk, Allows, Bit;
    assert p / 0x800_0000 < LOWER_ENTRIES;
    LastEntryDecides(mem, tables, root, Indices(p), bit);
  }
}
