/**
 The virtual memory manager (kernel/src/memory/vmm.c): mapping, unmapping and
 looking up 4 KiB pages in the current address space, with table frames taken
 from the physical memory manager.
 */
module VirtualMemory {
  import opened Bytes
  import opened Bitmaps
  import opened PhysicalMemory
  import opened PageTables
  import opened PageRights

  const NO_EXECUTE_BIT: nat := 0x8000_0000_0000_0000

  /** VMM_FLAG_* bit positions. */
  const WRITABLE: nat := 1
  const USER: nat := 2
  const WRITETHROUGH: nat := 3
  const NOCACHE: nat := 4
  const GLOBAL: nat := 8
  const NO_EXECUTE: nat := 9
  const HUGE: nat := 10

  function Flag(on: bool, value: nat): nat { if on then value else 0 }

  /** The hardware flags below bit 12 for a set of VMM flags. */
  function LowFlags(flags: u64): (f: nat)
    ensures f < 512 && f % 2 == 1
  {
    1 + Flag(Bit(flags, WRITABLE), 2) + Flag(Bit(flags, USER), 4) + Flag(Bit(flags, WRITETHROUGH), 8)
    + Flag(Bit(flags, NOCACHE), 16) + Flag(Bit(flags, HUGE), 128) + Flag(Bit(flags, GLOBAL), 256)
  }

  /** `a | PAGE_NO_EXECUTE` */
  function OrNoExecute(a: u64): (r: u64)
    ensures r >= 0x8000_0000_0000_0000 && r % 0x8000_0000_0000_0000 == a % 0x8000_0000_0000_0000
  {
    if a < NO_EXECUTE_BIT then a + NO_EXECUTE_BIT else a
  }

  predicate SetsNoExecute(flags: u64, usingNx: bool) {
    Bit(flags, NO_EXECUTE) && usingNx
  }

  /** The frame the walk reads back: bit 63 stays in the address when no-execute is set. */
  function MappedFrame(frame: u64, flags: u64, usingNx: bool): (f: u64)
    requires frame % PAGE_SIZE == 0
    ensures f % PAGE_SIZE == 0 && f % 0x8000_0000_0000_0000 == frame % 0x8000_0000_0000_0000
    ensures f >= 0x8000_0000_0000_0000 <==> frame >= 0x8000_0000_0000_0000 || (Bit(flags, 9) && usingNx)
  {
    if SetsNoExecute(flags, usingNx) then OrNoExecute(frame) else frame
  }

  /** `phys_addr | hw_flags` for a page-aligned address. */
  function LeafEntry(frame: u64, flags: u64, usingNx: bool): (e: u64)
    requires frame % PAGE_SIZE == 0
    ensures Leaf(e) == PageFor(frame, flags, usingNx) && Present(e)
  {
    FrameAndFlags(MappedFrame(frame, flags, usingNx), LowFlags(flags));
    MappedFrame(frame, flags, usingNx) + LowFlags(flags)
  }

  /** What the walk reads back for a page mapped with `flags`. */
  function PageFor(frame: u64, flags: u64, usingNx: bool): (t: Translation)
    requires frame % PAGE_SIZE == 0
    ensures t.Page4K?
  {
    Page4K(MappedFrame(frame, flags, usingNx), LowFlags(flags))
  }

  /** A 4 KiB page carries the hardware bits that the VMM flags ask for, and no others. */
  predicate Carries(t: Translation, flags: u64, usingNx: bool) {
    && t.Page4K? && t.bits < 512 && Bit(t.bits, 0) && !Bit(t.bits, 5) && !Bit(t.bits, 6)
    && (Bit(t.bits, 1) <==> Bit(flags, 1)) && (Bit(t.bits, 2) <==> Bit(flags, 2))
    && (Bit(t.bits, 3) <==> Bit(flags, 3)) && (Bit(t.bits, 4) <==> Bit(flags, 4))
    && (Bit(t.bits, 7) <==> Bit(flags, 10)) && (Bit(t.bits, 8) <==> Bit(flags, 8))
    && (Bit(flags, 9) && usingNx ==> t.frame >= 0x8000_0000_0000_0000)
  }

  lemma PageCarries(frame: u64, flags: u64, usingNx: bool)
    requires frame % PAGE_SIZE == 0
    ensures Carries(PageFor(frame, flags, usingNx), flags, usingNx)
  {
    hide Bit;
    var g := Flag(Bit(flags, GLOBAL), 1);
    var h := 2 * g + Flag(Bit(flags, HUGE), 1);
    var c := 8 * h + Flag(Bit(flags, NOCACHE), 1);
    var w := 2 * c + Flag(Bit(flags, WRITETHROUGH), 1);
    var u := 2 * w + Flag(Bit(flags, USER), 1);
    var r := 2 * u + Flag(Bit(flags, WRITABLE), 1);
    assert LowFlags(flags) == 2 * r + 1;
    PushBit(2 * r + 1, r, 1);
    PushBit(r, u, Flag(Bit(flags, WRITABLE), 1));
    PushBit(u, w, Flag(Bit(flags, USER), 1));
    PushBit(w, c, Flag(Bit(flags, WRITETHROUGH), 1));
    PushBit(c, 4 * h, Flag(Bit(flags, NOCACHE), 1));
    PushBit(4 * h, 2 * h, 0);
    PushBit(2 * h, h, 0);
    PushBit(h, g, Flag(Bit(flags, HUGE), 1));
    PushBit(g, 0, g);
  }

  /** `pdpt_phys | PAGE_PRESENT | PAGE_WRITABLE`, with PAGE_USER below 2^63. */
  function TableEntry(frame: u64, virt: u64): (e: u64)
    requires frame % PAGE_SIZE == 0
    ensures Present(e) && !Huge(e) && FrameOf(e) == frame
    ensures Bit(e, 1) && (Bit(e, 2) <==> virt < 0x8000_0000_0000_0000)
  {
    var low := if virt < NO_EXECUTE_BIT then 7 else 3;
    EntryBit(frame, low, 1);
    EntryBit(frame, low, 2);
    FrameAndFlags(frame, low);
    frame + low
  }

  /** A page-aligned address and flags below bit 12 do not overlap in an entry. */
  lemma FrameAndFlags(frame: u64, low: nat)
    requires frame % PAGE_SIZE == 0 && low < PAGE_SIZE
    ensures frame + low < 0x1_0000_0000_0000_0000
    ensures FrameOf(frame + low) == frame && (frame + low) % PAGE_SIZE == low
    ensures Present(frame + low) == (low % 2 == 1)
    ensures Huge(frame + low) == (low / 128 % 2 == 1)
  {
    var k := frame / PAGE_SIZE;
    ModOfSum(k, PAGE_SIZE, low);
    LowBits(k, low);
  }

  lemma LowBits(k: nat, low: nat)
    ensures (PAGE_SIZE * k + low) % 2 == low % 2
    ensures (PAGE_SIZE * k + low) / 128 % 2 == low / 128 % 2
  {
    var l := low / 128;
    ModOfSum(32 * k + l, 128, low % 128);
    ModOfSum(16 * k + l / 2, 2, l % 2);
    ModOfSum(2048 * k + low / 2, 2, low % 2);
  }

  datatype Region = Region(base: u64, size: u64, flags: u32, isUsed: bool)

  /** A frame of the window is marked used. */
  ghost predicate Held(start: nat, used: seq<bool>, f: nat) {
    InWindow(start, |used|, f) ==> used[PageIndex(start, f)]
  }

  ghost predicate AllHeld(start: nat, used: seq<bool>, frames: set<nat>) {
    forall f :: f in frames ==> Held(start, used, f)
  }

  /** Every frame of the window is backed by memory of table size. */
  ghost predicate Backed(start: nat, pages: nat, mem: Memory) {
    forall f: nat :: InWindow(start, pages, f) ==> f in mem && |mem[f]| == ENTRIES
  }

  /** Exactly the pages of `added` went from free to used. */
  ghost predicate Took(start: nat, used: seq<bool>, used': seq<bool>, added: set<nat>) {
    && |used'| == |used|
    && (forall i: nat :: i < |used| ==> used'[i] == (used[i] || start + i * PAGE_SIZE in added))
    && (forall f :: f in added ==> InWindow(start, |used|, f) && !used[PageIndex(start, f)])
  }

  /** Free pages become used one by one. */
  lemma {:induction false} TookCount(start: nat, used: seq<bool>, used': seq<bool>, added: set<nat>)
    requires Took(start, used, used', added) && start % PAGE_SIZE == 0
    ensures Count(used, false) == Count(used', false) + |added|
    decreases |added|
  {
    hide Count, Took;
    if added == {} {
      TookNone(start, used, used');
    } else {
      var f :| f in added;
      var i := TookFirst(start, used, used', added, f);
      CountOne(used, i);
      TookCount(start, used[i := true], used', added - {f});
    }
  }

  lemma TookNone(start: nat, used: seq<bool>, used': seq<bool>)
    requires Took(start, used, used', {})
    ensures used' == used
  {
  }

  lemma TookFirst(start: nat, used: seq<bool>, used': seq<bool>, added: set<nat>, f: nat) returns (i: nat)
    requires Took(start, used, used', added) && f in added && start % PAGE_SIZE == 0
    ensures i < |used| && !used[i] && Took(start, used[i := true], used', added - {f})
  {
    i := PageIndex(start, f);
    assert f == start + i * PAGE_SIZE;
    var rest := added - {f};
    forall g | g in rest ensures InWindow(start, |used|, g) && !used[i := true][PageIndex(start, g)] {
      assert g == start + PageIndex(start, g) * PAGE_SIZE;
    }
    forall k: nat | k < |used| ensures used'[k] == (used[i := true][k] || start + k * PAGE_SIZE in rest) {
      assert k != i ==> start + k * PAGE_SIZE != f;
    }
  }

  /** The tables that were added. */
  ghost function Added(t0: map<nat, Node>, tables: map<nat, Node>): nat {
    |tables.Keys - t0.Keys|
  }

  lemma AddedTwice(t0: map<nat, Node>, t1: map<nat, Node>, t2: map<nat, Node>)
    requires t0.Keys <= t1.Keys <= t2.Keys
    ensures Added(t0, t2) == Added(t0, t1) + Added(t1, t2)
  {
    SizesAdd(t0.Keys, t1.Keys, t2.Keys);
  }

  lemma AddedNone(tables: map<nat, Node>)
    ensures Added(tables, tables) == 0
  {
    assert tables.Keys - tables.Keys == {};
  }

  lemma SizesAdd(a: set<nat>, b: set<nat>, c: set<nat>)
    requires a <= b <= c
    ensures |c - a| == |b - a| + |c - b|
  {
    assert c - a == (b - a) + (c - b);
  }

  lemma GrewAdded(start: nat, used: seq<bool>, mem: Memory, tables: map<nat, Node>, used': seq<bool>, mem': Memory,
                  tables': map<nat, Node>)
    requires Grew(start, used, mem, tables, used', mem', tables') && start % PAGE_SIZE == 0
    ensures Count(used, false) == Count(used', false) + Added(tables, tables')
    ensures forall g :: g in tables ==> g in tables' && tables'[g] == tables[g]
    ensures tables.Keys <= tables'.Keys
  {
    hide Count, Took;
    TookCount(start, used, used', tables'.Keys - tables.Keys);
  }

  /** Frames that are not tables keep their contents. */
  ghost predicate DataKept(mem: Memory, mem': Memory, tables: map<nat, Node>) {
    forall f :: f in mem && f !in tables ==> f in mem' && mem'[f] == mem[f]
  }

  /** Marking the free page `c` keeps held frames held and is the only change. */
  lemma TakeOne(start: nat, used: seq<bool>, c: nat, frames: set<nat>)
    requires InWindow(start, |used|, c) && start % PAGE_SIZE == 0 && !used[PageIndex(start, c)]
    requires AllHeld(start, used, frames)
    ensures c !in frames
    ensures AllHeld(start, used[PageIndex(start, c) := true], frames + {c})
    ensures Took(start, used, used[PageIndex(start, c) := true], {c})
  {
    assert c == start + PageIndex(start, c) * PAGE_SIZE;
  }

  /** What the table at depth `d` of a route says about the missing ones. */
  lemma MissingStep(mem: Memory, tables: map<nat, Node>, root: nat, path: seq<nat>, d: nat, f: nat)
    requires IsRoot(tables, root) && |path| == 4 && d < 3 && Route(mem, tables, root, path[..d], f)
    requires f in mem && path[d] < |mem[f]|
    ensures !Present(mem[f][path[d]]) ==> Missing(mem, root, path) == 3 - d
  {
    MissingRoute(mem, tables, root, path[..d], f, path[d..]);
    assert path[..d] + path[d..] == path && path[d..][0] == path[d];
  }

  lemma NewTable(m0: Memory, t0: map<nat, Node>, mem: Memory, tables: map<nat, Node>, root: nat, path: seq<nat>,
                 d: nat, f: nat, c: nat)
    requires IsRoot(tables, root) && |path| == 4 && (forall k :: 0 <= k < 4 ==> path[k] < ENTRIES) && d < 3
    requires f in m0 && path[d] < |m0[f]| && c in tables
    requires Route(mem, tables, root, path[..d + 1], c)
    requires Present(m0[f][path[d]]) ==> mem == m0 && tables == t0
    requires !Present(m0[f][path[d]]) ==>
               && c !in t0 && tables.Keys == t0.Keys + {c} && c in mem && mem[c] == EmptyTable()
               && Missing(m0, root, path) == 3 - d
    ensures Added(t0, tables) + Missing(mem, root, path) == Missing(m0, root, path)
  {
    if Present(m0[f][path[d]]) {
      assert tables.Keys - t0.Keys == {};
    } else {
      MissingRoute(mem, tables, root, path[..d + 1], c, path[d + 1..]);
      assert path[..d + 1] + path[d + 1..] == path;
      assert tables.Keys - t0.Keys == {c};
      assert path[d + 1..][0] == path[d + 1] && !Present(mem[c][path[d + 1]]);
    }
  }

  lemma NoneMissing(mem: Memory, tables: map<nat, Node>, root: nat, path: seq<nat>, pt: nat)
    requires IsRoot(tables, root) && |path| == 4 && Route(mem, tables, root, path[..3], pt)
    ensures Missing(mem, root, path) == 0
  {
    MissingRoute(mem, tables, root, path[..3], pt, path[3..]);
    assert path[..3] + path[3..] == path;
  }

  /** The tree-plus-allocator invariant: a forest of held tables over backed memory, with root `current`. */
  ghost predicate Good(start: nat, used: seq<bool>, mem: Memory, tables: map<nat, Node>, current: nat) {
    && Forest(mem, tables)
    && IsRoot(tables, current)
    && Backed(start, |used|, mem)
    && AllHeld(start, used, tables.Keys)
  }

  /** Entries that were present in a table of the forest are unchanged. */
  ghost predicate PresentKept(mem: Memory, mem': Memory, tables: map<nat, Node>) {
    forall g, j: nat {:trigger mem[g][j]} :: g in tables && g in mem && j < |mem[g]| && Present(mem[g][j]) ==>
      g in mem' && j < |mem'[g]| && mem'[g][j] == mem[g][j]
  }

  /** Tables were only added, in frames that were free; no translation and no data changed. */
  ghost predicate Grew(start: nat, used: seq<bool>, mem: Memory, tables: map<nat, Node>,
                       used': seq<bool>, mem': Memory, tables': map<nat, Node>)
  {
    && (forall g :: g in tables ==> g in tables' && tables'[g] == tables[g])
    && PresentKept(mem, mem', tables)
    && SameWalks(mem, mem', tables)
    && Took(start, used, used', tables'.Keys - tables.Keys)
    && DataKept(mem, mem', tables')
  }

  lemma GrewNothing(start: nat, used: seq<bool>, mem: Memory, tables: map<nat, Node>)
    ensures Grew(start, used, mem, tables, used, mem, tables)
  {
  }

  lemma GrewTwice(start: nat, u0: seq<bool>, m0: Memory, t0: map<nat, Node>, u1: seq<bool>, m1: Memory,
                  t1: map<nat, Node>, u2: seq<bool>, m2: Memory, t2: map<nat, Node>)
    requires Grew(start, u0, m0, t0, u1, m1, t1) && Grew(start, u1, m1, t1, u2, m2, t2)
    ensures Grew(start, u0, m0, t0, u2, m2, t2)
  {
    hide Walk;
    assert t2.Keys - t0.Keys == (t2.Keys - t1.Keys) + (t1.Keys - t0.Keys);
    forall g, rest: seq<nat> | g in t0 && Completes(t0[g], rest) ensures Walk(m2, g, rest) == Walk(m0, g, rest) {
      assert Walk(m1, g, rest) == Walk(m0, g, rest);
    }
  }

  lemma AddGrows(start: nat, used: seq<bool>, mem: Memory, tables: map<nat, Node>, current: nat,
                 f: nat, j: nat, c: nat, e: u64)
    requires Good(start, used, mem, tables, current) && start % PAGE_SIZE == 0
    requires InWindow(start, |used|, c) && !used[PageIndex(start, c)] && c > 0 && c < 0x1_0000_0000_0000_0000
    requires f in tables && TableOk(mem, tables, f) && |tables[f].path| < 3 && j < ENTRIES && !Present(mem[f][j])
    requires Present(e) && !Huge(e) && FrameOf(e) == c
    ensures c !in tables
    ensures Good(start, used[PageIndex(start, c) := true], AddTable(mem, f, j, c, e),
                 tables[c := Child(tables[f], j)], current)
    ensures Grew(start, used, mem, tables,
                 used[PageIndex(start, c) := true], AddTable(mem, f, j, c, e), tables[c := Child(tables[f], j)])
    ensures Links(AddTable(mem, f, j, c, e), tables[c := Child(tables[f], j)], f, j, c)
  {
    hide Walk, InWindow, PageIndex, FrameOf, Present, Huge;
    TakeOne(start, used, c, tables.Keys);
    AddKeepsForest(mem, tables, f, j, c, e);
    var tables' := tables[c := Child(tables[f], j)];
    assert tables'.Keys == tables.Keys + {c} && tables'.Keys - tables.Keys == {c};
    assert TableOk(AddTable(mem, f, j, c, e), tables', f);
  }

  /** What growing and entry writes both keep: old tables stay, new ones were free frames, data is untouched. */
  ghost predicate GrewTables(start: nat, used: seq<bool>, mem: Memory, tables: map<nat, Node>,
                             used': seq<bool>, mem': Memory, tables': map<nat, Node>)
  {
    && (forall g :: g in tables ==> g in tables' && tables'[g] == tables[g])
    && Took(start, used, used', tables'.Keys - tables.Keys)
    && DataKept(mem, mem', tables')
  }

  /** Address spaces other than `current` keep the translations of their lower half. */
  ghost predicate OtherSpacesKept(mem: Memory, mem': Memory, tables: map<nat, Node>, current: nat) {
    forall r, q: nat :: IsRoot(tables, r) && r != current && q < LOWER_PAGES ==>
      Walk(mem', r, Indices(q)) == Walk(mem, r, Indices(q))
  }

  lemma GrewIsGrewTables(start: nat, u: seq<bool>, m: Memory, t: map<nat, Node>, u': seq<bool>, m': Memory,
                         t': map<nat, Node>, current: nat)
    requires Grew(start, u, m, t, u', m', t')
    ensures GrewTables(start, u, m, t, u', m', t')
    ensures OtherSpacesKept(m, m', t, current)
  {
    hide Walk, Indices;
    forall r, q: nat | IsRoot(t, r) && r != current && q < LOWER_PAGES
      ensures Walk(m', r, Indices(q)) == Walk(m, r, Indices(q))
    {
      assert Completes(t[r], Indices(q));
    }
  }

  lemma GrewThenWrote(start: nat, u: seq<bool>, m: Memory, t: map<nat, Node>, u': seq<bool>, m': Memory,
                      t': map<nat, Node>, m'': Memory, current: nat)
    requires GrewTables(start, u, m, t, u', m', t') && DataKept(m', m'', t')
    requires OtherSpacesKept(m, m', t, current) && OtherSpacesKept(m', m'', t', current)
    ensures GrewTables(start, u, m, t, u', m'', t')
    ensures OtherSpacesKept(m, m'', t, current)
  {
    hide Walk, Indices;
    forall r, q: nat | IsRoot(t, r) && r != current && q < LOWER_PAGES
      ensures Walk(m'', r, Indices(q)) == Walk(m, r, Indices(q))
    {
      assert IsRoot(t', r);
      assert Walk(m', r, Indices(q)) == Walk(m, r, Indices(q));
    }
  }

  /** The pages whose walk reads the entry at depth `d` of the route of page `p`. */
  ghost function PagesBelow(p: nat, d: nat): set<nat>
    requires d <= 4
  {
    set q: nat | q < PAGES && SamePrefix(p, q, d)
  }

  /** Writing an entry on the route of page `p` keeps the invariant and changes only the pages below it. */
  lemma WriteGood(start: nat, used: seq<bool>, mem: Memory, tables: map<nat, Node>, current: nat,
                  p: nat, d: nat, f: nat, e: u64)
    requires Good(start, used, mem, tables, current) && p < PAGES && 2 <= d <= 4
    requires Route(mem, tables, current, Indices(p)[..d - 1], f) && (d == 4 || e == 0)
    ensures f in mem && |mem[f]| == ENTRIES && Indices(p)[d - 1] < ENTRIES
    ensures Good(start, used, WriteEntry(mem, f, Indices(p)[d - 1], e), tables, current)
    ensures Present(e) ==> Flat(WriteEntry(mem, f, Indices(p)[d - 1], e), current) == Flat(mem, current)[p := Leaf(e)]
    ensures !Present(e) ==>
              Flat(WriteEntry(mem, f, Indices(p)[d - 1], e), current) == Flat(mem, current) - PagesBelow(p, d)
    ensures OtherSpacesKept(mem, WriteEntry(mem, f, Indices(p)[d - 1], e), tables, current)
    ensures DataKept(mem, WriteEntry(mem, f, Indices(p)[d - 1], e), tables)
  {
    hide Walk, Indices, Forest, SamePrefix;
    RouteWrite(mem, tables, current, p, d, f, e);
    var mem' := WriteEntry(mem, f, Indices(p)[d - 1], e);
    assert Rewrites(mem, mem', tables, current, p, d, Leaf(e));
    assert Backed(start, |used|, mem');
    if Present(e) {
      forall q: nat | q < PAGES ensures SamePrefix(p, q, d) <==> q == p { SamePrefixFour(p, q); }
    }
  }

  /** Writing the entry of a page in its last table: no link and no table comes or goes. */
  lemma WriteLeaf(start: nat, used: seq<bool>, mem: Memory, tables: map<nat, Node>, current: nat, path: seq<nat>,
                  pt: nat, e: u64, user: bool)
    requires Good(start, used, mem, tables, current)
    requires |path| == 4 && (forall k :: 0 <= k < 4 ==> path[k] < ENTRIES) && Route(mem, tables, current, path[..3], pt)
    ensures pt in mem && |mem[pt]| == ENTRIES
    ensures var mem' := WriteEntry(mem, pt, path[3], e);
            && Missing(mem', current, path) == Missing(mem, current, path)
            && NewLinksOpen(mem, tables, mem', tables, user)
  {
    hide Missing, NewLinksOpen, Walk, Present, Route;
    CurrentIsRoot(start, used, mem, tables, current);
    WalkRoute(mem, tables, current, path[..3], pt, path[3..]);
    GoodTable(start, used, mem, tables, current, pt);
    var mem' := WriteEntry(mem, pt, path[3], e);
    forall f | f in tables && |tables[f].path| < 3 ensures f in mem' && f in mem && mem'[f] == mem[f] {
      GoodTable(start, used, mem, tables, current, f);
    }
    MissingKept(mem, mem', tables, current, path);
    NewLinksWrite(mem, tables, pt, path[3], e, user);
  }

  /** Clearing an entry keeps the links open. */
  lemma ClearOpen(mem: Memory, tables: map<nat, Node>, f: nat, j: nat)
    requires f in tables && f in mem && j < |mem[f]| && Open(mem, tables)
    ensures Open(WriteEntry(mem, f, j, 0), tables)
  {
    hide Open, NewLinksOpen;
    NotPresentZero();
    NewLinksWrite(mem, tables, f, j, 0, true);
    OpenStays(mem, tables, WriteEntry(mem, f, j, 0), tables);
  }

  lemma CurrentIsRoot(start: nat, used: seq<bool>, mem: Memory, tables: map<nat, Node>, current: nat)
    requires Good(start, used, mem, tables, current)
    ensures IsRoot(tables, current) && TableOk(mem, tables, current)
  {
  }

  lemma GoodLink(start: nat, used: seq<bool>, mem: Memory, tables: map<nat, Node>, current: nat, f: nat, j: nat)
    requires Good(start, used, mem, tables, current)
    requires f in tables && TableOk(mem, tables, f) && |tables[f].path| < 3 && j < ENTRIES
    requires Present(mem[f][j]) && (tables[f].path != [] ==> !Huge(mem[f][j]))
    ensures Links(mem, tables, f, j, FrameOf(mem[f][j])) && FrameOf(mem[f][j]) != 0
    ensures TableOk(mem, tables, FrameOf(mem[f][j]))
  {
    hide Present, Huge, FrameOf;
    assert LinkOk(mem, tables, f, j);
    assert TableOk(mem, tables, FrameOf(mem[f][j]));
  }

  /** A route survives growth. */
  lemma {:induction false} RouteGrew(start: nat, u: seq<bool>, m: Memory, t: map<nat, Node>, u': seq<bool>,
                                     m': Memory, t': map<nat, Node>, current: nat, g: nat, prefix: seq<nat>, f: nat)
    requires Grew(start, u, m, t, u', m', t') && Good(start, u', m', t', current)
    requires Route(m, t, g, prefix, f)
    ensures Route(m', t', g, prefix, f)
    decreases |prefix|
  {
    hide Present, Huge, FrameOf, SameWalks, Took, DataKept;
    if prefix != [] {
      var c :| Links(m, t, g, prefix[0], c) && Route(m, t, c, prefix[1..], f);
      assert m'[g][prefix[0]] == m[g][prefix[0]];
      assert TableOk(m', t', g);
      assert Links(m', t', g, prefix[0], c);
      RouteGrew(start, u, m, t, u', m', t', current, c, prefix[1..], f);
    }
  }

  /** On the route of a page that is not in a large page, a present entry leads to a table. */
  lemma RouteNotLarge(start: nat, used: seq<bool>, mem: Memory, tables: map<nat, Node>, current: nat,
                      path: seq<nat>, d: nat, f: nat)
    requires Good(start, used, mem, tables, current)
    requires |path| == 4 && (forall k :: 0 <= k < 4 ==> path[k] < ENTRIES) && d < 3
    requires Route(mem, tables, current, path[..d], f) && !Walk(mem, current, path).Large?
    ensures f in tables && TableOk(mem, tables, f) && tables[f].path == path[..d]
    ensures Present(mem[f][path[d]]) && d > 0 ==> !Huge(mem[f][path[d]])
  {
    hide Present, Huge, FrameOf;
    WalkRoute(mem, tables, current, path[..d], f, path[d..]);
    assert path[..d] + path[d..] == path;
    assert TableOk(mem, tables, f);
  }

  lemma GrewKeepsWalk(start: nat, u: seq<bool>, m: Memory, t: map<nat, Node>, u': seq<bool>, m': Memory,
                      t': map<nat, Node>, r: nat, path: seq<nat>)
    requires Grew(start, u, m, t, u', m', t') && IsRoot(t, r)
    requires |path| == 4 && (forall k :: 0 <= k < 4 ==> path[k] < ENTRIES)
    ensures Walk(m', r, path) == Walk(m, r, path)
  {
    assert Completes(t[r], path);
  }

  /** Entry `e`, read at depth `depth`, ends a walk with result `t`. */
  ghost predicate EndsAt(e: u64, depth: nat, rest: seq<nat>, t: Translation) {
    && Present(e) && (depth == 4 || Huge(e))
    && t == if depth == 4 then Page4K(FrameOf(e), e % PAGE_SIZE)
    else Large(Wrap64(FrameOf(e) + PAGE_SIZE * OffsetIn(rest)))
  }

  /** What one table on the route of a path says about the walk of that path. */
  lemma RouteStep(start: nat, used: seq<bool>, mem: Memory, tables: map<nat, Node>, current: nat,
                  path: seq<nat>, d: nat, f: nat)
    requires Good(start, used, mem, tables, current)
    requires |path| == 4 && (forall k :: 0 <= k < 4 ==> path[k] < ENTRIES) && d < 4
    requires Route(mem, tables, current, path[..d], f)
    ensures f in mem && |mem[f]| == ENTRIES
    ensures !Present(mem[f][path[d]]) ==> Walk(mem, current, path) == Unmapped
    ensures Present(mem[f][path[d]]) && (d == 3 || (d > 0 && Huge(mem[f][path[d]]))) ==>
              EndsAt(mem[f][path[d]], d + 1, path[d + 1..], Walk(mem, current, path))
    ensures Present(mem[f][path[d]]) && d < 3 && !(d > 0 && Huge(mem[f][path[d]])) ==>
              Route(mem, tables, current, path[..d + 1], FrameOf(mem[f][path[d]]))
  {
    hide Present, Huge, FrameOf, Forest, OffsetIn;
    CurrentIsRoot(start, used, mem, tables, current);
    WalkRoute(mem, tables, current, path[..d], f, path[d..]);
    GoodTable(start, used, mem, tables, current, f);
    assert path[..d] + path[d..] == path && path[d..][0] == path[d] && path[d..][1..] == path[d + 1..];
    if Present(mem[f][path[d]]) && d < 3 && !(d > 0 && Huge(mem[f][path[d]])) {
      GoodLink(start, used, mem, tables, current, f, path[d]);
      RouteExtend(mem, tables, current, path[..d], f, path[d], FrameOf(mem[f][path[d]]));
      assert path[..d] + [path[d]] == path[..d + 1];
    }
  }

  lemma GoodTable(start: nat, used: seq<bool>, mem: Memory, tables: map<nat, Node>, current: nat, f: nat)
    requires Good(start, used, mem, tables, current) && f in tables
    ensures TableOk(mem, tables, f)
  {
  }

  /** Translation of an address through a flat view: frame plus offset, 0 when unmapped. */
  ghost function PhysOf(view: map<nat, Translation>, addr: nat): nat {
    if PageOf(addr) !in view || view[PageOf(addr)] == Unmapped then 0
    else view[PageOf(addr)].frame + addr % PAGE_SIZE
  }

  /** The offset of an address in a page of any size is the frame offset plus the offset in the frame. */
  lemma LargeOffset(frame: u64, addr: u64)
    requires frame % PAGE_SIZE == 0
    ensures Wrap64(frame + addr % 0x1000) == frame + addr % 0x1000
    ensures Wrap64(frame + addr % 0x20_0000) ==
            Wrap64(frame + PAGE_SIZE * OffsetIn(PathOf(addr)[3..])) + addr % PAGE_SIZE
    ensures Wrap64(frame + addr % 0x4000_0000) ==
            Wrap64(frame + PAGE_SIZE * OffsetIn(PathOf(addr)[2..])) + addr % PAGE_SIZE
  {
    hide Wrap64, OffsetIn, PathOf;
    OffsetInPath(addr);
    AlignedWrap(frame, OffsetIn(PathOf(addr)[3..]), addr % 0x1000);
    AlignedWrap(frame, OffsetIn(PathOf(addr)[2..]), addr % 0x1000);
    AlignedWrap(frame, 0, addr % 0x1000);
    SmallSum(frame);
  }

  lemma SmallSum(frame: u64)
    ensures Wrap64(frame) == frame
  {
  }

  lemma OffsetInPath(addr: nat)
    ensures addr % 0x20_0000 == 0x1000 * OffsetIn(PathOf(addr)[3..]) + addr % 0x1000
    ensures addr % 0x4000_0000 == 0x1000 * OffsetIn(PathOf(addr)[2..]) + addr % 0x1000
  {
    var n := addr / 0x1000;
    OffsetParts(addr);
    assert PathOf(addr)[3..] == [n % 512];
    assert OffsetIn(PathOf(addr)[3..]) == n % 512;
    assert PathOf(addr)[2..] == [addr / 0x20_0000 % 512, n % 512];
    assert PathOf(addr)[2..][..1] == [addr / 0x20_0000 % 512];
    assert OffsetIn(PathOf(addr)[2..][..1]) == addr / 0x20_0000 % 512;
  }

  /** The offset in a large page is made of the lower table indices and the offset in the frame. */
  lemma OffsetParts(addr: nat)
    ensures addr % 0x20_0000 == 0x1000 * (addr / 0x1000 % 512) + addr % 0x1000
    ensures addr % 0x4000_0000 == 0x1000 * (addr / 0x20_0000 % 512 * 512 + addr / 0x1000 % 512) + addr % 0x1000
  {
    SplitMod(addr, 0x1000, 512);
    SplitMod(addr, 0x20_0000, 512);
  }

  lemma AlignedWrap(frame: u64, k: nat, off: nat)
    requires frame % PAGE_SIZE == 0 && off < PAGE_SIZE
    ensures Wrap64(frame + PAGE_SIZE * k + off) == Wrap64(frame + PAGE_SIZE * k) + off
  {
    var z := frame / PAGE_SIZE + k;
    var q, r := z / 0x10_0000_0000_0000, z % 0x10_0000_0000_0000;
    assert frame + PAGE_SIZE * k == PAGE_SIZE * z == q * 0x1_0000_0000_0000_0000 + PAGE_SIZE * r;
    ModOfSum(q, 0x1_0000_0000_0000_0000, PAGE_SIZE * r);
    ModOfSum(q, 0x1_0000_0000_0000_0000, PAGE_SIZE * r + off);
  }

  lemma NotPresentZero()
    ensures !Present(0)
  {
  }

  lemma SpacesKeptRefl(mem: Memory, tables: map<nat, Node>, current: nat)
    ensures OtherSpacesKept(mem, mem, tables, current)
  {
  }

  /** No large page covers the page of `addr`. */
  ghost predicate NotLarge(view: map<nat, Translation>, addr: nat) {
    PageOf(addr) in view ==> view[PageOf(addr)].Page4K?
  }

  lemma NotLargeWalk(mem: Memory, root: nat, addr: nat)
    requires NotLarge(Flat(mem, root), addr)
    ensures !Walk(mem, root, PathOf(addr)).Large?
  {
    hide Walk, PathOf, Indices;
    PathOfPage(addr);
  }

  /** Growth composes, with or without entry writes in between. */
  lemma GrewTablesTwice(start: nat, u0: seq<bool>, m0: Memory, t0: map<nat, Node>, u1: seq<bool>, m1: Memory,
                        t1: map<nat, Node>, u2: seq<bool>, m2: Memory, t2: map<nat, Node>, current: nat)
    requires GrewTables(start, u0, m0, t0, u1, m1, t1) && GrewTables(start, u1, m1, t1, u2, m2, t2)
    requires OtherSpacesKept(m0, m1, t0, current) && OtherSpacesKept(m1, m2, t1, current)
    ensures GrewTables(start, u0, m0, t0, u2, m2, t2)
    ensures OtherSpacesKept(m0, m2, t0, current)
  {
    hide Walk, Indices;
    assert t2.Keys - t0.Keys == (t2.Keys - t1.Keys) + (t1.Keys - t0.Keys);
    forall r, q: nat | IsRoot(t0, r) && r != current && q < LOWER_PAGES
      ensures Walk(m2, r, Indices(q)) == Walk(m0, r, Indices(q))
    {
      assert IsRoot(t1, r);
      assert Walk(m1, r, Indices(q)) == Walk(m0, r, Indices(q));
    }
  }

  lemma GrewTablesNothing(start: nat, used: seq<bool>, mem: Memory, tables: map<nat, Node>, current: nat)
    ensures GrewTables(start, used, mem, tables, used, mem, tables)
    ensures OtherSpacesKept(mem, mem, tables, current)
  {
  }

  lemma OnlyWrote(start: nat, used: seq<bool>, mem: Memory, mem': Memory, tables: map<nat, Node>)
    requires DataKept(mem, mem', tables)
    ensures GrewTables(start, used, mem, tables, used, mem', tables)
  {
  }

  lemma PagesBelowFour(p: nat)
    requires p < PAGES
    ensures PagesBelow(p, 4) == {p}
  {
    hide SamePrefix;
    forall q: nat | q < PAGES ensures SamePrefix(p, q, 4) <==> q == p { SamePrefixFour(p, q); }
  }

  lemma RouteToSelf(mem: Memory, tables: map<nat, Node>, f: nat, path: seq<nat>)
    requires |path| == 4
    ensures Route(mem, tables, f, path[..0], f)
  {
  }

  /** Growing keeps what the walk of every page from a root finds. */
  lemma GrewKeepsPages(start: nat, u: seq<bool>, m: Memory, t: map<nat, Node>, u': seq<bool>, m': Memory,
                       t': map<nat, Node>, r: nat)
    requires Grew(start, u, m, t, u', m', t') && IsRoot(t, r)
    ensures forall p: nat :: p < PAGES ==> Walk(m', r, Indices(p)) == Walk(m, r, Indices(p))
    ensures Flat(m', r) == Flat(m, r)
  {
    hide Walk, Indices;
    forall p: nat | p < PAGES ensures Walk(m', r, Indices(p)) == Walk(m, r, Indices(p)) {
      assert Completes(t[r], Indices(p));
    }
  }

  class Vmm {
    const pmm: Pmm
    const hhdm: u64
    const usingNx: bool
    var mem: Memory
    var current: u64
    var userAreas: seq<Region>
    var kernelAreas: seq<Region>
    ghost var tables: map<nat, Node>

    ghost predicate Valid()
      reads this, pmm, pmm.bitmap
    {
      pmm.Valid() && Good(pmm.start, pmm.Used(), mem, tables, current)
    }

    ghost function View(): map<nat, Translation>
      reads this
    {
      Flat(mem, current)
    }

    /** Takes over the tables that the boot loader left in CR3. */
    constructor (pmm: Pmm, hhdm: u64, usingNx: bool, mem: Memory, cr3: u64, ghost tables: map<nat, Node>)
      requires pmm.Valid() && Good(pmm.start, pmm.Used(), mem, tables, cr3)
      ensures Valid() && this.pmm == pmm && this.hhdm == hhdm && this.usingNx == usingNx
      ensures this.mem == mem && this.tables == tables && current == cr3
      ensures userAreas == [Region(0x40_0000, 0x1000_0000, 7, false)]
      ensures kernelAreas == [Region(Wrap64(hhdm + 0x1000_0000), 0x1000_0000, 3, false)]
    {
      this.pmm, this.hhdm, this.usingNx := pmm, hhdm, usingNx;
      this.mem, this.current, this.tables := mem, cr3, tables;
      userAreas := [Region(0x40_0000, 0x1000_0000, 7, false)];
      kernelAreas := [Region(Wrap64(hhdm + 0x1000_0000), 0x1000_0000, 3, false)];
    }

    /** Entry `j` of table `f`, with a new zeroed table behind it if it was absent; 0 when out of memory. */
    method EnsureTable(f: nat, j: nat, virt: u64) returns (child: nat)
      requires Valid()
      requires f in tables && TableOk(mem, tables, f) && |tables[f].path| < 3 && j < ENTRIES
      requires Present(mem[f][j]) && tables[f].path != [] ==> !Huge(mem[f][j])
      modifies this`mem, this`tables, pmm`totalAllocations, pmm`failedAllocations, pmm.bitmap
      ensures Valid()
      ensures child == 0 ==> forall i: nat :: !FreeRun(pmm.Used(), i, 1)
      ensures child != 0 ==> Links(mem, tables, f, j, child) && child in tables
      ensures old(Present(mem[f][j])) ==> child != 0 && mem == old(mem) && tables == old(tables)
      ensures !old(Present(mem[f][j])) && child != 0 ==>
                && child !in old(tables) && tables.Keys == old(tables).Keys + {child}
                && child in mem && mem[child] == EmptyTable()
      ensures child == 0 ==> mem == old(mem) && tables == old(tables)
      ensures NewLinksOpen(old(mem), old(tables), mem, tables, virt < NO_EXECUTE_BIT)
      ensures Grew(pmm.start, old(pmm.Used()), old(mem), old(tables), pmm.Used(), mem, tables)
    {
      hide Good, Grew, NewLinksOpen, Bit;
      ghost var used := pmm.Used();
      NewLinksNone(mem, tables, virt < NO_EXECUTE_BIT);
      if Present(mem[f][j]) {
        GrewNothing(pmm.start, used, mem, tables);
        GoodLink(pmm.start, used, mem, tables, current, f, j);
        return FrameOf(mem[f][j]);
      }
      child := pmm.AllocPage();
      if child == 0 {
        GrewNothing(pmm.start, used, mem, tables);
        return;
      }
      var e := TableEntry(child, virt);
      AddGrows(pmm.start, used, mem, tables, current, f, j, child, e);
      NewLinksAdd(mem, tables, f, j, child, e, virt < NO_EXECUTE_BIT);
      mem := AddTable(mem, f, j, child, e);
      tables := tables[child := Child(tables[f], j)];
    }

    /** One step of the descent: the table at depth `d + 1` on the route of a page, created if missing. */
    method EnsureStep(path: seq<nat>, d: nat, f: nat, virt: u64) returns (child: nat)
      requires Valid()
      requires |path| == 4 && (forall k :: 0 <= k < 4 ==> path[k] < ENTRIES) && d < 3
      requires Route(mem, tables, current, path[..d], f) && !Walk(mem, current, path).Large?
      modifies this`mem, this`tables, pmm`totalAllocations, pmm`failedAllocations, pmm.bitmap
      ensures Valid()
      ensures child == 0 ==> forall i: nat :: !FreeRun(pmm.Used(), i, 1)
      ensures child != 0 ==> Route(mem, tables, current, path[..d + 1], child)
      ensures !Walk(mem, current, path).Large?
      ensures Added(old(tables), tables) + Missing(mem, current, path) == Missing(old(mem), current, path)
      ensures child == 0 ==> Missing(mem, current, path) > 0
      ensures NewLinksOpen(old(mem), old(tables), mem, tables, virt < NO_EXECUTE_BIT)
      ensures Grew(pmm.start, old(pmm.Used()), old(mem), old(tables), pmm.Used(), mem, tables)
    {
      hide Good, Grew, Walk, NewLinksOpen, Missing, EmptyTable, Route, Links, Present, Huge, Added;
      ghost var start, u0, m0, t0 := pmm.start, pmm.Used(), mem, tables;
      RouteNotLarge(start, u0, mem, tables, current, path, d, f);
      CurrentIsRoot(start, u0, mem, tables, current);
      MissingStep(mem, tables, current, path, d, f);
      child := EnsureTable(f, path[d], virt);
      CurrentIsRoot(start, pmm.Used(), mem, tables, current);
      RouteGrew(start, u0, m0, t0, pmm.Used(), mem, tables, current, current, path[..d], f);
      GrewKeepsWalk(start, u0, m0, t0, pmm.Used(), mem, tables, current, path);
      if child != 0 {
        RouteExtend(mem, tables, current, path[..d], f, path[d], child);
        assert path[..d] + [path[d]] == path[..d + 1];
        NewTable(m0, t0, mem, tables, current, path, d, f, child);
      } else {
        AddedNone(tables);
      }
    }

    /** The PT on the route of `virt` in the current space, with missing tables created; 0 when out of memory. */
    method EnsurePath(virt: u64) returns (pt: nat)
      requires Valid()
      requires !Walk(mem, current, PathOf(virt)).Large?
      modifies this`mem, this`tables, pmm`totalAllocations, pmm`failedAllocations, pmm.bitmap
      ensures Valid()
      ensures pt == 0 ==> forall i: nat :: !FreeRun(pmm.Used(), i, 1)
      ensures pt != 0 ==> Route(mem, tables, current, PathOf(virt)[..3], pt)
      ensures Added(old(tables), tables) + Missing(mem, current, PathOf(virt))
              == Missing(old(mem), current, PathOf(virt))
      ensures pt != 0 <==> Missing(mem, current, PathOf(virt)) == 0
      ensures NewLinksOpen(old(mem), old(tables), mem, tables, virt < NO_EXECUTE_BIT)
      ensures Grew(pmm.start, old(pmm.Used()), old(mem), old(tables), pmm.Used(), mem, tables)
    {
      hide Good, Grew, Walk, PathOf, Route, NewLinksOpen, Missing, Added, Count;
      var path := PathOf(virt);
      ghost var start, u0, m0, t0 := pmm.start, pmm.Used(), mem, tables;
      ghost var user := virt < NO_EXECUTE_BIT;
      RouteToSelf(mem, tables, current, path);
      var pdpt := EnsureStep(path, 0, current, virt);
      ghost var u1, m1, t1 := pmm.Used(), mem, tables;
      if pdpt == 0 {
        return 0;
      }
      var pd := EnsureStep(path, 1, pdpt, virt);
      ghost var u2, m2, t2 := pmm.Used(), mem, tables;
      GrewTwice(start, u0, m0, t0, u1, m1, t1, u2, m2, t2);
      GrewAdded(start, u0, m0, t0, u1, m1, t1);
      GrewAdded(start, u1, m1, t1, u2, m2, t2);
      AddedTwice(t0, t1, t2);
      NewLinksTwice(m0, t0, m1, t1, m2, t2, user);
      if pd == 0 {
        return 0;
      }
      pt := EnsureStep(path, 2, pd, virt);
      GrewAdded(start, u2, m2, t2, pmm.Used(), mem, tables);
      AddedTwice(t0, t2, tables);
      NewLinksTwice(m0, t0, m2, t2, mem, tables, user);
      GrewTwice(start, u0, m0, t0, u2, m2, t2, pmm.Used(), mem, tables);
      CurrentIsRoot(start, pmm.Used(), mem, tables, current);
      if pt != 0 {
        NoneMissing(mem, tables, current, path, pt);
      }
    }

    /**
     Maps the page of `virt` to the frame of `phys`: it succeeds if and only if no
     address is null and there are as many free pages as tables missing. Success
     changes exactly that page, whose entry carries the bits that `flags` ask for;
     failure changes no translation, although tables may have been added. Every new
     table is linked for writing and, below 2^63, for user code.
     */
    method MapPage(virt: u64, phys: u64, flags: u64) returns (ok: bool)
      requires Valid()
      requires NotLarge(View(), virt)
      modifies this`mem, this`tables, pmm`totalAllocations, pmm`failedAllocations, pmm.bitmap
      ensures Valid()
      ensures ok <==> virt != 0 && phys != 0
                      && Count(old(pmm.Used()), false) >= Missing(old(mem), current, PathOf(virt))
      ensures virt != 0 && phys != 0 ==>
                Added(old(tables), tables) == if ok then Missing(old(mem), current, PathOf(virt))
                                              else Count(old(pmm.Used()), false)
      ensures ok ==> Missing(mem, current, PathOf(virt)) == 0
      ensures !ok ==> virt == 0 || phys == 0 || forall i: nat :: !FreeRun(pmm.Used(), i, 1)
      ensures ok ==> View() == old(View())[PageOf(virt) := PageFor(FrameOf(phys), flags, usingNx)]
      ensures ok ==> Carries(View()[PageOf(virt)], flags, usingNx)
      ensures !ok ==> View() == old(View())
      ensures NewLinksOpen(old(mem), old(tables), mem, tables, virt < 0x8000_0000_0000_0000)
      ensures old(Open(mem, tables)) && virt < 0x8000_0000_0000_0000 ==> Open(mem, tables)
      ensures OtherSpacesKept(old(mem), mem, old(tables), current)
      ensures GrewTables(pmm.start, old(pmm.Used()), old(mem), old(tables), pmm.Used(), mem, tables)
    {
      hide Good, Grew, GrewTables, OtherSpacesKept, PathOf, Indices, Walk, Flat, Route, LeafEntry, PageFor, FrameOf,
           Carries, Leaf, Missing, Open, NewLinksOpen, Count, Added;
      ghost var start, u0, m0, t0 := pmm.start, pmm.Used(), mem, tables;
      ghost var user := virt < NO_EXECUTE_BIT;
      NewLinksNone(m0, t0, user);
      if virt == 0 || phys == 0 {
        GrewTablesNothing(start, u0, mem, tables, current);
        return false;
      }
      ghost var p := PageOf(virt);
      PathOfPage(virt);
      NotLargeWalk(mem, current, virt);
      CurrentIsRoot(start, u0, mem, tables, current);
      var pt := EnsurePath(virt);
      GrewKeepsPages(start, u0, m0, t0, pmm.Used(), mem, tables, current);
      GrewIsGrewTables(start, u0, m0, t0, pmm.Used(), mem, tables, current);
      GrewAdded(start, u0, m0, t0, pmm.Used(), mem, tables);
      CountNone(pmm.Used());
      if user && Open(m0, t0) {
        OpenStays(m0, t0, mem, tables);
      }
      if pt == 0 {
        return false;
      }
      var e := LeafEntry(FrameOf(phys), flags, usingNx);
      PageCarries(FrameOf(phys), flags, usingNx);
      ghost var m1 := mem;
      WriteGood(start, pmm.Used(), mem, tables, current, p, 4, pt, e);
      WriteLeaf(start, pmm.Used(), mem, tables, current, PathOf(virt), pt, e, user);
      mem := WriteEntry(mem, pt, PathOf(virt)[3], e);
      NewLinksTwice(m0, t0, m1, tables, mem, tables, user);
      if user && Open(m0, t0) {
        OpenStays(m0, t0, mem, tables);
      }
      GrewThenWrote(start, u0, m0, t0, pmm.Used(), m1, tables, mem, current);
      return true;
    }

    /**
     The walk that unmapping and the two lookups share: the table and depth of
     the entry that ends the walk of `virt`, or depth 0 when it is not mapped.
     */
    method Locate(virt: u64) returns (depth: nat, table: nat)
      requires Valid()
      ensures depth == 0 <==> Walk(mem, current, PathOf(virt)) == Unmapped
      ensures depth != 0 ==>
                && 2 <= depth <= 4 && Route(mem, tables, current, PathOf(virt)[..depth - 1], table)
                && table in mem && |mem[table]| == ENTRIES
                && EndsAt(mem[table][PathOf(virt)[depth - 1]], depth, PathOf(virt)[depth..],
                          Walk(mem, current, PathOf(virt)))
    {
      hide Good, PathOf, Route, Walk, Present, Huge, FrameOf;
      var path := PathOf(virt);
      ghost var used := pmm.Used();
      RouteToSelf(mem, tables, current, path);
      table := current;
      var d := 0;
      while true
        invariant 0 <= d < 4 && Route(mem, tables, current, path[..d], table)
        decreases 4 - d
      {
        RouteStep(pmm.start, used, mem, tables, current, path, d, table);
        var e := mem[table][path[d]];
        if !Present(e) {
          return 0, 0;
        }
        if d == 3 || (d > 0 && Huge(e)) {
          return d + 1, table;
        }
        table := FrameOf(e);
        d := d + 1;
      }
    }

    /**
     Unmaps the page of `virt`: true exactly when it was mapped. The entry that
     mapped it is cleared, so a 4 KiB page (`depth` 4) goes alone and a large page
     goes whole.
     */
    method UnmapPage(virt: u64) returns (ok: bool, ghost depth: nat)
      requires Valid()
      modifies this`mem
      ensures Valid()
      ensures ok <==> virt != 0 && PageOf(virt) in old(View())
      ensures ok ==>
                && 2 <= depth <= 4 && (depth == 4 <==> old(View())[PageOf(virt)].Page4K?)
                && View() == old(View()) - PagesBelow(PageOf(virt), depth)
      ensures !ok ==> mem == old(mem)
      ensures old(Open(mem, tables)) ==> Open(mem, tables)
      ensures OtherSpacesKept(old(mem), mem, tables, current)
      ensures DataKept(old(mem), mem, tables)
    {
      hide Good, OtherSpacesKept, PathOf, Indices, Walk, Route, PagesBelow, Open;
      ghost var m0, p := mem, PageOf(virt);
      depth := 0;
      SpacesKeptRefl(mem, tables, current);
      if virt == 0 {
        return false, 0;
      }
      PathOfPage(virt);
      var d, table := Locate(virt);
      if d == 0 {
        return false, 0;
      }
      NotPresentZero();
      WriteGood(pmm.start, pmm.Used(), mem, tables, current, p, d, table, 0);
      if Open(mem, tables) {
        CurrentIsRoot(pmm.start, pmm.Used(), mem, tables, current);
        WalkRoute(mem, tables, current, PathOf(virt)[..d - 1], table, PathOf(virt)[d - 1..]);
        ClearOpen(mem, tables, table, PathOf(virt)[d - 1]);
      }
      mem := WriteEntry(mem, table, PathOf(virt)[d - 1], 0);
      return true, d;
    }

    /** The physical address behind `addr`, or 0 when it is not mapped. */
    method VirtToPhys(addr: u64) returns (phys: u64)
      requires Valid()
      ensures addr >= hhdm ==> phys == addr - hhdm
      ensures addr < hhdm ==> phys == PhysOf(View(), addr)
    {
      hide Good, PathOf, Indices, Walk, Route, FrameOf, Present, Huge, PageOf, OffsetIn, Wrap64;
      if addr >= hhdm {
        return addr - hhdm;
      }
      PathOfPage(addr);
      var d, table := Locate(addr);
      if d == 0 {
        return 0;
      }
      var e := mem[table][PathOf(addr)[d - 1]];
      LargeOffset(FrameOf(e), addr);
      phys := Wrap64(FrameOf(e) + (if d == 2 then addr % 0x4000_0000 else if d == 3 then addr % 0x20_0000
                                   else addr % 0x1000));
    }

    method IsMapped(addr: u64) returns (mapped: bool)
      requires Valid()
      ensures mapped <==> addr >= hhdm || PageOf(addr) in View()
    {
      hide Good, PathOf, Indices, Walk, Route, PageOf;
      if addr >= hhdm {
        return true;
      }
      PathOfPage(addr);
      var d, table := Locate(addr);
      mapped := d != 0;
    }
  }
}
