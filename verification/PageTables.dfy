/**
 Four-level page tables in physical memory (section 4.5 of the Intel SDM,
 Volume 3A) as kernel/src/memory/vmm.c lays them out and walks them: the walk,
 the shape of a forest of tables, and how single writes change translations.
 */
module PageTables {
  import opened Bytes

  /** Physical frames that hold tables or data, by address; a table has 512 entries. */
  type Memory = map<nat, seq<u64>>

  const ENTRIES: nat := 512
  const LOWER_ENTRIES: nat := 256
  const PAGES: nat := 0x10_0000_0000
  const LOWER_PAGES: nat := 0x8_0000_0000

  predicate Present(e: u64) { e % 2 == 1 }

  predicate Huge(e: u64) { e / 128 % 2 == 1 }

  /** `e & PAGE_ADDR_MASK` */
  function FrameOf(e: u64): (f: nat)
    ensures f <= e && f % PAGE_SIZE == 0
  {
    e - e % PAGE_SIZE
  }

  // ---------- virtual pages and table indices ----------

  /** Bits 12 to 47 of an address; the walk ignores the bits above. */
  function PageOf(addr: nat): (p: nat)
    ensures p < PAGES
  {
    addr / PAGE_SIZE % PAGES
  }

  /** The PML4, PDPT, PD and PT indices of a page. */
  function Indices(p: nat): (path: seq<nat>)
    ensures |path| == 4
    ensures p < PAGES ==> forall k :: 0 <= k < 4 ==> path[k] < ENTRIES
  {
    [p / 0x800_0000, p / 0x4_0000 % 512, p / 0x200 % 512, p % 512]
  }

  /** The indices the code takes from an address: `(addr >> 39) & 0x1FF` down to `(addr >> 12) & 0x1FF`. */
  function PathOf(addr: nat): (path: seq<nat>)
    ensures |path| == 4 && forall k :: 0 <= k < 4 ==> path[k] < ENTRIES
  {
    [addr / 0x80_0000_0000 % 512, addr / 0x4000_0000 % 512, addr / 0x20_0000 % 512, addr / 0x1000 % 512]
  }

  /** Dividing by 512 turns the low bits of `n` into the low bits of `n / 512`. */
  lemma ModThenDiv(n: nat, m: nat)
    requires m > 0
    ensures n % (512 * m) / 512 == n / 512 % m
    ensures n % (512 * m) % 512 == n % 512
  {
    var a, r := n / (512 * m), n % (512 * m);
    assert n == 512 * (a * m) + r;
    assert n / 512 == a * m + r / 512;
    ModOfSum(a, m, r / 512);
  }

  lemma PathOfPage(addr: nat)
    ensures PathOf(addr) == Indices(PageOf(addr))
  {
    var n := addr / 0x1000;
    var p := n % PAGES;
    ModThenDiv(n, 0x800_0000);
    ModThenDiv(n / 512, 0x4_0000);
    ModThenDiv(n / 512 / 512, 0x200);
    assert addr / 0x20_0000 == n / 512;
    assert addr / 0x4000_0000 == n / 512 / 512;
    assert addr / 0x80_0000_0000 == n / 512 / 512 / 512;
    assert p / 512 == n / 512 % 0x800_0000;
    assert p / 0x4_0000 == p / 512 / 512;
    assert p / 0x800_0000 == p / 512 / 512 / 512;
  }

  lemma IndicesInjective(p: nat, q: nat)
    requires Indices(p) == Indices(q)
    ensures p == q
  {
    assert forall k :: 0 <= k < 4 ==> Indices(p)[k] == Indices(q)[k];
    IndicesSplit(p);
    IndicesSplit(q);
  }

  lemma IndicesSplit(p: nat)
    ensures p == ((Indices(p)[0] * 512 + Indices(p)[1]) * 512 + Indices(p)[2]) * 512 + Indices(p)[3]
  {
    var a, b, c := p / 512, p / 512 / 512, p / 512 / 512 / 512;
    assert p / 0x200 == a && p / 0x4_0000 == b && p / 0x800_0000 == c;
  }

  // ---------- the walk ----------

  /** A 4 KiB page has its frame and the low twelve bits of the entry that maps it. */
  datatype Translation = Unmapped | Page4K(frame: nat, bits: nat) | Large(frame: nat)

  /** Offset in pages of a page inside the large page that holds it. */
  function OffsetIn(rest: seq<nat>): nat {
    if rest == [] then 0 else OffsetIn(rest[..|rest| - 1]) * ENTRIES + rest[|rest| - 1]
  }

  /**
   Looks up the remaining indices from `table` down. Entries of a PDPT or a PD
   with the huge bit end the walk; a PML4 entry never does.
   */
  function Walk(mem: Memory, table: nat, rest: seq<nat>): (t: Translation)
    decreases |rest|
  {
    if rest == [] || table == 0 || table !in mem || |mem[table]| <= rest[0] then Unmapped
    else
      var e := mem[table][rest[0]];
      if !Present(e) then Unmapped
      else if |rest| == 1 then Page4K(FrameOf(e), e % PAGE_SIZE)
      else if |rest| < 4 && Huge(e) then Large(Wrap64(FrameOf(e) + PAGE_SIZE * OffsetIn(rest[1..])))
      else Walk(mem, FrameOf(e), rest[1..])
  }

  /** The flat view of an address space: the translation of every mapped page. */
  ghost function Flat(mem: Memory, root: nat): map<nat, Translation> {
    map p: nat | p < PAGES && Walk(mem, root, Indices(p)) != Unmapped :: Walk(mem, root, Indices(p))
  }

  // ---------- the shape of the tables ----------

  /**
   Where a table sits: the address space that owns it and the indices that lead
   to it. Tables under the upper half of a PML4 are shared and have owner 0.
   */
  datatype Node = Node(owner: nat, path: seq<nat>)

  function Child(n: Node, j: nat): Node {
    Node(if n.path == [] && j >= LOWER_ENTRIES then 0 else n.owner, n.path + [j])
  }

  ghost predicate TableOk(mem: Memory, tables: map<nat, Node>, f: nat)
    requires f in tables
  {
    && f in mem && |mem[f]| == ENTRIES
    && 0 < f < 0x1_0000_0000_0000_0000 && f % PAGE_SIZE == 0
    && |tables[f].path| <= 3
  }

  /** A present entry above the last level that is not a large page leads to the child table. */
  ghost predicate LinkOk(mem: Memory, tables: map<nat, Node>, f: nat, j: nat)
    requires f in tables && TableOk(mem, tables, f) && j < ENTRIES
  {
    var e, n := mem[f][j], tables[f];
    |n.path| < 3 && Present(e) && !(n.path != [] && Huge(e)) ==>
      FrameOf(e) in tables && tables[FrameOf(e)] == Child(n, j)
  }

  /** Every table has one place, so the tables of one space form a tree of distinct frames. */
  ghost predicate Forest(mem: Memory, tables: map<nat, Node>) {
    && (forall f :: f in tables ==> TableOk(mem, tables, f))
    && (forall f, j: nat :: f in tables && j < ENTRIES ==> LinkOk(mem, tables, f, j))
  }

  predicate IsRoot(tables: map<nat, Node>, r: nat) {
    r in tables && tables[r] == Node(r, [])
  }

  /** `rest` completes the indices of `n` to those of a page. */
  ghost predicate Completes(n: Node, rest: seq<nat>) {
    |n.path| + |rest| == 4 && rest != [] && forall k :: 0 <= k < |rest| ==> rest[k] < ENTRIES
  }

  /** The walk from node `n` along `rest` never reads entry `j` of the table at node `at`. */
  ghost predicate Misses(n: Node, rest: seq<nat>, at: Node, j: nat)
    decreases |rest|
  {
    rest == [] || ((n != at || rest[0] != j) && Misses(Child(n, rest[0]), rest[1..], at, j))
  }

  /** Walks whose indices differ from `at.path + [j]` miss that entry. */
  lemma {:induction false} MissesOtherPath(n: Node, rest: seq<nat>, at: Node, j: nat)
    requires |n.path| > |at.path| || !(at.path + [j] <= n.path + rest)
    ensures Misses(n, rest, at, j)
    decreases |rest|
  {
    if rest != [] {
      if n == at && rest[0] == j {
        assert false;
      }
      assert Child(n, rest[0]).path + rest[1..] == n.path + rest;
      MissesOtherPath(Child(n, rest[0]), rest[1..], at, j);
    }
  }

  lemma {:induction false} MissesOtherOwner(n: Node, rest: seq<nat>, at: Node, j: nat)
    requires n.owner != at.owner
    requires n.path == [] && rest != [] ==> rest[0] < LOWER_ENTRIES
    ensures Misses(n, rest, at, j)
    decreases |rest|
  {
    if rest != [] {
      MissesOtherOwner(Child(n, rest[0]), rest[1..], at, j);
    }
  }

  // ---------- single writes ----------

  function WriteEntry(mem: Memory, f: nat, j: nat, e: u64): Memory
    requires f in mem && j < |mem[f]|
  {
    var t: seq<u64> := mem[f][j := e];
    mem[f := t]
  }

  lemma {:induction false} WalkMissed(mem: Memory, tables: map<nat, Node>, g: nat, rest: seq<nat>,
                                      f: nat, j: nat, e: u64)
    requires Forest(mem, tables) && g in tables && Completes(tables[g], rest)
    requires f in tables && j < ENTRIES && TableOk(mem, tables, f)
    requires Misses(tables[g], rest, tables[f], j)
    ensures Walk(WriteEntry(mem, f, j, e), g, rest) == Walk(mem, g, rest)
    decreases |rest|
  {
    assert TableOk(mem, tables, g) && LinkOk(mem, tables, g, rest[0]);
    var x := mem[g][rest[0]];
    assert WriteEntry(mem, f, j, e)[g][rest[0]] == x;
    if Present(x) && |rest| > 1 && !(|rest| < 4 && Huge(x)) {
      WalkMissed(mem, tables, FrameOf(x), rest[1..], f, j, e);
    }
  }

  /** No walk that starts at a table of the forest changes between two memories. */
  ghost predicate SameWalks(mem: Memory, mem': Memory, tables: map<nat, Node>) {
    forall g, rest: seq<nat> {:trigger Walk(mem', g, rest)} :: g in tables && Completes(tables[g], rest) ==>
      Walk(mem', g, rest) == Walk(mem, g, rest)
  }

  /** A zeroed frame. */
  function EmptyTable(): (t: seq<u64>)
    ensures |t| == ENTRIES && forall k :: 0 <= k < ENTRIES ==> t[k] == 0
  {
    seq(ENTRIES, i => 0)
  }

  /** An absent entry `j` of table `f` is made to point to a zeroed new table `c`. */
  function AddTable(mem: Memory, f: nat, j: nat, c: nat, e: u64): Memory
    requires f in mem && j < |mem[f]| && c != f
  {
    WriteEntry(mem[c := EmptyTable()], f, j, e)
  }

  /** What the forest must offer for a new table, and what the new entry must be. */
  ghost predicate CanAdd(mem: Memory, tables: map<nat, Node>, f: nat, j: nat, c: nat, e: u64) {
    && Forest(mem, tables) && f in tables && TableOk(mem, tables, f) && |tables[f].path| < 3 && j < ENTRIES
    && !Present(mem[f][j])
    && c !in tables && 0 < c < 0x1_0000_0000_0000_0000 && c % PAGE_SIZE == 0
    && Present(e) && !Huge(e) && FrameOf(e) == c
  }

  lemma {:induction false} WalkAdded(mem: Memory, tables: map<nat, Node>, g: nat, rest: seq<nat>,
                                     f: nat, j: nat, c: nat, e: u64)
    requires CanAdd(mem, tables, f, j, c, e) && g in tables && Completes(tables[g], rest)
    ensures Walk(AddTable(mem, f, j, c, e), g, rest) == Walk(mem, g, rest)
    decreases |rest|
  {
    assert TableOk(mem, tables, g) && LinkOk(mem, tables, g, rest[0]);
    var x := mem[g][rest[0]];
    var mem' := AddTable(mem, f, j, c, e);
    if g == f && rest[0] == j {
      assert mem'[g][j] == e && mem'[c] == EmptyTable();
      assert rest[1..][0] == rest[1] && !Present(mem'[c][rest[1]]);
    } else {
      assert mem'[g][rest[0]] == x;
      if Present(x) && |rest| > 1 && !(|rest| < 4 && Huge(x)) {
        WalkAdded(mem, tables, FrameOf(x), rest[1..], f, j, c, e);
      }
    }
  }

  /** Adding a table keeps the forest and every translation. */
  lemma AddKeepsForest(mem: Memory, tables: map<nat, Node>, f: nat, j: nat, c: nat, e: u64)
    requires CanAdd(mem, tables, f, j, c, e)
    ensures Forest(AddTable(mem, f, j, c, e), tables[c := Child(tables[f], j)])
    ensures SameWalks(mem, AddTable(mem, f, j, c, e), tables)
  {
    var mem' := AddTable(mem, f, j, c, e);
    var tables' := tables[c := Child(tables[f], j)];
    forall g | g in tables' ensures TableOk(mem', tables', g) {
      assert g in tables ==> TableOk(mem, tables, g);
    }
    forall g, k: nat | g in tables' && k < ENTRIES ensures LinkOk(mem', tables', g, k) {
      if g == c {
        assert mem'[g][k] == 0;
      } else if g != f || k != j {
        assert TableOk(mem, tables, g) && LinkOk(mem, tables, g, k);
        assert mem'[g][k] == mem[g][k];
      }
    }
    forall g, rest: seq<nat> | g in tables && Completes(tables[g], rest)
      ensures Walk(mem', g, rest) == Walk(mem, g, rest)
    {
      WalkAdded(mem, tables, g, rest, f, j, c, e);
    }
  }

  /** Writing a last-level entry, or clearing any entry, keeps the forest. */
  lemma WriteKeepsForest(mem: Memory, tables: map<nat, Node>, f: nat, j: nat, e: u64)
    requires Forest(mem, tables) && f in tables && TableOk(mem, tables, f) && j < ENTRIES
    requires |tables[f].path| == 3 || e == 0
    ensures Forest(WriteEntry(mem, f, j, e), tables)
  {
    var mem' := WriteEntry(mem, f, j, e);
    forall g | g in tables ensures TableOk(mem', tables, g) {
      assert TableOk(mem, tables, g);
    }
    forall g, k: nat | g in tables && k < ENTRIES ensures LinkOk(mem', tables, g, k) {
      assert TableOk(mem, tables, g) && LinkOk(mem, tables, g, k);
      assert g != f || k != j ==> mem'[g][k] == mem[g][k];
    }
  }

  // ---------- the route to one entry ----------

  /** Entry `j` of table `f` leads to its child table `c`. */
  ghost predicate Links(mem: Memory, tables: map<nat, Node>, f: nat, j: nat, c: nat) {
    && f in tables && TableOk(mem, tables, f) && |tables[f].path| < 3 && j < ENTRIES
    && Present(mem[f][j]) && (tables[f].path != [] ==> !Huge(mem[f][j]))
    && FrameOf(mem[f][j]) == c && c in tables && tables[c] == Child(tables[f], j)
  }

  /** Following `prefix` from table `g` leads through links to table `f`. */
  ghost predicate Route(mem: Memory, tables: map<nat, Node>, g: nat, prefix: seq<nat>, f: nat)
    decreases |prefix|
  {
    if prefix == [] then g == f
    else exists c :: Links(mem, tables, g, prefix[0], c) && Route(mem, tables, c, prefix[1..], f)
  }

  lemma {:induction false} RouteExtend(mem: Memory, tables: map<nat, Node>, g: nat, prefix: seq<nat>, f: nat,
                                       j: nat, c: nat)
    requires Route(mem, tables, g, prefix, f) && Links(mem, tables, f, j, c)
    ensures Route(mem, tables, g, prefix + [j], c)
    decreases |prefix|
  {
    if prefix == [] {
      assert Route(mem, tables, c, [], c) && (prefix + [j])[1..] == [];
    } else {
      var d :| Links(mem, tables, g, prefix[0], d) && Route(mem, tables, d, prefix[1..], f);
      RouteExtend(mem, tables, d, prefix[1..], f, j, c);
      assert (prefix + [j])[1..] == prefix[1..] + [j];
    }
  }

  /** A route fixes the place of the table it reaches, and walks along it start there. */
  lemma {:induction false} WalkRoute(mem: Memory, tables: map<nat, Node>, g: nat, prefix: seq<nat>, f: nat,
                                     rest: seq<nat>)
    requires Route(mem, tables, g, prefix, f) && g in tables
    requires |tables[g].path| + |prefix| + |rest| == 4 && rest != []
    ensures f in tables && tables[f].path == tables[g].path + prefix
    ensures tables[g].path == [] ==>
              tables[f].owner == if prefix != [] && prefix[0] >= LOWER_ENTRIES then 0 else tables[g].owner
    ensures tables[g].path != [] ==> tables[f].owner == tables[g].owner
    ensures Walk(mem, g, prefix + rest) == Walk(mem, f, rest)
    decreases |prefix|
  {
    if prefix == [] {
      assert prefix + rest == rest;
    } else {
      var c :| Links(mem, tables, g, prefix[0], c) && Route(mem, tables, c, prefix[1..], f);
      WalkRoute(mem, tables, c, prefix[1..], f, rest);
      assert (prefix + rest)[1..] == prefix[1..] + rest;
      assert tables[c].path + prefix[1..] == tables[g].path + prefix;
    }
  }

  /** How many tables are missing on the way down to the last one. */
  function Missing(mem: Memory, table: nat, rest: seq<nat>): (n: nat)
    ensures n <= if rest == [] then 0 else |rest| - 1
    decreases |rest|
  {
    if |rest| <= 1 || table !in mem || |mem[table]| <= rest[0] then 0
    else
      var e := mem[table][rest[0]];
      if !Present(e) then |rest| - 1
      else if |rest| < 4 && Huge(e) then 0
      else Missing(mem, FrameOf(e), rest[1..])
  }

  lemma {:induction false} MissingRoute(mem: Memory, tables: map<nat, Node>, g: nat, prefix: seq<nat>, f: nat,
                                        rest: seq<nat>)
    requires Route(mem, tables, g, prefix, f) && g in tables
    requires |tables[g].path| + |prefix| + |rest| == 4 && rest != []
    ensures Missing(mem, g, prefix + rest) == Missing(mem, f, rest)
    decreases |prefix|
  {
    if prefix == [] {
      assert prefix + rest == rest;
    } else {
      var c :| Links(mem, tables, g, prefix[0], c) && Route(mem, tables, c, prefix[1..], f);
      MissingRoute(mem, tables, c, prefix[1..], f, rest);
      assert (prefix + rest)[1..] == prefix[1..] + rest;
    }
  }

  /** Only the indices above the last one matter. */
  lemma {:induction false} MissingPrefix(mem: Memory, table: nat, rest: seq<nat>, rest': seq<nat>)
    requires rest != [] && |rest| == |rest'| && rest[..|rest| - 1] == rest'[..|rest| - 1]
    ensures Missing(mem, table, rest) == Missing(mem, table, rest')
    decreases |rest|
  {
    if |rest| > 1 {
      var a, b := rest[..|rest| - 1], rest'[..|rest| - 1];
      assert rest[0] == a[0] == b[0] == rest'[0];
      assert rest[1..][..|rest| - 2] == a[1..] == b[1..] == rest'[1..][..|rest| - 2];
      var e := if table in mem && rest[0] < |mem[table]| then mem[table][rest[0]] else 0;
      MissingPrefix(mem, FrameOf(e), rest[1..], rest'[1..]);
    }
  }

  /** Writing a last table, or outside the tables, creates and removes none. */
  lemma {:induction false} MissingKept(mem: Memory, mem': Memory, tables: map<nat, Node>, g: nat, rest: seq<nat>)
    requires Forest(mem, tables) && g in tables && Completes(tables[g], rest)
    requires forall f :: f in tables && |tables[f].path| < 3 ==> f in mem' && f in mem && mem'[f] == mem[f]
    ensures Missing(mem', g, rest) == Missing(mem, g, rest)
    decreases |rest|
  {
    if |rest| > 1 {
      assert TableOk(mem, tables, g) && LinkOk(mem, tables, g, rest[0]);
      var x := mem[g][rest[0]];
      if Present(x) && !(|rest| < 4 && Huge(x)) {
        MissingKept(mem, mem', tables, FrameOf(x), rest[1..]);
      }
    }
  }

  /** A write below a route leaves the route in place. */
  lemma {:induction false} RouteKept(mem: Memory, tables: map<nat, Node>, g: nat, prefix: seq<nat>, f: nat,
                                     j: nat, e: u64)
    requires Route(mem, tables, g, prefix, f) && g in tables
    requires f in tables && TableOk(mem, tables, f) && j < ENTRIES && tables[f].path == tables[g].path + prefix
    ensures Route(WriteEntry(mem, f, j, e), tables, g, prefix, f)
    decreases |prefix|
  {
    if prefix != [] {
      var c :| Links(mem, tables, g, prefix[0], c) && Route(mem, tables, c, prefix[1..], f);
      assert tables[c].path + prefix[1..] == tables[g].path + prefix;
      assert g != f;
      assert Links(WriteEntry(mem, f, j, e), tables, g, prefix[0], c);
      RouteKept(mem, tables, c, prefix[1..], f, j, e);
    }
  }

  function Leaf(e: u64): Translation {
    if Present(e) then Page4K(FrameOf(e), e % PAGE_SIZE) else Unmapped
  }

  /** The first `d` indices of two pages agree. */
  ghost predicate SamePrefix(p: nat, q: nat, d: nat)
    requires d <= 4
  {
    Indices(p)[..d] == Indices(q)[..d]
  }

  lemma SamePrefixFour(p: nat, q: nat)
    ensures SamePrefix(p, q, 4) <==> p == q
  {
    if SamePrefix(p, q, 4) {
      assert Indices(p)[..4] == Indices(p) && Indices(q)[..4] == Indices(q);
      IndicesInjective(p, q);
    }
  }

  /** What a write to the entry at depth `d` of the route of page `p` does to every page. */
  ghost predicate Rewrites(mem: Memory, mem': Memory, tables: map<nat, Node>, root: nat, p: nat, d: nat, t: Translation)
    requires d <= 4
  {
    && (forall q: nat :: q < PAGES ==>
          Walk(mem', root, Indices(q)) == if SamePrefix(p, q, d) then t else Walk(mem, root, Indices(q)))
    && (forall r, q: nat :: IsRoot(tables, r) && r != root && q < LOWER_PAGES ==>
          Walk(mem', r, Indices(q)) == Walk(mem, r, Indices(q)))
  }

  lemma PrefixMisses(root: Node, p: nat, q: nat, d: nat, at: Node)
    requires 1 <= d <= 4 && root.path == [] && at.path == Indices(p)[..d - 1] && !SamePrefix(p, q, d)
    ensures Misses(root, Indices(q), at, Indices(p)[d - 1])
  {
    var j := Indices(p)[d - 1];
    assert at.path + [j] == Indices(p)[..d];
    assert root.path + Indices(q) == Indices(q);
    if at.path + [j] <= Indices(q) {
      assert false;
    }
    MissesOtherPath(root, Indices(q), at, j);
  }

  /** Walks of the pages below the written entry end there. */
  lemma WalkWritten(mem: Memory, tables: map<nat, Node>, root: nat, p: nat, q: nat, d: nat, f: nat, e: u64)
    requires Forest(mem, tables) && IsRoot(tables, root) && p < PAGES && q < PAGES && 1 <= d <= 4
    requires Route(mem, tables, root, Indices(p)[..d - 1], f) && (d == 4 || e == 0)
    requires SamePrefix(p, q, d)
    ensures f in tables && TableOk(mem, tables, f)
    ensures Walk(WriteEntry(mem, f, Indices(p)[d - 1], e), root, Indices(q)) == Leaf(e)
  {
    hide Indices, Walk, Route;
    var prefix, j, rest := Indices(p)[..d - 1], Indices(p)[d - 1], Indices(q)[d - 1..];
    PrefixSplit(p, q, d);
    WalkRoute(mem, tables, root, prefix, f, rest);
    RouteKept(mem, tables, root, prefix, f, j, e);
    WalkRoute(WriteEntry(mem, f, j, e), tables, root, prefix, f, rest);
    WalkEnds(mem, tables, f, rest, e);
  }

  lemma PrefixSplit(p: nat, q: nat, d: nat)
    requires p < PAGES && q < PAGES && 1 <= d <= 4 && SamePrefix(p, q, d)
    ensures Indices(p)[..d - 1] + Indices(q)[d - 1..] == Indices(q) && Indices(q)[d - 1] == Indices(p)[d - 1]
  {
    hide Indices;
    var a, b := Indices(p)[..d], Indices(q)[..d];
    assert a == b && Indices(p)[..d - 1] == a[..d - 1] && Indices(q)[..d - 1] == b[..d - 1];
    assert Indices(p)[d - 1] == a[d - 1] && Indices(q)[d - 1] == b[d - 1];
    assert Indices(q)[..d - 1] + Indices(q)[d - 1..] == Indices(q);
  }

  /** A walk that starts at the table just written, at the entry written. */
  lemma WalkEnds(mem: Memory, tables: map<nat, Node>, f: nat, rest: seq<nat>, e: u64)
    requires f in tables && f != 0 && TableOk(mem, tables, f) && rest != [] && rest[0] < ENTRIES
             && (|rest| == 1 || e == 0)
    ensures Walk(WriteEntry(mem, f, rest[0], e), f, rest) == Leaf(e)
  {
  }

  /**
   A write to the entry at depth `d` of the route of page `p` (any entry of a PT,
   or clearing an entry further up) changes exactly the pages below that entry.
   */
  lemma RouteWrite(mem: Memory, tables: map<nat, Node>, root: nat, p: nat, d: nat, f: nat, e: u64)
    requires Forest(mem, tables) && IsRoot(tables, root) && p < PAGES && 1 <= d <= 4
    requires Route(mem, tables, root, Indices(p)[..d - 1], f) && (d == 4 || e == 0)
    requires d > 1 || p < LOWER_PAGES
    ensures f in tables && TableOk(mem, tables, f)
    ensures Forest(WriteEntry(mem, f, Indices(p)[d - 1], e), tables)
    ensures Rewrites(mem, WriteEntry(mem, f, Indices(p)[d - 1], e), tables, root, p, d, Leaf(e))
  {
    hide Walk, Forest, Misses, Indices;
    var j := Indices(p)[d - 1];
    WalkWritten(mem, tables, root, p, p, d, f, e);
    WalkRoute(mem, tables, root, Indices(p)[..d - 1], f, Indices(p)[d - 1..]);
    WriteKeepsForest(mem, tables, f, j, e);
    var mem' := WriteEntry(mem, f, j, e);
    forall q: nat | q < PAGES
      ensures Walk(mem', root, Indices(q)) == if SamePrefix(p, q, d) then Leaf(e) else Walk(mem, root, Indices(q))
    {
      if SamePrefix(p, q, d) {
        WalkWritten(mem, tables, root, p, q, d, f, e);
      } else {
        PrefixMisses(tables[root], p, q, d, tables[f]);
        WalkMissed(mem, tables, root, Indices(q), f, j, e);
      }
    }
    forall r, q: nat | IsRoot(tables, r) && r != root && q < LOWER_PAGES
      ensures Walk(mem', r, Indices(q)) == Walk(mem, r, Indices(q))
    {
      OtherRootMisses(tables, r, root, p, q, d, f);
      WalkMissed(mem, tables, r, Indices(q), f, j, e);
    }
  }

  lemma OtherRootMisses(tables: map<nat, Node>, r: nat, root: nat, p: nat, q: nat, d: nat, f: nat)
    requires IsRoot(tables, r) && IsRoot(tables, root) && r != root && p < PAGES && q < LOWER_PAGES && 1 <= d <= 4
    requires f in tables && tables[f].path == Indices(p)[..d - 1] && (d == 1 ==> f == root)
    requires d > 1 ==> tables[f].owner == if Indices(p)[0] >= LOWER_ENTRIES then 0 else root
    ensures Misses(tables[r], Indices(q), tables[f], Indices(p)[d - 1])
  {
    if SamePrefix(p, q, d) {
      assert Indices(q)[0] == Indices(q)[..d][0] == Indices(p)[0] < LOWER_ENTRIES;
      MissesOtherOwner(tables[r], Indices(q), tables[f], Indices(p)[d - 1]);
    } else {
      PrefixMisses(tables[r], p, q, d, tables[f]);
    }
  }

  // ---------- writes outside the tables ----------

  lemma {:induction false} WalkDataWrite(mem: Memory, tables: map<nat, Node>, g: nat, rest: seq<nat>, c: nat,
                                         data: seq<u64>)
    requires Forest(mem, tables) && g in tables && Completes(tables[g], rest) && c !in tables
    ensures Walk(mem[c := data], g, rest) == Walk(mem, g, rest)
    decreases |rest|
  {
    assert TableOk(mem, tables, g) && LinkOk(mem, tables, g, rest[0]);
    var x := mem[g][rest[0]];
    if Present(x) && |rest| > 1 && !(|rest| < 4 && Huge(x)) {
      WalkDataWrite(mem, tables, FrameOf(x), rest[1..], c, data);
    }
  }

  /** Writing a frame that is not a table changes no translation. */
  lemma DataWrite(mem: Memory, tables: map<nat, Node>, c: nat, data: seq<u64>)
    requires Forest(mem, tables) && c !in tables
    ensures Forest(mem[c := data], tables)
    ensures SameWalks(mem, mem[c := data], tables)
  {
    var mem' := mem[c := data];
    forall f | f in tables ensures TableOk(mem', tables, f) {
      assert TableOk(mem, tables, f);
    }
    forall f, j: nat | f in tables && j < ENTRIES ensures LinkOk(mem', tables, f, j) {
      assert TableOk(mem, tables, f) && LinkOk(mem, tables, f, j);
    }
    forall g, rest: seq<nat> | g in tables && Completes(tables[g], rest)
      ensures Walk(mem', g, rest) == Walk(mem, g, rest)
    {
      WalkDataWrite(mem, tables, g, rest, c, data);
    }
  }
}
