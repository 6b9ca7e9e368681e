/**
 Allocation of user memory (kernel/src/memory/vmm.c:834-953): fresh zeroed
 frames mapped one by one into a free area, taken back when anything fails.
 */
module VmmAlloc {
  import opened Bytes
  import opened Bitmaps
  import opened PhysicalMemory
  import opened PageTables
  import opened PageRights
  import opened VirtualMemory
  import opened VmmRanges

  /** What the allocator and the memory hold while `held` is out: only it and the new tables were taken. */
  ghost predicate Holding(start: nat, u0: seq<bool>, m0: Memory, t0: map<nat, Node>,
                          used: seq<bool>, mem: Memory, tables: map<nat, Node>, held: set<nat>)
  {
    && (forall g :: g in t0 ==> g in tables && tables[g] == t0[g])
    && (forall f :: f in held ==> f !in tables && f in mem && mem[f] == EmptyTable())
    && Took(start, u0, used, tables.Keys - t0.Keys + held)
    && HeldDataKept(start, u0, m0, mem, tables)
  }

  /** Frames that were held or lie outside the window, and are not tables, keep their contents. */
  ghost predicate HeldDataKept(start: nat, u0: seq<bool>, m0: Memory, mem: Memory, tables: map<nat, Node>) {
    forall f :: f in m0 && f !in tables && Held(start, u0, f) ==> f in mem && mem[f] == m0[f]
  }

  lemma TookTwice(start: nat, u0: seq<bool>, u1: seq<bool>, u2: seq<bool>, a: set<nat>, b: set<nat>)
    requires Took(start, u0, u1, a) && Took(start, u1, u2, b) && start % PAGE_SIZE == 0
    ensures Took(start, u0, u2, a + b) && a !! b
  {
    forall f | f in a ensures f !in b {
      assert f == start + PageIndex(start, f) * PAGE_SIZE;
    }
  }

  lemma HoldingNothing(start: nat, used: seq<bool>, mem: Memory, tables: map<nat, Node>, current: nat)
    ensures Holding(start, used, mem, tables, used, mem, tables, {})
  {
  }

  /** Allocating `c` and then mapping, which may add tables. */
  lemma HoldThenGrow(start: nat, u0: seq<bool>, m0: Memory, t0: map<nat, Node>, used: seq<bool>, mem: Memory,
                     tables: map<nat, Node>, held: set<nat>, c: nat, used': seq<bool>, mem': Memory,
                     tables': map<nat, Node>)
    requires Holding(start, u0, m0, t0, used, mem, tables, held)
    requires start % PAGE_SIZE == 0 && InWindow(start, |used|, c) && !used[PageIndex(start, c)] && c !in tables
    requires GrewTables(start, used[PageIndex(start, c) := true], mem, tables, used', mem', tables')
    ensures c !in tables' && c !in held && Took(start, u0, used', tables'.Keys - t0.Keys + held + {c})
    ensures forall g :: g in t0 ==> g in tables' && tables'[g] == t0[g]
    ensures forall f :: f in held ==> f !in tables' && f in mem' && mem'[f] == EmptyTable()
    ensures HeldDataKept(start, u0, m0, mem', tables')
  {
    hide EmptyTable, Held;
    var u1 := used[PageIndex(start, c) := true];
    var added := tables'.Keys - tables.Keys;
    var before := tables.Keys - t0.Keys + held;
    HeldNothing(start, used);
    TakeOne(start, used, c, {});
    TookTwice(start, u0, used, u1, before, {c});
    TookTwice(start, u0, u1, used', before + {c}, added);
    assert before + {c} + added == tables'.Keys - t0.Keys + held + {c};
  }

  lemma HeldNothing(start: nat, used: seq<bool>)
    ensures AllHeld(start, used, {})
  {
  }

  /** Zeroing the new frame completes the step. */
  lemma HoldZeroed(start: nat, u0: seq<bool>, m0: Memory, t0: map<nat, Node>, used: seq<bool>, mem: Memory,
                   tables: map<nat, Node>, held: set<nat>, c: nat)
    requires c !in tables && Took(start, u0, used, tables.Keys - t0.Keys + held + {c})
    requires forall g :: g in t0 ==> g in tables && tables[g] == t0[g]
    requires forall f :: f in held ==> f !in tables && f in mem && mem[f] == EmptyTable()
    requires HeldDataKept(start, u0, m0, mem, tables)
    ensures Holding(start, u0, m0, t0, used, mem[c := EmptyTable()], tables, held + {c})
  {
    hide EmptyTable, InWindow, PageIndex;
    assert tables.Keys - t0.Keys + held + {c} == tables.Keys - t0.Keys + (held + {c});
  }

  lemma FreeAt(start: nat, used: seq<bool>, c: nat) returns (k: nat)
    requires InWindow(start, |used|, c) && start % PAGE_SIZE == 0
    ensures k == PageIndex(start, c) < |used| && c == start + k * PAGE_SIZE
    ensures FreeOne(used, start, c) == used[k := false]
  {
    k := PageIndex(start, c);
  }

  /** Freeing `c` again undoes taking it. */
  lemma GiveBack(start: nat, u0: seq<bool>, used: seq<bool>, taken: set<nat>, c: nat)
    requires Took(start, u0, used, taken + {c}) && c !in taken && start % PAGE_SIZE == 0
    ensures Took(start, u0, FreeOne(used, start, c), taken)
  {
    hide FreeOne, InWindow;
    assert c in taken + {c};
    var k := FreeAt(start, used, c);
    var used' := used[k := false];
    forall i: nat | i < |u0| ensures used'[i] == (u0[i] || start + i * PAGE_SIZE in taken) {
      assert used[i] == (u0[i] || start + i * PAGE_SIZE in taken + {c});
      assert i != k ==> start + i * PAGE_SIZE != c;
    }
    assert forall f :: f in taken ==> f in taken + {c};
  }

  lemma HoldLess(start: nat, u0: seq<bool>, m0: Memory, t0: map<nat, Node>, used: seq<bool>, mem: Memory,
                 tables: map<nat, Node>, held: set<nat>, c: nat)
    requires Holding(start, u0, m0, t0, used, mem, tables, held) && c in held && start % PAGE_SIZE == 0
    ensures Holding(start, u0, m0, t0, FreeOne(used, start, c), mem, tables, held - {c})
  {
    hide EmptyTable, FreeOne, Took;
    assert tables.Keys - t0.Keys + held == tables.Keys - t0.Keys + (held - {c}) + {c};
    GiveBack(start, u0, used, tables.Keys - t0.Keys + (held - {c}), c);
  }

  /** Entry writes, such as unmapping, do not change what is held. */
  lemma HoldThroughWrites(start: nat, u0: seq<bool>, m0: Memory, t0: map<nat, Node>, used: seq<bool>, mem: Memory,
                          tables: map<nat, Node>, held: set<nat>, mem': Memory)
    requires Holding(start, u0, m0, t0, used, mem, tables, held) && DataKept(mem, mem', tables)
    ensures Holding(start, u0, m0, t0, used, mem', tables, held)
  {
    hide EmptyTable, Took;
  }

  // ---------- the invariant across allocator calls and data writes ----------

  lemma GoodTake(start: nat, used: seq<bool>, mem: Memory, tables: map<nat, Node>, current: nat, c: nat)
    requires Good(start, used, mem, tables, current) && start % PAGE_SIZE == 0
    requires InWindow(start, |used|, c) && !used[PageIndex(start, c)]
    ensures c !in tables && c in mem
    ensures Good(start, used[PageIndex(start, c) := true], mem, tables, current)
  {
    hide Forest;
    TakeOne(start, used, c, tables.Keys);
  }

  lemma GoodGive(start: nat, used: seq<bool>, mem: Memory, tables: map<nat, Node>, current: nat, c: nat)
    requires Good(start, used, mem, tables, current) && start % PAGE_SIZE == 0 && c !in tables
    ensures Good(start, FreeOne(used, start, c), mem, tables, current)
  {
    hide Forest, FreeOne, InWindow;
    if InWindow(start, |used|, c) {
      var k := FreeAt(start, used, c);
      forall f | f in tables ensures Held(start, used[k := false], f) {
        if InWindow(start, |used|, f) {
          assert Held(start, used, f);
          var k' := FreeAt(start, used, f);
        }
      }
    } else {
      FreeOutside(start, used, c);
    }
  }

  lemma FreeOutside(start: nat, used: seq<bool>, c: nat)
    requires !InWindow(start, |used|, c)
    ensures FreeOne(used, start, c) == used
  {
  }

  lemma GoodZero(start: nat, used: seq<bool>, mem: Memory, tables: map<nat, Node>, current: nat, c: nat)
    requires Good(start, used, mem, tables, current) && c !in tables
    ensures Good(start, used, mem[c := EmptyTable()], tables, current)
    ensures Flat(mem[c := EmptyTable()], current) == Flat(mem, current)
    ensures OtherSpacesKept(mem, mem[c := EmptyTable()], tables, current)
  {
    hide Walk, Indices, Forest;
    var mem' := mem[c := EmptyTable()];
    DataWrite(mem, tables, c, EmptyTable());
    forall p: nat | p < PAGES ensures Walk(mem', current, Indices(p)) == Walk(mem, current, Indices(p)) {
      assert Completes(tables[current], Indices(p));
    }
    forall r, q: nat | IsRoot(tables, r) && r != current && q < LOWER_PAGES
      ensures Walk(mem', r, Indices(q)) == Walk(mem, r, Indices(q))
    {
      assert Completes(tables[r], Indices(q));
    }
  }

  // ---------- one page ----------

  /** What the run started from, to account for what it has taken since. */
  datatype Origin = Origin(used: seq<bool>, mem: Memory, tables: map<nat, Node>)

  ghost predicate HoldingNow(vmm: Vmm, o: Origin, held: set<nat>)
    requires vmm.Valid()
    reads vmm, vmm.pmm, vmm.pmm.bitmap
  {
    Holding(vmm.pmm.start, o.used, o.mem, o.tables, vmm.pmm.Used(), vmm.mem, vmm.tables, held)
  }

  /**
   Allocates a frame, maps it at `virt` and zeroes it. This takes one free page and
   one for each missing table; when there are fewer, nothing but new tables remains.
   */
  method MapFresh(vmm: Vmm, virt: u64, flags: u64, ghost o: Origin, ghost held: set<nat>) returns (frame: nat)
    requires vmm.Valid() && NotLarge(vmm.View(), virt) && HoldingNow(vmm, o, held)
    modifies vmm`mem, vmm`tables, vmm.pmm`totalAllocations, vmm.pmm`failedAllocations, vmm.pmm.bitmap
    ensures vmm.Valid()
    ensures frame != 0 <==>
              virt != 0 && Count(old(vmm.pmm.Used()), false) > Missing(old(vmm.mem), vmm.current, PathOf(virt))
    ensures frame != 0 ==>
              && Missing(vmm.mem, vmm.current, PathOf(virt)) == 0
              && Added(old(vmm.tables), vmm.tables) == Missing(old(vmm.mem), vmm.current, PathOf(virt))
              && Count(old(vmm.pmm.Used()), false) == Count(vmm.pmm.Used(), false) + 1 + Added(old(vmm.tables),
                                                                                               vmm.tables)
    ensures frame == 0 && virt != 0 ==> Count(old(vmm.pmm.Used()), false) <= 1 + Added(old(vmm.tables), vmm.tables)
    ensures old(vmm.tables).Keys <= vmm.tables.Keys
    ensures old(Open(vmm.mem, vmm.tables)) && virt < NO_EXECUTE_BIT ==> Open(vmm.mem, vmm.tables)
    ensures frame == 0 ==> vmm.View() == old(vmm.View()) && HoldingNow(vmm, o, held)
    ensures frame != 0 ==>
              && frame < 0x1_0000_0000_0000_0000 && frame % PAGE_SIZE == 0 && frame !in held && virt != 0
              && InWindow(vmm.pmm.start, vmm.pmm.maxPages, frame)
              && vmm.View() == old(vmm.View())[PageOf(virt) := PageFor(frame, flags, vmm.usingNx)]
              && HoldingNow(vmm, o, held + {frame})
    ensures OtherSpacesKept(old(vmm.mem), vmm.mem, old(vmm.tables), vmm.current)
  {
    hide Good, Flat, Holding, GrewTables, OtherSpacesKept, PageOf, PageFor, FreeOne, EmptyTable, Took, HeldDataKept,
         Open, NewLinksOpen, Missing, Carries, Added, Count, PathOf;
    ghost var start, u0, m0, t0 := vmm.pmm.start, vmm.pmm.Used(), vmm.mem, vmm.tables;
    ghost var root := vmm.current;
    SpacesKeptRefl(m0, t0, root);
    var phys := TakeFrame(vmm);
    if phys == 0 {
      return 0;
    }
    ghost var u1 := vmm.pmm.Used();
    var mapped := vmm.MapPage(virt, phys, flags);
    GrewCount(start, u1, m0, t0, vmm.pmm.Used(), vmm.mem, vmm.tables);
    HoldThenGrow(start, o.used, o.mem, o.tables, u0, m0, t0, held, phys, vmm.pmm.Used(), vmm.mem, vmm.tables);
    if !mapped {
      GoodGive(start, vmm.pmm.Used(), vmm.mem, vmm.tables, root, phys);
      HoldGivenUp(start, o.used, o.mem, o.tables, vmm.pmm.Used(), vmm.mem, vmm.tables, held, phys);
      vmm.pmm.FreePage(phys);
      return 0;
    }
    ghost var m1, t1 := vmm.mem, vmm.tables;
    HoldZeroed(start, o.used, o.mem, o.tables, vmm.pmm.Used(), m1, t1, held, phys);
    ZeroLinks(start, vmm.pmm.Used(), m1, t1, root, phys, PathOf(virt));
    ZeroFrame(vmm, phys);
    SpacesKeptTwice(start, u0[PageIndex(start, phys) := true], m0, t0, vmm.pmm.Used(), m1, t1, vmm.mem, root);
    frame := phys;
  }

  lemma GrewCount(start: nat, used: seq<bool>, mem: Memory, tables: map<nat, Node>, used': seq<bool>, mem': Memory,
                  tables': map<nat, Node>)
    requires GrewTables(start, used, mem, tables, used', mem', tables') && start % PAGE_SIZE == 0
    ensures Count(used, false) == Count(used', false) + Added(tables, tables') && tables.Keys <= tables'.Keys
  {
    hide Count, Took;
    TookCount(start, used, used', tables'.Keys - tables.Keys);
  }

  /** Zeroing a frame that is not a table changes no link. */
  lemma ZeroLinks(start: nat, used: seq<bool>, mem: Memory, tables: map<nat, Node>, current: nat, c: nat,
                  path: seq<nat>)
    requires Good(start, used, mem, tables, current) && c !in tables
    requires |path| == 4 && forall k :: 0 <= k < 4 ==> path[k] < ENTRIES
    ensures Missing(mem[c := EmptyTable()], current, path) == Missing(mem, current, path)
    ensures Open(mem, tables) ==> Open(mem[c := EmptyTable()], tables)
  {
    hide Missing, Open, NewLinksOpen, EmptyTable;
    var mem' := mem[c := EmptyTable()];
    forall f | f in tables && |tables[f].path| < 3 ensures f in mem' && f in mem && mem'[f] == mem[f] {
      GoodTable(start, used, mem, tables, current, f);
    }
    MissingKept(mem, mem', tables, current, path);
    NewLinksData(mem, tables, c, EmptyTable(), true);
    if Open(mem, tables) {
      OpenStays(mem, tables, mem', tables);
    }
  }

  method TakeFrame(vmm: Vmm) returns (c: u64)
    requires vmm.Valid()
    modifies vmm.pmm`totalAllocations, vmm.pmm`failedAllocations, vmm.pmm.bitmap
    ensures vmm.Valid()
    ensures c == 0 ==> vmm.pmm.Used() == old(vmm.pmm.Used()) && Count(vmm.pmm.Used(), false) == 0
    ensures c != 0 ==> Count(vmm.pmm.Used(), false) == Count(old(vmm.pmm.Used()), false) - 1
    ensures c != 0 ==>
              && c % PAGE_SIZE == 0 && c !in vmm.tables && InWindow(vmm.pmm.start, vmm.pmm.maxPages, c)
              && !old(vmm.pmm.Used())[PageIndex(vmm.pmm.start, c)]
              && vmm.pmm.Used() == old(vmm.pmm.Used())[PageIndex(vmm.pmm.start, c) := true]
  {
    hide Good, Count;
    ghost var used := vmm.pmm.Used();
    CountNone(used);
    c := vmm.pmm.AllocPage();
    if c != 0 {
      CountOne(used, PageIndex(vmm.pmm.start, c));
      GoodTake(vmm.pmm.start, used, vmm.mem, vmm.tables, vmm.current, c);
    }
  }

  /** `memset(phys_to_virt(phys_addr), 0, PAGE_SIZE_4K)` on a frame that is not a table. */
  method ZeroFrame(vmm: Vmm, c: nat)
    requires vmm.Valid() && c !in vmm.tables
    modifies vmm`mem
    ensures vmm.Valid() && vmm.mem == old(vmm.mem)[c := EmptyTable()]
    ensures vmm.View() == old(vmm.View())
    ensures OtherSpacesKept(old(vmm.mem), vmm.mem, vmm.tables, vmm.current)
  {
    hide Good, Flat, OtherSpacesKept, EmptyTable;
    GoodZero(vmm.pmm.start, vmm.pmm.Used(), vmm.mem, vmm.tables, vmm.current, c);
    vmm.mem := vmm.mem[c := EmptyTable()];
  }

  lemma HoldGivenUp(start: nat, u0: seq<bool>, m0: Memory, t0: map<nat, Node>, used: seq<bool>, mem: Memory,
                    tables: map<nat, Node>, held: set<nat>, c: nat)
    requires c !in tables && c !in held && start % PAGE_SIZE == 0
    requires Took(start, u0, used, tables.Keys - t0.Keys + held + {c})
    requires forall g :: g in t0 ==> g in tables && tables[g] == t0[g]
    requires forall f :: f in held ==> f !in tables && f in mem && mem[f] == EmptyTable()
    requires HeldDataKept(start, u0, m0, mem, tables)
    ensures Holding(start, u0, m0, t0, FreeOne(used, start, c), mem, tables, held)
  {
    hide EmptyTable, FreeOne, Took;
    GiveBack(start, u0, used, tables.Keys - t0.Keys + held, c);
  }

  lemma SpacesKeptTwice(start: nat, u0: seq<bool>, m0: Memory, t0: map<nat, Node>, u1: seq<bool>, m1: Memory,
                        t1: map<nat, Node>, m2: Memory, root: nat)
    requires GrewTables(start, u0, m0, t0, u1, m1, t1)
    requires OtherSpacesKept(m0, m1, t0, root) && OtherSpacesKept(m1, m2, t1, root)
    ensures OtherSpacesKept(m0, m2, t0, root)
  {
    hide Walk, Indices;
    forall r, q: nat | IsRoot(t0, r) && r != root && q < LOWER_PAGES
      ensures Walk(m2, r, Indices(q)) == Walk(m0, r, Indices(q))
    {
      assert IsRoot(t1, r);
      assert Walk(m1, r, Indices(q)) == Walk(m0, r, Indices(q));
    }
  }

  /**
   One step of taking memory back: look up the frame, unmap the page, free the
   frame. With no-execute set the lookup returns an address with bit 63, which
   the allocator refuses, so the frame stays held.
   */
  method Release(vmm: Vmm, virt: u64, flags: u64, ghost frame: u64, ghost o: Origin, ghost held: set<nat>)
    requires vmm.Valid() && HoldingNow(vmm, o, held) && frame in held
    requires 0 < virt < vmm.hhdm && virt % PAGE_SIZE == 0
    requires frame % PAGE_SIZE == 0 && InWindow(vmm.pmm.start, vmm.pmm.maxPages, frame)
    requires vmm.pmm.end <= NO_EXECUTE_BIT
    requires PageOf(virt) in vmm.View() && vmm.View()[PageOf(virt)] == PageFor(frame, flags, vmm.usingNx)
    modifies vmm`mem, vmm.pmm.bitmap
    ensures vmm.Valid()
    ensures vmm.View() == old(vmm.View()) - {PageOf(virt)}
    ensures HoldingNow(vmm, o, if SetsNoExecute(flags, vmm.usingNx) then held else held - {frame})
    ensures old(Open(vmm.mem, vmm.tables)) ==> Open(vmm.mem, vmm.tables)
    ensures OtherSpacesKept(old(vmm.mem), vmm.mem, vmm.tables, vmm.current)
  {
    hide Good, Flat, Holding, OtherSpacesKept, PageOf, FreeOne, EmptyTable, DataKept, PagesBelow, SetsNoExecute,
         Open;
    ghost var start, u0, m0, tables := vmm.pmm.start, vmm.pmm.Used(), vmm.mem, vmm.tables;
    var phys := vmm.VirtToPhys(virt);
    assert phys == MappedFrame(frame, flags, vmm.usingNx);
    PagesBelowFour(PageOf(virt));
    var unmapped, depth := vmm.UnmapPage(virt);
    HoldThroughWrites(start, o.used, o.mem, o.tables, u0, m0, tables, held, vmm.mem);
    HeldNotTable(start, o.used, o.mem, o.tables, u0, vmm.mem, tables, held, frame);
    if SetsNoExecute(flags, vmm.usingNx) {
      FreeOutside(start, u0, phys);
    } else {
      HoldLess(start, o.used, o.mem, o.tables, u0, vmm.mem, tables, held, frame);
      GoodGive(start, u0, vmm.mem, tables, vmm.current, phys);
    }
    vmm.pmm.FreePage(phys);
  }

  lemma HeldNotTable(start: nat, u0: seq<bool>, m0: Memory, t0: map<nat, Node>, used: seq<bool>, mem: Memory,
                     tables: map<nat, Node>, held: set<nat>, c: nat)
    requires Holding(start, u0, m0, t0, used, mem, tables, held) && c in held
    ensures c !in tables
  {
  }

  // ---------- ranges of fresh frames ----------

  /** A view with `frames` mapped at consecutive pages from `base` on. */
  ghost function MapFrames(view: map<nat, Translation>, base: nat, frames: seq<u64>, flags: u64, nx: bool)
    : map<nat, Translation>
    requires forall i :: 0 <= i < |frames| ==> frames[i] % PAGE_SIZE == 0
  {
    if frames == [] then view
    else
      var n := |frames| - 1;
      MapFrames(view, base, frames[..n], flags, nx)
        [PageOf(Step(base, n, PAGE_SIZE)) := PageFor(frames[n], flags, nx)]
  }

  lemma {:induction false} MapFramesAt(view: map<nat, Translation>, base: nat, frames: seq<u64>, flags: u64, nx: bool)
    requires forall i :: 0 <= i < |frames| ==> frames[i] % PAGE_SIZE == 0
    requires base + |frames| * PAGE_SIZE <= PAGES * PAGE_SIZE
    ensures MapFrames(view, base, frames, flags, nx).Keys == view.Keys + RangePages(base, |frames|, PAGE_SIZE)
    ensures forall i: nat :: i < |frames| ==>
              && PageOf(Step(base, i, PAGE_SIZE)) in MapFrames(view, base, frames, flags, nx)
              && MapFrames(view, base, frames, flags, nx)[PageOf(Step(base, i, PAGE_SIZE))]
                 == PageFor(frames[i], flags, nx)
    ensures forall p :: p in view && p !in RangePages(base, |frames|, PAGE_SIZE) ==>
              MapFrames(view, base, frames, flags, nx)[p] == view[p]
  {
    hide PageFor, PageOf, Step;
    if frames != [] {
      var n := |frames| - 1;
      MapFramesAt(view, base, frames[..n], flags, nx);
      forall i: nat | i < n ensures PageOf(Step(base, i, PAGE_SIZE)) != PageOf(Step(base, n, PAGE_SIZE)) {
        StepsDiffer(base, i, n);
      }
    }
  }

  lemma StepsDiffer(base: nat, i: nat, j: nat)
    requires i < j && base + j * PAGE_SIZE < PAGES * PAGE_SIZE
    ensures Step(base, i, PAGE_SIZE) == base + i * PAGE_SIZE && Step(base, j, PAGE_SIZE) == base + j * PAGE_SIZE
    ensures PageOf(Step(base, i, PAGE_SIZE)) != PageOf(Step(base, j, PAGE_SIZE))
  {
    hide PageOf, Step;
    assert i * PAGE_SIZE < j * PAGE_SIZE;
    StepInside(base, i);
    StepInside(base, j);
    PagesDiffer(base, i, j);
  }

  lemma StepInside(base: nat, i: nat)
    requires base + i * PAGE_SIZE < PAGES * PAGE_SIZE
    ensures Step(base, i, PAGE_SIZE) == base + i * PAGE_SIZE
  {
    var x := base + i * PAGE_SIZE;
    assert Wrap64(x) == x;
  }

  lemma {:induction false} StepNotInRange(base: nat, i: nat, n: nat)
    requires n <= i && base + i * PAGE_SIZE < PAGES * PAGE_SIZE
    ensures PageOf(Step(base, i, PAGE_SIZE)) !in RangePages(base, n, PAGE_SIZE)
  {
    hide PageOf, Step;
    if n > 0 {
      StepNotInRange(base, i, n - 1);
      StepsDiffer(base, n - 1, i);
    }
  }

  // ---------- vmm_allocate ----------

  /** Pages in a size rounded up with 64-bit wrap-around: `((size + 4095) & ~4095) / 4096`. */
  function PageCount(size: u64): (n: nat) {
    Wrap64(size + PAGE_SIZE - 1) / PAGE_SIZE
  }

  /** The rounding loses pages exactly for the sizes whose rounded value does not fit in 64 bits; then none is left. */
  lemma PageCountCovers(size: u64)
    ensures PageCount(size) * PAGE_SIZE >= size <==> size <= 0xFFFF_FFFF_FFFF_F000
    ensures 0 < size <= 0xFFFF_FFFF_FFFF_F000 ==> (PageCount(size) - 1) * PAGE_SIZE < size
    ensures size == 0 || size > 0xFFFF_FFFF_FFFF_F000 ==> PageCount(size) == 0
  {
    if size > 0xFFFF_FFFF_FFFF_F000 {
      assert Wrap64(size + PAGE_SIZE - 1) == size + PAGE_SIZE - 1 - 0x1_0000_0000_0000_0000;
    }
  }

  predicate Fits(a: Region, size: nat) {
    !a.isUsed && a.size >= size
  }

  method FindFreeArea(areas: seq<Region>, size: nat) returns (k: nat)
    ensures k <= |areas|
    ensures k < |areas| ==> Fits(areas[k], size)
    ensures forall j :: 0 <= j < k ==> !Fits(areas[j], size)
  {
    k := 0;
    while k < |areas|
      invariant k <= |areas|
      invariant forall j :: 0 <= j < k ==> !Fits(areas[j], size)
    {
      if !areas[k].isUsed && areas[k].size >= size {
        return;
      }
      k := k + 1;
    }
  }

  /** A page-aligned nonempty-based range of the lower half, below the direct mapping. */
  predicate UserRange(base: nat, size: nat, hhdm: nat) {
    0 < base && base % PAGE_SIZE == 0 && base + size <= hhdm && base + size <= PAGES * PAGE_SIZE
  }

  ghost predicate SmallPages(view: map<nat, Translation>, base: nat, n: nat) {
    forall i: nat :: i < n ==> NotLarge(view, Step(base, i, PAGE_SIZE))
  }

  ghost function FrameSet(frames: seq<u64>): set<nat> {
    set i | 0 <= i < |frames| :: frames[i]
  }

  ghost predicate FramesOk(start: nat, pages: nat, frames: seq<u64>) {
    forall i :: 0 <= i < |frames| ==> frames[i] % PAGE_SIZE == 0 && InWindow(start, pages, frames[i])
  }

  /** The rollback loop of vmm_allocate. */
  method Rollback(vmm: Vmm, base: u64, n: nat, flags: u64, ghost frames: seq<u64>, ghost view: map<nat, Translation>,
                  ghost o: Origin)
    requires vmm.Valid() && |frames| == n && UserRange(base, n * PAGE_SIZE, vmm.hhdm)
    requires Distinct(frames) && FramesOk(vmm.pmm.start, vmm.pmm.maxPages, frames)
    requires HoldingNow(vmm, o, FrameSet(frames)) && vmm.pmm.end <= NO_EXECUTE_BIT
    requires vmm.View() == MapFrames(view, base, frames, flags, vmm.usingNx)
    modifies vmm`mem, vmm.pmm.bitmap
    ensures vmm.Valid()
    ensures vmm.View() == view - RangePages(base, n, PAGE_SIZE)
    ensures HoldingNow(vmm, o, if SetsNoExecute(flags, vmm.usingNx) then FrameSet(frames) else {})
    ensures old(Open(vmm.mem, vmm.tables)) ==> Open(vmm.mem, vmm.tables)
    ensures OtherSpacesKept(old(vmm.mem), vmm.mem, vmm.tables, vmm.current)
  {
    hide Good, Flat, Holding, OtherSpacesKept, PageOf, Step, PageFor, MapFrames, InWindow, FrameSet, SetsNoExecute,
         Open;
    ghost var v1, root, m0, nx := vmm.View(), vmm.current, vmm.mem, SetsNoExecute(flags, vmm.usingNx);
    SpacesKeptRefl(m0, vmm.tables, root);
    assert frames[0..] == frames;
    for j := 0 to n
      invariant vmm.Valid() && (old(Open(vmm.mem, vmm.tables)) ==> Open(vmm.mem, vmm.tables))
      invariant vmm.View() == v1 - RangePages(base, j, PAGE_SIZE)
      invariant HoldingNow(vmm, o, if nx then FrameSet(frames) else FrameSet(frames[j..]))
      invariant OtherSpacesKept(m0, vmm.mem, vmm.tables, root)
    {
      var addr := base + j * PAGE_SIZE;
      StepInUserRange(base, j, n, vmm.hhdm);
      FrameStillMapped(view, base, frames, flags, vmm.usingNx, j);
      DropFirst(frames, j);
      ghost var held := if nx then FrameSet(frames) else FrameSet(frames[j..]);
      ghost var m1 := vmm.mem;
      Release(vmm, addr, flags, frames[j], o, held);
      SpacesKeptChain(m0, m1, vmm.mem, vmm.tables, root);
    }
    FramesRolledBack(view, base, frames, flags, vmm.usingNx);
  }

  lemma FrameStillMapped(view: map<nat, Translation>, base: nat, frames: seq<u64>, flags: u64, nx: bool, j: nat)
    requires forall i :: 0 <= i < |frames| ==> frames[i] % PAGE_SIZE == 0
    requires base + |frames| * PAGE_SIZE <= PAGES * PAGE_SIZE && j < |frames|
    ensures PageOf(Step(base, j, PAGE_SIZE)) !in RangePages(base, j, PAGE_SIZE)
    ensures PageOf(Step(base, j, PAGE_SIZE)) in MapFrames(view, base, frames, flags, nx)
    ensures MapFrames(view, base, frames, flags, nx)[PageOf(Step(base, j, PAGE_SIZE))]
            == PageFor(frames[j], flags, nx)
  {
    hide MapFrames, RangePages, PageOf, Step, PageFor;
    MapFramesAt(view, base, frames, flags, nx);
    StepNotInRange(base, j, j);
  }

  lemma FramesRolledBack(view: map<nat, Translation>, base: nat, frames: seq<u64>, flags: u64, nx: bool)
    requires forall i :: 0 <= i < |frames| ==> frames[i] % PAGE_SIZE == 0
    requires base + |frames| * PAGE_SIZE <= PAGES * PAGE_SIZE
    ensures MapFrames(view, base, frames, flags, nx) - RangePages(base, |frames|, PAGE_SIZE)
            == view - RangePages(base, |frames|, PAGE_SIZE)
    ensures FrameSet(frames[|frames|..]) == {}
  {
    hide MapFrames, RangePages, PageOf, Step, PageFor;
    MapFramesAt(view, base, frames, flags, nx);
  }

  lemma StepInUserRange(base: nat, j: nat, n: nat, hhdm: u64)
    requires UserRange(base, n * PAGE_SIZE, hhdm) && j < n
    ensures Step(base, j, PAGE_SIZE) == base + j * PAGE_SIZE
    ensures 0 < base + j * PAGE_SIZE < hhdm && (base + j * PAGE_SIZE) % PAGE_SIZE == 0
    ensures base + j * PAGE_SIZE < PAGES * PAGE_SIZE
  {
  }

  lemma SpacesKeptChain(m0: Memory, m1: Memory, m2: Memory, tables: map<nat, Node>, root: nat)
    requires OtherSpacesKept(m0, m1, tables, root) && OtherSpacesKept(m1, m2, tables, root)
    ensures OtherSpacesKept(m0, m2, tables, root)
  {
    hide Walk, Indices;
    forall r, q: nat | IsRoot(tables, r) && r != root && q < LOWER_PAGES
      ensures Walk(m2, r, Indices(q)) == Walk(m0, r, Indices(q))
    {
      assert Walk(m1, r, Indices(q)) == Walk(m0, r, Indices(q));
    }
  }

  lemma DropFirst(frames: seq<u64>, j: nat)
    requires j < |frames| && Distinct(frames)
    ensures frames[j] in FrameSet(frames[j..]) && frames[j] in FrameSet(frames)
    ensures FrameSet(frames[j..]) - {frames[j]} == FrameSet(frames[j + 1..])
  {
    var s, t := frames[j..], frames[j + 1..];
    assert s[0] == frames[j];
    forall f | f in FrameSet(t) ensures f in FrameSet(s) && f != frames[j] {
      var i :| 0 <= i < |t| && t[i] == f;
      assert s[i + 1] == f && frames[j + 1 + i] == f;
    }
    forall f | f in FrameSet(s) && f != frames[j] ensures f in FrameSet(t) {
      var i :| 0 <= i < |s| && s[i] == f;
      assert t[i - 1] == f;
    }
  }

  /** Last tables that a range of `n` pages from `base` on can need. */
  function Spans(base: nat, n: nat): nat {
    if n == 0 then 0 else (base / PAGE_SIZE % 512 + n + 511) / 512
  }

  /** A page after the first needs a last table of its own only at a multiple of 2 MiB. */
  lemma SpanStep(base: nat, i: nat)
    ensures if i == 0 || (base / PAGE_SIZE + i) % 512 == 0 then Spans(base, i + 1) == Spans(base, i) + 1
            else Spans(base, i + 1) == Spans(base, i)
    ensures i > 0 && (base / PAGE_SIZE + i) % 512 != 0 ==>
              PathOf(base + i * PAGE_SIZE)[..3] == PathOf(base + (i - 1) * PAGE_SIZE)[..3]
  {
    hide PathOf;
    SpanCount(base / PAGE_SIZE, i);
    if i > 0 && (base / PAGE_SIZE + i) % 512 != 0 {
      var a := base + (i - 1) * PAGE_SIZE;
      assert a / PAGE_SIZE == base / PAGE_SIZE + (i - 1);
      SameTable(a);
      assert a + PAGE_SIZE == base + i * PAGE_SIZE;
    }
  }

  lemma SpanCount(b: nat, i: nat)
    ensures var r := b % 512;
            i > 0 ==> (r + i + 512) / 512 == (r + i + 511) / 512 + if (b + i) % 512 == 0 then 1 else 0
    ensures (b % 512 + 512) / 512 == 1
  {
    var q, r := b / 512, b % 512;
    var k, t := (r + i) / 512, (r + i) % 512;
    assert b + i == (q + k) * 512 + t;
    ModOfSum(q + k, 512, t);
  }

  lemma SameTable(a: nat)
    requires (a / PAGE_SIZE + 1) % 512 != 0
    ensures PathOf(a + PAGE_SIZE)[..3] == PathOf(a)[..3]
  {
    var n := a / PAGE_SIZE;
    assert (a + PAGE_SIZE) / PAGE_SIZE == n + 1;
    assert (n + 1) / 512 == n / 512;
    SameHigh(a, n);
    SameHigh(a + PAGE_SIZE, n + 1);
  }

  lemma SameHigh(a: nat, n: nat)
    requires n == a / 0x1000
    ensures a / 0x20_0000 == n / 512 && a / 0x4000_0000 == n / 512 / 512 && a / 0x80_0000_0000 == n / 512 / 512 / 512
  {
  }

  lemma {:induction false} SpansGrow(base: nat, i: nat, n: nat)
    requires i <= n
    ensures Spans(base, i) <= Spans(base, n)
  {
  }

  /** Maps `n` fresh frames from `base` on, or takes everything back when there are not enough free pages. */
  method MapFreshPages(vmm: Vmm, base: u64, n: nat, flags: u64) returns (ok: bool, ghost frames: seq<u64>)
    requires vmm.Valid() && UserRange(base, n * PAGE_SIZE, vmm.hhdm) && vmm.pmm.end <= NO_EXECUTE_BIT
    requires SmallPages(vmm.View(), base, n)
    modifies vmm`mem, vmm`tables, vmm.pmm`totalAllocations, vmm.pmm`failedAllocations, vmm.pmm.bitmap
    ensures vmm.Valid()
    ensures Distinct(frames) && FramesOk(vmm.pmm.start, vmm.pmm.maxPages, frames)
    ensures ok ==>
              && |frames| == n
              && vmm.View() == MapFrames(old(vmm.View()), base, frames, flags, vmm.usingNx)
              && HoldingNow(vmm, Origin(old(vmm.pmm.Used()), old(vmm.mem), old(vmm.tables)), FrameSet(frames))
    ensures !ok ==>
              && |frames| < n
              && vmm.View() == old(vmm.View()) - RangePages(base, |frames|, PAGE_SIZE)
              && HoldingNow(vmm, Origin(old(vmm.pmm.Used()), old(vmm.mem), old(vmm.tables)),
                            if SetsNoExecute(flags, vmm.usingNx) then FrameSet(frames) else {})
              && Count(old(vmm.pmm.Used()), false) < n + 3 * Spans(base, n)
              && Count(old(vmm.pmm.Used()), false) <= |frames| + 1 + Added(old(vmm.tables), vmm.tables)
    ensures old(Open(vmm.mem, vmm.tables)) ==> Open(vmm.mem, vmm.tables)
    ensures OtherSpacesKept(old(vmm.mem), vmm.mem, old(vmm.tables), vmm.current)
  {
    hide Spans, Open, Missing, Added, Count, PathOf, Enough, Good, Flat, Holding, OtherSpacesKept, PageOf, Step,
         PageFor, InWindow, SetsNoExecute, NotLarge, RangePages;
    frames := [];
    ghost var o := Origin(vmm.pmm.Used(), vmm.mem, vmm.tables);
    ghost var v0, root := vmm.View(), vmm.current;
    HoldingNothing(vmm.pmm.start, o.used, o.mem, o.tables, root);
    SpacesKeptRefl(o.mem, o.tables, root);
    EnoughStarts(o, root, base);
    assert FrameSet([]) == {};
    for i := 0 to n
      invariant vmm.Valid() && |frames| == i && (Open(o.mem, o.tables) ==> Open(vmm.mem, vmm.tables))
      invariant Enough(o, vmm.pmm.Used(), vmm.mem, vmm.tables, root, base, i)
      invariant Distinct(frames) && FramesOk(vmm.pmm.start, vmm.pmm.maxPages, frames)
      invariant vmm.View() == MapFrames(v0, base, frames, flags, vmm.usingNx)
      invariant HoldingNow(vmm, o, FrameSet(frames))
      invariant OtherSpacesKept(o.mem, vmm.mem, o.tables, root)
    {
      StepInUserRange(base, i, n, vmm.hhdm);
      NotLargeAfterFrames(v0, base, frames, flags, vmm.usingNx, Step(base, i, PAGE_SIZE));
      ghost var m1, t1 := vmm.mem, vmm.tables;
      TablesKept(vmm.pmm.start, o.used, o.mem, o.tables, vmm.pmm.Used(), m1, t1, FrameSet(frames));
      ghost var u1 := vmm.pmm.Used();
      var frame := MapFresh(vmm, base + i * PAGE_SIZE, flags, o, FrameSet(frames));
      SpacesKeptThrough(o.mem, m1, vmm.mem, o.tables, t1, root);
      if frame == 0 {
        ghost var m2, t2 := vmm.mem, vmm.tables;
        EnoughFails(o, u1, m1, t1, root, base, i, n, t2);
        TablesKept(vmm.pmm.start, o.used, o.mem, o.tables, vmm.pmm.Used(), m2, t2, FrameSet(frames));
        Rollback(vmm, base, i, flags, frames, v0, o);
        SpacesKeptThrough(o.mem, m2, vmm.mem, o.tables, t2, root);
        return false, frames;
      }
      EnoughMore(o, u1, m1, t1, root, base, i, vmm.pmm.Used(), vmm.mem, vmm.tables);
      AddFrame(frames, frame);
      assert (frames + [frame])[..i] == frames;
      frames := frames + [frame];
    }
    ok := true;
  }

  /** The pages taken for `i` frames, and that the last table of the latest page is there. */
  ghost predicate Enough(o: Origin, used: seq<bool>, mem: Memory, tables: map<nat, Node>, root: nat, base: nat, i: nat)
  {
    && o.tables.Keys <= tables.Keys
    && Count(o.used, false) == Count(used, false) + i + Added(o.tables, tables)
    && Added(o.tables, tables) <= 3 * Spans(base, i)
    && (i > 0 ==> Missing(mem, root, PathOf(base + (i - 1) * PAGE_SIZE)) == 0)
  }

  lemma EnoughStarts(o: Origin, root: nat, base: nat)
    ensures Enough(o, o.used, o.mem, o.tables, root, base, 0)
  {
    hide Count, Added;
    AddedNone(o.tables);
  }

  lemma EnoughMore(o: Origin, used: seq<bool>, mem: Memory, tables: map<nat, Node>, root: nat, base: nat, i: nat,
                   used': seq<bool>, mem': Memory, tables': map<nat, Node>)
    requires Enough(o, used, mem, tables, root, base, i) && tables.Keys <= tables'.Keys
    requires Missing(mem', root, PathOf(base + i * PAGE_SIZE)) == 0
    requires Added(tables, tables') == Missing(mem, root, PathOf(base + i * PAGE_SIZE))
    requires Count(used, false) == Count(used', false) + 1 + Added(tables, tables')
    ensures Enough(o, used', mem', tables', root, base, i + 1)
  {
    hide Count, Added, Missing, Spans, PathOf;
    FreshCost(mem, root, base, i, i + 1);
    AddedTwice(o.tables, tables, tables');
  }

  lemma EnoughFails(o: Origin, used: seq<bool>, mem: Memory, tables: map<nat, Node>, root: nat, base: nat, i: nat,
                    n: nat, tables': map<nat, Node>)
    requires Enough(o, used, mem, tables, root, base, i) && tables.Keys <= tables'.Keys && i < n
    requires Count(used, false) <= Missing(mem, root, PathOf(base + i * PAGE_SIZE))
    requires Count(used, false) <= 1 + Added(tables, tables')
    ensures Count(o.used, false) < n + 3 * Spans(base, n)
    ensures Count(o.used, false) <= i + 1 + Added(o.tables, tables')
  {
    hide Count, Added, Missing, Spans, PathOf;
    FreshCost(mem, root, base, i, n);
    AddedTwice(o.tables, tables, tables');
  }

  /** What the tables of the next page can cost. */
  lemma FreshCost(mem: Memory, root: nat, base: nat, i: nat, n: nat)
    requires i < n && (i > 0 ==> Missing(mem, root, PathOf(base + (i - 1) * PAGE_SIZE)) == 0)
    ensures Missing(mem, root, PathOf(base + i * PAGE_SIZE)) + 3 * Spans(base, i) <= 3 * Spans(base, i + 1)
    ensures Spans(base, i + 1) <= Spans(base, n)
  {
    hide Missing, Spans, PathOf;
    SpanStep(base, i);
    SpansGrow(base, i + 1, n);
    if i > 0 && (base / PAGE_SIZE + i) % 512 != 0 {
      MissingPrefix(mem, root, PathOf(base + i * PAGE_SIZE), PathOf(base + (i - 1) * PAGE_SIZE));
    }
  }

  lemma NotLargeAfterFrames(view: map<nat, Translation>, base: nat, frames: seq<u64>, flags: u64, nx: bool, addr: nat)
    requires forall i :: 0 <= i < |frames| ==> frames[i] % PAGE_SIZE == 0
    requires NotLarge(view, addr)
    ensures NotLarge(MapFrames(view, base, frames, flags, nx), addr)
  {
    hide PageOf, Step, PageFor;
    if frames != [] {
      NotLargeAfterFrames(view, base, frames[..|frames| - 1], flags, nx, addr);
    }
  }

  lemma TablesKept(start: nat, u0: seq<bool>, m0: Memory, t0: map<nat, Node>, used: seq<bool>, mem: Memory,
                   tables: map<nat, Node>, held: set<nat>)
    requires Holding(start, u0, m0, t0, used, mem, tables, held)
    ensures forall g :: g in t0 ==> g in tables && tables[g] == t0[g]
  {
  }

  lemma SpacesKeptThrough(m0: Memory, m1: Memory, m2: Memory, t0: map<nat, Node>, t1: map<nat, Node>, root: nat)
    requires OtherSpacesKept(m0, m1, t0, root) && OtherSpacesKept(m1, m2, t1, root)
    requires forall g :: g in t0 ==> g in t1 && t1[g] == t0[g]
    ensures OtherSpacesKept(m0, m2, t0, root)
  {
    hide Walk, Indices;
    forall r, q: nat | IsRoot(t0, r) && r != root && q < LOWER_PAGES
      ensures Walk(m2, r, Indices(q)) == Walk(m0, r, Indices(q))
    {
      assert IsRoot(t1, r);
      assert Walk(m1, r, Indices(q)) == Walk(m0, r, Indices(q));
    }
  }

  lemma AddFrame(frames: seq<u64>, frame: u64)
    requires Distinct(frames) && frame !in FrameSet(frames)
    ensures Distinct(frames + [frame])
    ensures FrameSet(frames + [frame]) == FrameSet(frames) + {frame}
  {
    var s := frames + [frame];
    forall f | f in FrameSet(frames) ensures f in FrameSet(s) {
      var i :| 0 <= i < |frames| && frames[i] == f;
      assert s[i] == f;
    }
    assert s[|frames|] == frame;
  }

  /**
   vmm_allocate for user memory. Success maps the first fitting free area to
   distinct zeroed frames that were free before, for user code and with the rights
   of the request and the area; failure gives back the area and every data frame
   (unless no-execute hides them) and unmaps what it mapped. With a fitting area it
   fails only when the free pages run out: n pages with three tables for each 2 MiB
   they touch are always enough.
   */
  method Allocate(vmm: Vmm, size: u64, flags: u64) returns (addr: u64, ghost k: nat, ghost frames: seq<u64>)
    requires vmm.Valid() && Bit(flags, USER) && vmm.pmm.end <= NO_EXECUTE_BIT
    requires forall a :: a in vmm.userAreas ==> UserRange(a.base, a.size, vmm.hhdm)
    requires forall a :: a in vmm.userAreas ==> SmallPages(vmm.View(), a.base, a.size / PAGE_SIZE)
    modifies vmm`mem, vmm`tables, vmm`userAreas, vmm.pmm`totalAllocations, vmm.pmm`failedAllocations, vmm.pmm.bitmap
    ensures vmm.Valid()
    ensures Distinct(frames) && FramesOk(vmm.pmm.start, vmm.pmm.maxPages, frames)
    ensures k <= |old(vmm.userAreas)|
    ensures k < |old(vmm.userAreas)| ==> Fits(old(vmm.userAreas)[k], PageCount(size) * PAGE_SIZE)
    ensures size > 0 ==> forall j :: 0 <= j < k ==> !Fits(old(vmm.userAreas)[j], PageCount(size) * PAGE_SIZE)
    ensures addr != 0 ==>
              && size > 0 && k < |old(vmm.userAreas)| && addr == old(vmm.userAreas)[k].base
              && vmm.userAreas == old(vmm.userAreas)[k := old(vmm.userAreas)[k].(isUsed := true)]
              && |frames| == PageCount(size)
              && vmm.View() == MapFrames(old(vmm.View()), addr, frames, Or64(flags, old(vmm.userAreas)[k].flags),
                                         vmm.usingNx)
              && HoldingNow(vmm, Origin(old(vmm.pmm.Used()), old(vmm.mem), old(vmm.tables)), FrameSet(frames))
    ensures addr == 0 ==>
              && vmm.userAreas == old(vmm.userAreas)
              && (k >= |old(vmm.userAreas)| ==>
                    && frames == [] && vmm.mem == old(vmm.mem) && vmm.tables == old(vmm.tables)
                    && vmm.pmm.Used() == old(vmm.pmm.Used()))
              && (k < |old(vmm.userAreas)| ==>
                    && |frames| <= PageCount(size)
                    && vmm.View() == old(vmm.View()) - RangePages(old(vmm.userAreas)[k].base, |frames|, PAGE_SIZE)
                    && HoldingNow(vmm, Origin(old(vmm.pmm.Used()), old(vmm.mem), old(vmm.tables)),
                                  if SetsNoExecute(Or64(flags, old(vmm.userAreas)[k].flags), vmm.usingNx)
                                  then FrameSet(frames) else {}))
    ensures addr == 0 && size > 0 && k < |old(vmm.userAreas)| ==>
              var n := PageCount(size);
              && Count(old(vmm.pmm.Used()), false) < n + 3 * Spans(old(vmm.userAreas)[k].base, n)
              && Count(old(vmm.pmm.Used()), false) <= |frames| + 1 + Added(old(vmm.tables), vmm.tables)
    ensures addr != 0 ==>
              UserPages(vmm.View(), addr, |frames|, Or64(flags, old(vmm.userAreas)[k].flags), vmm.usingNx)
    ensures old(Open(vmm.mem, vmm.tables)) ==> Open(vmm.mem, vmm.tables)
    ensures OtherSpacesKept(old(vmm.mem), vmm.mem, old(vmm.tables), vmm.current)
  {
    hide Good, Flat, Holding, OtherSpacesKept, MapFrames, RangePages, FrameSet, SetsNoExecute, Or64, Bit, Open, Added,
         Count, Spans, UserPages;
    ghost var areas := vmm.userAreas;
    SpacesKeptRefl(vmm.mem, vmm.tables, vmm.current);
    if size == 0 {
      return 0, |areas|, [];
    }
    var pages := PageCount(size);
    var i := FindFreeArea(vmm.userAreas, pages * PAGE_SIZE);
    if i >= |vmm.userAreas| {
      return 0, i, [];
    }
    var area := vmm.userAreas[i];
    vmm.userAreas := vmm.userAreas[i := area.(isUsed := true)];
    FewerPages(vmm.View(), area, pages);
    var ok;
    ok, frames := MapFreshPages(vmm, area.base, pages, Or64(flags, area.flags));
    if !ok {
      vmm.userAreas := vmm.userAreas[i := vmm.userAreas[i].(isUsed := false)];
      return 0, i, frames;
    }
    AllUserPages(old(vmm.View()), area.base, frames, flags, area.flags, vmm.usingNx);
    return area.base, i, frames;
  }

  /** Each page of the range is there for user code, with the rights of `flags`. */
  ghost predicate UserPages(view: map<nat, Translation>, base: nat, n: nat, flags: u64, nx: bool) {
    forall i: nat :: i < n ==>
      var p := PageOf(Step(base, i, PAGE_SIZE));
      p in view && Carries(view[p], flags, nx) && Bit(view[p].bits, 2)
  }

  lemma AllUserPages(view: map<nat, Translation>, base: nat, frames: seq<u64>, flags: u64, areaFlags: u64, nx: bool)
    requires forall i :: 0 <= i < |frames| ==> frames[i] % PAGE_SIZE == 0
    requires base + |frames| * PAGE_SIZE <= PAGES * PAGE_SIZE && Bit(flags, USER)
    ensures UserPages(MapFrames(view, base, frames, Or64(flags, areaFlags), nx), base, |frames|,
                      Or64(flags, areaFlags), nx)
  {
    hide MapFrames, PageOf, Step, PageFor, Or64, Bit;
    var both := Or64(flags, areaFlags);
    MapFramesAt(view, base, frames, both, nx);
    forall i: nat | i < |frames|
      ensures Carries(PageFor(frames[i], both, nx), both, nx) && Bit(PageFor(frames[i], both, nx).bits, 2)
    {
      PageCarries(frames[i], both, nx);
      assert Bit(both, 2);
    }
  }

  lemma FewerPages(view: map<nat, Translation>, a: Region, n: nat)
    requires SmallPages(view, a.base, a.size / PAGE_SIZE) && n * PAGE_SIZE <= a.size
    ensures SmallPages(view, a.base, n)
  {
  }

  // ---------- vmm_free ----------

  /** The physical addresses behind `n` consecutive pages; 0 for an unmapped page. */
  ghost function PhysRange(view: map<nat, Translation>, virt: nat, n: nat): (r: seq<nat>)
    ensures |r| == n
  {
    if n == 0 then [] else PhysRange(view, virt, n - 1) + [PhysOf(view, Step(virt, n - 1, PAGE_SIZE))]
  }

  /** The pages of a range that are mapped to a nonzero address. */
  ghost function MappedPages(view: map<nat, Translation>, virt: nat, n: nat): set<nat> {
    if n == 0 then {}
    else MappedPages(view, virt, n - 1)
         + (if PhysOf(view, Step(virt, n - 1, PAGE_SIZE)) != 0 then {PageOf(Step(virt, n - 1, PAGE_SIZE))} else {})
  }

  lemma {:induction false} MappedInRange(view: map<nat, Translation>, virt: nat, n: nat)
    ensures MappedPages(view, virt, n) <= RangePages(virt, n, PAGE_SIZE)
  {
    hide PageOf, Step, PhysOf;
    if n > 0 {
      MappedInRange(view, virt, n - 1);
    }
  }

  ghost predicate NoTableBehind(view: map<nat, Translation>, tables: map<nat, Node>, virt: nat, n: nat) {
    forall i: nat :: i < n ==> PhysOf(view, Step(virt, i, PAGE_SIZE)) !in tables
  }

  function FirstAt(areas: seq<Region>, base: nat): (k: nat)
    ensures k <= |areas|
    ensures k < |areas| ==> areas[k].base == base
    ensures forall j :: 0 <= j < k ==> areas[j].base != base
  {
    if areas == [] then 0 else if areas[0].base == base then 0 else 1 + FirstAt(areas[1..], base)
  }

  /**
   vmm_free below the direct mapping: unmaps every mapped page of the range,
   frees what was behind it, and marks the area that starts there unused.
   */
  method Free(vmm: Vmm, virt: u64, size: u64)
    requires vmm.Valid()
    requires virt > 0 && size > 0 ==> UserRange(virt, PageCount(size) * PAGE_SIZE, vmm.hhdm)
    requires virt > 0 && size > 0 ==>
               && SmallPages(vmm.View(), virt, PageCount(size))
               && NoTableBehind(vmm.View(), vmm.tables, virt, PageCount(size))
    modifies vmm`mem, vmm`userAreas, vmm.pmm.bitmap
    ensures vmm.Valid()
    ensures virt == 0 || size == 0 ==>
              vmm.mem == old(vmm.mem) && vmm.userAreas == old(vmm.userAreas) && vmm.pmm.Used() == old(vmm.pmm.Used())
    ensures virt > 0 && size > 0 ==>
              && vmm.View() == old(vmm.View()) - MappedPages(old(vmm.View()), virt, PageCount(size))
              && vmm.pmm.Used() == FreeFrames(old(vmm.pmm.Used()), vmm.pmm.start,
                                              PhysRange(old(vmm.View()), virt, PageCount(size)))
              && var k := FirstAt(old(vmm.userAreas), virt);
                 vmm.userAreas == if k < |old(vmm.userAreas)|
                                  then old(vmm.userAreas)[k := old(vmm.userAreas)[k].(isUsed := false)]
                                  else old(vmm.userAreas)
    ensures old(Open(vmm.mem, vmm.tables)) ==> Open(vmm.mem, vmm.tables)
    ensures OtherSpacesKept(old(vmm.mem), vmm.mem, vmm.tables, vmm.current)
    ensures DataKept(old(vmm.mem), vmm.mem, vmm.tables)
  {
    hide Good, Flat, OtherSpacesKept, PageOf, Step, PhysOf, FreeFrames, PhysRange, MappedPages, Open;
    SpacesKeptRefl(vmm.mem, vmm.tables, vmm.current);
    if virt == 0 || size == 0 {
      return;
    }
    FreePagesBehind(vmm, virt, PageCount(size));
    var i := 0;
    while i < |vmm.userAreas|
      invariant i <= |vmm.userAreas| && vmm.userAreas == old(vmm.userAreas)
      invariant forall j :: 0 <= j < i ==> vmm.userAreas[j].base != virt
    {
      if vmm.userAreas[i].base == virt {
        vmm.userAreas := vmm.userAreas[i := vmm.userAreas[i].(isUsed := false)];
        return;
      }
      i := i + 1;
    }
  }

  /** The page loop of vmm_free. */
  method FreePagesBehind(vmm: Vmm, virt: u64, n: nat)
    requires vmm.Valid() && UserRange(virt, n * PAGE_SIZE, vmm.hhdm)
    requires SmallPages(vmm.View(), virt, n) && NoTableBehind(vmm.View(), vmm.tables, virt, n)
    modifies vmm`mem, vmm.pmm.bitmap
    ensures vmm.Valid()
    ensures vmm.View() == old(vmm.View()) - MappedPages(old(vmm.View()), virt, n)
    ensures vmm.pmm.Used() == FreeFrames(old(vmm.pmm.Used()), vmm.pmm.start, PhysRange(old(vmm.View()), virt, n))
    ensures old(Open(vmm.mem, vmm.tables)) ==> Open(vmm.mem, vmm.tables)
    ensures OtherSpacesKept(old(vmm.mem), vmm.mem, vmm.tables, vmm.current)
    ensures DataKept(old(vmm.mem), vmm.mem, vmm.tables)
  {
    hide Good, Flat, OtherSpacesKept, DataKept, PageOf, Step, PhysOf, FreeOne, Wrap64, Open, MappedPages, FreeFrames,
         PhysRange;
    DataKeptRefl(vmm.mem, vmm.tables);
    ghost var v0, u0, m0, root := vmm.View(), vmm.pmm.Used(), vmm.mem, vmm.current;
    NothingFreed(v0, u0, vmm.pmm.start, virt);
    SpacesKeptRefl(m0, vmm.tables, root);
    for i := 0 to n
      invariant vmm.Valid() && (old(Open(vmm.mem, vmm.tables)) ==> Open(vmm.mem, vmm.tables))
      invariant vmm.View() == v0 - MappedPages(v0, virt, i)
      invariant vmm.pmm.Used() == FreeFrames(u0, vmm.pmm.start, PhysRange(v0, virt, i))
      invariant OtherSpacesKept(m0, vmm.mem, vmm.tables, root)
      invariant DataKept(m0, vmm.mem, vmm.tables)
    {
      StepInUserRange(virt, i, n, vmm.hhdm);
      PhysStillThere(v0, virt, i);
      OneMoreFreed(v0, u0, vmm.pmm.start, virt, i);
      ghost var m1 := vmm.mem;
      FreeBehind(vmm, virt + i * PAGE_SIZE);
      SpacesKeptChain(m0, m1, vmm.mem, vmm.tables, root);
      DataKeptChain(m0, m1, vmm.mem, vmm.tables);
    }
  }

  lemma NothingFreed(view: map<nat, Translation>, used: seq<bool>, start: nat, virt: nat)
    ensures view - MappedPages(view, virt, 0) == view && FreeFrames(used, start, PhysRange(view, virt, 0)) == used
  {
  }

  lemma OneMoreFreed(view: map<nat, Translation>, used: seq<bool>, start: nat, virt: nat, i: nat)
    ensures var addr := Step(virt, i, PAGE_SIZE);
            && view - MappedPages(view, virt, i + 1)
               == (if PhysOf(view, addr) != 0 then view - MappedPages(view, virt, i) - {PageOf(addr)}
                   else view - MappedPages(view, virt, i))
            && FreeFrames(used, start, PhysRange(view, virt, i + 1))
               == FreeOne(FreeFrames(used, start, PhysRange(view, virt, i)), start, PhysOf(view, addr))
  {
    hide PageOf, Step, PhysOf, FreeOne;
    assert PhysRange(view, virt, i + 1)[..i] == PhysRange(view, virt, i);
  }

  lemma PhysStillThere(view: map<nat, Translation>, virt: nat, i: nat)
    requires virt + i * PAGE_SIZE < PAGES * PAGE_SIZE
    ensures PageOf(Step(virt, i, PAGE_SIZE)) !in MappedPages(view, virt, i)
    ensures PhysOf(view - MappedPages(view, virt, i), Step(virt, i, PAGE_SIZE))
            == PhysOf(view, Step(virt, i, PAGE_SIZE))
  {
    hide PageOf, Step;
    StepNotInRange(virt, i, i);
    MappedInRange(view, virt, i);
  }

  /** One page of vmm_free. */
  method FreeBehind(vmm: Vmm, addr: u64)
    requires vmm.Valid() && 0 < addr < vmm.hhdm && addr % PAGE_SIZE == 0
    requires NotLarge(vmm.View(), addr) && PhysOf(vmm.View(), addr) !in vmm.tables
    modifies vmm`mem, vmm.pmm.bitmap
    ensures vmm.Valid()
    ensures vmm.View() == if PhysOf(old(vmm.View()), addr) != 0 then old(vmm.View()) - {PageOf(addr)}
            else old(vmm.View())
    ensures vmm.pmm.Used() == FreeOne(old(vmm.pmm.Used()), vmm.pmm.start, PhysOf(old(vmm.View()), addr))
    ensures old(Open(vmm.mem, vmm.tables)) ==> Open(vmm.mem, vmm.tables)
    ensures OtherSpacesKept(old(vmm.mem), vmm.mem, vmm.tables, vmm.current)
    ensures DataKept(old(vmm.mem), vmm.mem, vmm.tables)
  {
    hide Good, Flat, OtherSpacesKept, PageOf, FreeOne, PagesBelow, Open;
    ghost var used := vmm.pmm.Used();
    var phys := vmm.VirtToPhys(addr);
    if phys == 0 {
      FreeOutside(vmm.pmm.start, used, 0);
      SpacesKeptRefl(vmm.mem, vmm.tables, vmm.current);
      return;
    }
    PagesBelowFour(PageOf(addr));
    var unmapped, depth := vmm.UnmapPage(addr);
    GoodGive(vmm.pmm.start, used, vmm.mem, vmm.tables, vmm.current, phys);
    vmm.pmm.FreePage(phys);
  }

  lemma DataKeptRefl(mem: Memory, tables: map<nat, Node>)
    ensures DataKept(mem, mem, tables)
  {
  }

  lemma DataKeptChain(m0: Memory, m1: Memory, m2: Memory, tables: map<nat, Node>)
    requires DataKept(m0, m1, tables) && DataKept(m1, m2, tables)
    ensures DataKept(m0, m2, tables)
  {
  }

  // ---------- allocating and freeing again ----------

  lemma {:induction false} FramesBehind(view: map<nat, Translation>, base: nat, frames: seq<u64>, flags: u64, nx: bool,
                                        n: nat)
    requires forall i :: 0 <= i < |frames| ==> frames[i] % PAGE_SIZE == 0 && frames[i] > 0
    requires UserRange(base, |frames| * PAGE_SIZE, PAGES * PAGE_SIZE) && !SetsNoExecute(flags, nx) && n <= |frames|
    ensures forall i: nat :: i < n ==>
              PhysOf(MapFrames(view, base, frames, flags, nx), Step(base, i, PAGE_SIZE)) == frames[i]
    ensures PhysRange(MapFrames(view, base, frames, flags, nx), base, n) == frames[..n]
    ensures MappedPages(MapFrames(view, base, frames, flags, nx), base, n) == RangePages(base, n, PAGE_SIZE)
  {
    hide PageOf, Step, MapFrames;
    if n > 0 {
      FramesBehind(view, base, frames, flags, nx, n - 1);
      FrameStillMapped(view, base, frames, flags, nx, n - 1);
      AlignedStep(base, n - 1);
      assert frames[..n] == frames[..n - 1] + [frames[n - 1]];
    }
  }

  lemma AlignedStep(base: nat, i: nat)
    requires base % PAGE_SIZE == 0 && base + i * PAGE_SIZE < PAGES * PAGE_SIZE
    ensures Step(base, i, PAGE_SIZE) % PAGE_SIZE == 0
  {
  }

  lemma {:induction false} FreeingReturns(start: nat, u0: seq<bool>, used: seq<bool>, taken: set<nat>,
                                          frames: seq<u64>)
    requires Took(start, u0, used, taken + FrameSet(frames)) && Distinct(frames) && taken !! FrameSet(frames)
    requires start % PAGE_SIZE == 0
    ensures Took(start, u0, FreeFrames(used, start, frames), taken)
    decreases |frames|
  {
    hide Took, FreeOne;
    if frames == [] {
      assert taken + FrameSet(frames) == taken;
    } else {
      var n := |frames| - 1;
      var init, last := frames[..n], frames[n];
      assert init + [last] == frames;
      LastNew(frames);
      AddFrame(init, last);
      assert taken + FrameSet(frames) == (taken + {last}) + FrameSet(init);
      FreeingReturns(start, u0, used, taken + {last}, init);
      GiveBack(start, u0, FreeFrames(used, start, init), taken, last);
    }
  }

  lemma LastNew(frames: seq<u64>)
    requires frames != [] && Distinct(frames)
    ensures frames[|frames| - 1] !in FrameSet(frames[..|frames| - 1])
    ensures frames[|frames| - 1] in FrameSet(frames)
    ensures Distinct(frames[..|frames| - 1])
  {
  }

  /**
   vmm_allocate followed by vmm_free of the same size, where the areas that are not
   in use are not mapped: whether or not the allocation succeeds, the translations,
   the areas and the allocator are as before, except for tables left behind.
   */
  method AllocateThenFree(vmm: Vmm, size: u64, flags: u64) returns (addr: u64)
    requires vmm.Valid() && Bit(flags, USER) && vmm.pmm.end <= NO_EXECUTE_BIT
    requires forall a :: a in vmm.userAreas ==> UserRange(a.base, a.size, vmm.hhdm)
    requires forall a :: a in vmm.userAreas ==>
               if a.isUsed then SmallPages(vmm.View(), a.base, a.size / PAGE_SIZE) else Untouched(vmm.View(), a)
    requires forall a :: a in vmm.userAreas ==> !SetsNoExecute(Or64(flags, a.flags), vmm.usingNx)
    requires forall i, j :: 0 <= i < j < |vmm.userAreas| ==> vmm.userAreas[i].base != vmm.userAreas[j].base
    modifies vmm`mem, vmm`tables, vmm`userAreas, vmm.pmm`totalAllocations, vmm.pmm`failedAllocations, vmm.pmm.bitmap
    ensures vmm.Valid()
    ensures vmm.View() == old(vmm.View())
    ensures vmm.userAreas == old(vmm.userAreas)
    ensures Took(vmm.pmm.start, old(vmm.pmm.Used()), vmm.pmm.Used(), vmm.tables.Keys - old(vmm.tables).Keys)
  {
    hide Good, Flat, OtherSpacesKept, PageOf, Step, MapFrames, RangePages, SetsNoExecute, Or64, Bit, Took, InWindow;
    ghost var v0, o, areas := vmm.View(), Origin(vmm.pmm.Used(), vmm.mem, vmm.tables), vmm.userAreas;
    forall a | a in areas ensures SmallPages(v0, a.base, a.size / PAGE_SIZE) {
      if !a.isUsed {
        UntouchedIsSmall(v0, a);
      }
    }
    ghost var k, frames;
    addr, k, frames := Allocate(vmm, size, flags);
    if addr == 0 {
      NoFrames();
      if k < |areas| {
        UntouchedRange(v0, areas[k], |frames|);
        RestoredIff(v0, areas[k].base, |frames|, PAGE_SIZE);
      } else {
        HoldingNothing(vmm.pmm.start, o.used, o.mem, o.tables, vmm.current);
      }
      HoldingTook(vmm.pmm.start, o, vmm.pmm.Used(), vmm.mem, vmm.tables, []);
      return;
    }
    ghost var marked := vmm.userAreas;
    assert marked[k].base == addr && forall j :: 0 <= j < |marked| ==> marked[j].base == areas[j].base;
    assert FirstAt(marked, addr) == k;
    FreeAllocated(vmm, addr, size, areas[k], Or64(flags, areas[k].flags), frames, v0, o);
  }

  lemma NoFrames()
    ensures FrameSet([]) == {}
  {
  }

  /** vmm_free of what vmm_allocate has just mapped at the area `a`. */
  method FreeAllocated(vmm: Vmm, addr: u64, size: u64, ghost a: Region, ghost flags: u64, ghost frames: seq<u64>,
                       ghost v0: map<nat, Translation>, ghost o: Origin)
    requires vmm.Valid() && size > 0 && addr == a.base && a.size >= PageCount(size) * PAGE_SIZE
    requires UserRange(a.base, a.size, vmm.hhdm) && Untouched(v0, a) && !SetsNoExecute(flags, vmm.usingNx)
    requires |frames| == PageCount(size) && Distinct(frames) && FramesOk(vmm.pmm.start, vmm.pmm.maxPages, frames)
    requires vmm.View() == MapFrames(v0, addr, frames, flags, vmm.usingNx)
    requires HoldingNow(vmm, o, FrameSet(frames))
    modifies vmm`mem, vmm`userAreas, vmm.pmm.bitmap
    ensures vmm.Valid() && vmm.View() == v0
    ensures FirstAt(old(vmm.userAreas), addr) < |old(vmm.userAreas)| ==>
              vmm.userAreas == old(vmm.userAreas)[FirstAt(old(vmm.userAreas), addr) :=
                                 old(vmm.userAreas)[FirstAt(old(vmm.userAreas), addr)].(isUsed := false)]
    ensures Took(vmm.pmm.start, o.used, vmm.pmm.Used(), vmm.tables.Keys - o.tables.Keys)
  {
    hide Good, Flat, OtherSpacesKept, DataKept, PageOf, Step, MapFrames, RangePages, SetsNoExecute, Took, Holding,
         FirstAt, InWindow, PhysRange, MappedPages, FreeFrames, FrameSet;
    ghost var used, start := vmm.pmm.Used(), vmm.pmm.start;
    UntouchedIsSmall(v0, a);
    FewerPages(v0, a, |frames|);
    NonzeroFrames(start, vmm.pmm.maxPages, frames);
    ReadyToFree(v0, a.base, frames, flags, vmm.usingNx, start, o, used, vmm.mem, vmm.tables);
    FramesBehind(v0, a.base, frames, flags, vmm.usingNx, |frames|);
    HoldingTook(start, o, used, vmm.mem, vmm.tables, frames);
    Free(vmm, addr, size);
    assert frames[..|frames|] == frames;
    FramesRolledBack(v0, a.base, frames, flags, vmm.usingNx);
    UntouchedRange(v0, a, |frames|);
    RestoredIff(v0, a.base, |frames|, PAGE_SIZE);
    FreeingReturns(start, o.used, used, vmm.tables.Keys - o.tables.Keys, frames);
  }

  lemma HoldingTook(start: nat, o: Origin, used: seq<bool>, mem: Memory, tables: map<nat, Node>, frames: seq<u64>)
    requires Holding(start, o.used, o.mem, o.tables, used, mem, tables, FrameSet(frames))
    ensures Took(start, o.used, used, tables.Keys - o.tables.Keys + FrameSet(frames))
    ensures tables.Keys - o.tables.Keys !! FrameSet(frames)
    ensures frames == [] ==> Took(start, o.used, used, tables.Keys - o.tables.Keys)
  {
    hide Took, EmptyTable;
    assert frames == [] ==> tables.Keys - o.tables.Keys + FrameSet(frames) == tables.Keys - o.tables.Keys;
  }

  lemma NonzeroFrames(start: nat, pages: nat, frames: seq<u64>)
    requires FramesOk(start, pages, frames) && start > 0
    ensures forall i :: 0 <= i < |frames| ==> frames[i] % PAGE_SIZE == 0 && frames[i] > 0
  {
  }

  lemma ReadyToFree(v0: map<nat, Translation>, base: nat, frames: seq<u64>, flags: u64, nx: bool,
                    start: nat, o: Origin, used: seq<bool>, mem: Memory, tables: map<nat, Node>)
    requires forall i :: 0 <= i < |frames| ==> frames[i] % PAGE_SIZE == 0 && frames[i] > 0
    requires UserRange(base, |frames| * PAGE_SIZE, PAGES * PAGE_SIZE) && !SetsNoExecute(flags, nx)
    requires SmallPages(v0, base, |frames|)
    requires Holding(start, o.used, o.mem, o.tables, used, mem, tables, FrameSet(frames))
    ensures SmallPages(MapFrames(v0, base, frames, flags, nx), base, |frames|)
    ensures NoTableBehind(MapFrames(v0, base, frames, flags, nx), tables, base, |frames|)
  {
    hide MapFrames, PageOf, Step, PhysOf, EmptyTable, Took;
    FramesBehind(v0, base, frames, flags, nx, |frames|);
    forall i: nat | i < |frames|
      ensures NotLarge(MapFrames(v0, base, frames, flags, nx), Step(base, i, PAGE_SIZE)) && frames[i] !in tables
    {
      NotLargeAfterFrames(v0, base, frames, flags, nx, Step(base, i, PAGE_SIZE));
      assert frames[i] in FrameSet(frames);
    }
  }

  lemma {:induction false} UntouchedRange(view: map<nat, Translation>, a: Region, n: nat)
    requires Untouched(view, a) && n * PAGE_SIZE <= a.size
    ensures RangePages(a.base, n, PAGE_SIZE) !! view.Keys
  {
    hide PageOf, Step;
    if n > 0 {
      UntouchedRange(view, a, n - 1);
      assert (n - 1) * PAGE_SIZE < a.size;
    }
  }

  ghost predicate Untouched(view: map<nat, Translation>, a: Region) {
    forall i: nat :: i * PAGE_SIZE < a.size ==> PageOf(Step(a.base, i, PAGE_SIZE)) !in view
  }

  lemma UntouchedIsSmall(view: map<nat, Translation>, a: Region)
    requires Untouched(view, a)
    ensures SmallPages(view, a.base, a.size / PAGE_SIZE)
  {
    forall i: nat | i < a.size / PAGE_SIZE ensures NotLarge(view, Step(a.base, i, PAGE_SIZE)) {
      assert i * PAGE_SIZE < a.size;
    }
  }
}
