/**
 Mapping ranges of pages (kernel/src/memory/vmm.c:626-697): the mapping loops
 with their rollback, and whole runs of map and unmap calls.
 */
module VmmRanges {
  import opened Bytes
  import opened Bitmaps
  import opened PageTables
  import opened PageRights
  import opened VirtualMemory

  const TWO_MEGABYTES: nat := 0x20_0000

  /** The `i`-th address of a range, with 64-bit wrap-around. */
  function Step(base: nat, i: nat, stride: nat): u64 {
    Wrap64(base + i * stride)
  }

  /** The `i`-th page of a range without wrap-around. */
  function PageAt(virt: nat, i: nat): nat {
    PageOf(virt + i * PAGE_SIZE)
  }

  ghost function RangePages(virt: nat, n: nat, stride: nat): set<nat> {
    if n == 0 then {} else RangePages(virt, n - 1, stride) + {PageOf(Step(virt, n - 1, stride))}
  }

  /** A flat view after mapping the first `n` pages of a range. */
  ghost function MapRange(view: map<nat, Translation>, virt: nat, phys: nat, n: nat, stride: nat, flags: u64,
                          nx: bool): map<nat, Translation>
  {
    if n == 0 then view
    else MapRange(view, virt, phys, n - 1, stride, flags, nx)
         [PageOf(Step(virt, n - 1, stride)) := PageFor(FrameOf(Step(phys, n - 1, stride)), flags, nx)]
  }

  lemma {:induction false} MapRangeDomain(view: map<nat, Translation>, virt: nat, phys: nat, n: nat, stride: nat,
                                          flags: u64, nx: bool)
    ensures MapRange(view, virt, phys, n, stride, flags, nx).Keys == view.Keys + RangePages(virt, n, stride)
    ensures forall p :: p in RangePages(virt, n, stride) ==> MapRange(view, virt, phys, n, stride, flags, nx)[p].Page4K?
    ensures forall p :: p in view && p !in RangePages(virt, n, stride) ==>
              MapRange(view, virt, phys, n, stride, flags, nx)[p] == view[p]
  {
    hide PageOf, Step, FrameOf, PageFor;
    if n > 0 {
      MapRangeDomain(view, virt, phys, n - 1, stride, flags, nx);
    }
  }

  /** Taking the range out again leaves what was mapped outside it. */
  lemma RollbackLeaves(view: map<nat, Translation>, virt: nat, phys: nat, n: nat, stride: nat, flags: u64, nx: bool)
    ensures MapRange(view, virt, phys, n, stride, flags, nx) - RangePages(virt, n, stride)
            == view - RangePages(virt, n, stride)
  {
    hide PageOf, Step, FrameOf, PageFor, MapRange, RangePages;
    MapRangeDomain(view, virt, phys, n, stride, flags, nx);
  }

  /** Taking pages out of a view leaves it as it is exactly when none of them was in it. */
  lemma RestoredIff(view: map<nat, Translation>, virt: nat, n: nat, stride: nat)
    ensures view - RangePages(virt, n, stride) == view <==> RangePages(virt, n, stride) !! view.Keys
  {
    hide RangePages;
    var pages := RangePages(virt, n, stride);
    if view - pages == view {
      assert forall p :: p in pages ==> p !in view - pages;
    }
  }

  /** Why a single page cannot be mapped: a null address, or no free page for a table. */
  ghost predicate CannotMap(virt: u64, phys: u64, used: seq<bool>) {
    virt == 0 || phys == 0 || forall i: nat :: !FreeRun(used, i, 1)
  }

  /** The loop that maps one page per stride and takes back what it mapped when a page fails. */
  method MapStride(vmm: Vmm, virt: u64, phys: u64, count: nat, stride: nat, flags: u64)
    returns (ok: bool, ghost done: nat)
    requires vmm.Valid()
    requires forall i: nat :: i < count ==> NotLarge(vmm.View(), Step(virt, i, stride))
    modifies vmm`mem, vmm`tables, vmm.pmm`totalAllocations, vmm.pmm`failedAllocations, vmm.pmm.bitmap
    ensures vmm.Valid()
    ensures ok ==> vmm.View() == MapRange(old(vmm.View()), virt, phys, count, stride, flags, vmm.usingNx)
    ensures ok ==> forall i: nat :: i < count ==> Step(virt, i, stride) != 0
    ensures !ok ==> done < count && vmm.View() == old(vmm.View()) - RangePages(virt, done, stride)
    ensures !ok ==> CannotMap(Step(virt, done, stride), Step(phys, done, stride), vmm.pmm.Used())
    ensures old(Open(vmm.mem, vmm.tables)) && (forall i: nat :: i < count ==> Step(virt, i, stride) < NO_EXECUTE_BIT)
            ==> Open(vmm.mem, vmm.tables)
    ensures OtherSpacesKept(old(vmm.mem), vmm.mem, old(vmm.tables), vmm.current)
    ensures GrewTables(vmm.pmm.start, old(vmm.pmm.Used()), old(vmm.mem), old(vmm.tables),
                       vmm.pmm.Used(), vmm.mem, vmm.tables)
  {
    hide Good, Flat, Walk, PageOf, FrameOf, PageFor, Step, GrewTables, OtherSpacesKept, Open, NewLinksOpen, Missing,
         Carries, Added, Count, PathOf;
    ghost var start, u0, m0, t0, v0 := vmm.pmm.start, vmm.pmm.Used(), vmm.mem, vmm.tables, vmm.View();
    ghost var open := Open(m0, t0) && forall i: nat :: i < count ==> Step(virt, i, stride) < NO_EXECUTE_BIT;
    GrewTablesNothing(start, u0, m0, t0, vmm.current);
    for i := 0 to count
      invariant vmm.Valid() && (open ==> Open(vmm.mem, vmm.tables))
      invariant vmm.View() == MapRange(v0, virt, phys, i, stride, flags, vmm.usingNx)
      invariant forall k: nat :: k < i ==> Step(virt, k, stride) != 0
      invariant OtherSpacesKept(m0, vmm.mem, t0, vmm.current)
      invariant GrewTables(start, u0, m0, t0, vmm.pmm.Used(), vmm.mem, vmm.tables)
    {
      MapRangeDomain(v0, virt, phys, i, stride, flags, vmm.usingNx);
      ghost var u1, m1, t1 := vmm.pmm.Used(), vmm.mem, vmm.tables;
      var mapped := vmm.MapPage(Step(virt, i, stride), Step(phys, i, stride), flags);
      GrewTablesTwice(start, u0, m0, t0, u1, m1, t1, vmm.pmm.Used(), vmm.mem, vmm.tables, vmm.current);
      if !mapped {
        ghost var u2, m2, t2 := vmm.pmm.Used(), vmm.mem, vmm.tables;
        UnmapStride(vmm, virt, i, stride);
        GrewTablesTwice(start, u0, m0, t0, u2, m2, t2, vmm.pmm.Used(), vmm.mem, vmm.tables, vmm.current);
        RollbackLeaves(v0, virt, phys, i, stride, flags, vmm.usingNx);
        return false, i;
      }
    }
    return true, count;
  }

  /** The rollback loop: unmaps the first `count` pages of a range of 4 KiB mappings. */
  method UnmapStride(vmm: Vmm, virt: u64, count: nat, stride: nat)
    requires vmm.Valid()
    requires forall i: nat :: i < count ==> Step(virt, i, stride) != 0 && NotLarge(vmm.View(), Step(virt, i, stride))
    modifies vmm`mem
    ensures vmm.Valid()
    ensures vmm.View() == old(vmm.View()) - RangePages(virt, count, stride)
    ensures old(Open(vmm.mem, vmm.tables)) ==> Open(vmm.mem, vmm.tables)
    ensures OtherSpacesKept(old(vmm.mem), vmm.mem, vmm.tables, vmm.current)
    ensures GrewTables(vmm.pmm.start, vmm.pmm.Used(), old(vmm.mem), vmm.tables, vmm.pmm.Used(), vmm.mem, vmm.tables)
  {
    hide Good, Flat, Walk, PageOf, Step, GrewTables, OtherSpacesKept, PagesBelow, Open;
    ghost var start, used, m0, tables, v0 := vmm.pmm.start, vmm.pmm.Used(), vmm.mem, vmm.tables, vmm.View();
    GrewTablesNothing(start, used, m0, tables, vmm.current);
    for j := 0 to count
      invariant vmm.Valid() && (old(Open(vmm.mem, vmm.tables)) ==> Open(vmm.mem, vmm.tables))
      invariant vmm.View() == v0 - RangePages(virt, j, stride)
      invariant OtherSpacesKept(m0, vmm.mem, tables, vmm.current)
      invariant GrewTables(start, used, m0, tables, used, vmm.mem, tables)
    {
      ghost var m1 := vmm.mem;
      var unmapped, depth := vmm.UnmapPage(Step(virt, j, stride));
      PagesBelowFour(PageOf(Step(virt, j, stride)));
      OnlyWrote(start, used, m1, vmm.mem, tables);
      GrewTablesTwice(start, used, m0, tables, used, m1, tables, used, vmm.mem, tables, vmm.current);
    }
  }

  // ---------- the two paths of vmm_map_pages ----------

  /** `flags & ~VMM_FLAG_HUGE` */
  function WithoutHuge(flags: u64): (r: u64)
    ensures forall j: nat :: Bit(r, j) == (Bit(flags, j) && j != 10)
  {
    WithoutHugeFacts(flags);
    ClearBit(flags, HUGE)
  }

  lemma WithoutHugeFacts(flags: u64)
    ensures ClearBit(flags, HUGE) <= flags
    ensures forall j: nat :: Bit(ClearBit(flags, HUGE), j) == (Bit(flags, j) && j != 10)
  {
    hide Bit, ClearBit;
    ClearBitShrinks(flags, HUGE);
    forall j: nat { ClearBitReads(flags, HUGE, j); }
  }

  predicate TakesHugePath(virt: u64, phys: u64, count: nat, flags: u64) {
    Bit(flags, HUGE) && virt % TWO_MEGABYTES == 0 && phys % TWO_MEGABYTES == 0 && count >= 512
  }

  lemma HugePathIs(virt: u64, phys: u64, count: nat, flags: u64)
    ensures TakesHugePath(virt, phys, count, flags) <==>
              Bit(flags, 10) && virt % 0x20_0000 == 0 && phys % 0x20_0000 == 0 && count >= 512
  {
  }

  /** The view after a successful call, and the pages that a failed call has taken out. */
  ghost function MapPagesView(view: map<nat, Translation>, virt: u64, phys: u64, count: nat, flags: u64, nx: bool)
    : map<nat, Translation>
  {
    if !TakesHugePath(virt, phys, count, flags) then
      MapRange(view, virt, phys, count, PAGE_SIZE, WithoutHuge(flags), nx)
    else
      var h := count / 512;
      MapRange(MapRange(view, virt, phys, h, TWO_MEGABYTES, flags, nx),
               Step(virt, h, TWO_MEGABYTES), Step(phys, h,
                                                  TWO_MEGABYTES), count % 512, PAGE_SIZE, WithoutHuge(flags), nx)
  }

  ghost predicate Undone(view: map<nat, Translation>, view': map<nat, Translation>, virt: u64, phys: u64, count: nat,
                         flags: u64, large: nat, small: nat)
  {
    if !TakesHugePath(virt, phys, count, flags) then
      small < count && view' == view - RangePages(virt, small, PAGE_SIZE)
    else
      && large <= count / 512 && small <= count % 512
      && view' == view - RangePages(Step(virt, count / 512, TWO_MEGABYTES), small, PAGE_SIZE)
                       - RangePages(virt, large, TWO_MEGABYTES)
  }

  lemma StepOfStep(base: nat, h: nat, i: nat)
    ensures Step(base, h, TWO_MEGABYTES) == Step(base, h * 512, PAGE_SIZE)
    ensures Step(Step(base, h, TWO_MEGABYTES), i, PAGE_SIZE) == Step(base, h * 512 + i, PAGE_SIZE)
  {
    hide Wrap64;
    assert h * TWO_MEGABYTES == h * 512 * PAGE_SIZE;
    assert (h * 512 + i) * PAGE_SIZE == h * TWO_MEGABYTES + i * PAGE_SIZE;
    WrapSum(base + h * TWO_MEGABYTES, i * PAGE_SIZE);
  }

  lemma WrapSum(x: nat, y: nat)
    ensures Wrap64(Wrap64(x) + y) == Wrap64(x + y)
  {
    var m := 0x1_0000_0000_0000_0000;
    assert x == x / m * m + x % m;
    assert x % m + y == x + y - x / m * m;
  }

  /** Why a range cannot be mapped: one of its pages cannot. */
  ghost predicate RangeCannotMap(virt: u64, phys: u64, count: nat, used: seq<bool>) {
    exists i: nat :: i < count && CannotMap(Step(virt, i, PAGE_SIZE), Step(phys, i, PAGE_SIZE), used)
  }

  /** Every page of the range leads to its own frame, with the bits that the flags ask for. */
  ghost predicate RangeMapped(view: map<nat, Translation>, virt: nat, phys: nat, count: nat, flags: u64, nx: bool) {
    forall i: nat :: i < count ==>
      && PageAt(virt, i) in view
      && view[PageAt(virt, i)] == PageFor(FrameOf(Step(phys, i, PAGE_SIZE)), flags, nx)
      && Carries(view[PageAt(virt, i)], flags, nx)
  }

  /**
   vmm_map_pages. A failure has its cause in one page of the range, and on a range
   that was not mapped it restores every translation. A success on the 4 KiB path
   maps every page to its own frame; on a range that was not mapped, all of its
   pages are mapped exactly when the 2 MiB path was not taken.
   */
  method MapPages(vmm: Vmm, virt: u64, phys: u64, count: u64, flags: u64)
    returns (ok: bool, ghost large: nat, ghost small: nat)
    requires vmm.Valid()
    requires forall i: nat :: i < count ==> NotLarge(vmm.View(), Step(virt, i, PAGE_SIZE))
    modifies vmm`mem, vmm`tables, vmm.pmm`totalAllocations, vmm.pmm`failedAllocations, vmm.pmm.bitmap
    ensures vmm.Valid()
    ensures ok ==> vmm.View() == MapPagesView(old(vmm.View()), virt, phys, count, flags, vmm.usingNx)
    ensures !ok ==> Undone(old(vmm.View()), vmm.View(), virt, phys, count, flags, large, small)
    ensures !ok ==> RangeCannotMap(virt, phys, count, vmm.pmm.Used())
    ensures !ok && RangePages(virt, count, PAGE_SIZE) !! old(vmm.View()).Keys ==> vmm.View() == old(vmm.View())
    ensures ok && virt + count * PAGE_SIZE <= PAGES * PAGE_SIZE && !TakesHugePath(virt, phys, count, flags) ==>
              RangeMapped(vmm.View(), virt, phys, count, WithoutHuge(flags), vmm.usingNx)
    ensures ok && virt + count * PAGE_SIZE <= PAGES * PAGE_SIZE
            && RangePages(virt, count, PAGE_SIZE) !! old(vmm.View()).Keys ==>
              ((forall i: nat :: i < count ==> PageAt(virt, i) in vmm.View()) <==>
               !TakesHugePath(virt, phys, count, flags))
    ensures old(Open(vmm.mem, vmm.tables)) && virt + count * PAGE_SIZE <= NO_EXECUTE_BIT ==> Open(vmm.mem, vmm.tables)
    ensures OtherSpacesKept(old(vmm.mem), vmm.mem, old(vmm.tables), vmm.current)
    ensures GrewTables(vmm.pmm.start, old(vmm.pmm.Used()), old(vmm.mem), old(vmm.tables),
                       vmm.pmm.Used(), vmm.mem, vmm.tables)
  {
    hide Good, Flat, NotLarge, Step, GrewTables, OtherSpacesKept, MapRange, RangePages, PageAt, TakesHugePath,
         WithoutHuge, CannotMap, RangeMapped, MapPagesView, Undone, Open;
    ghost var v0 := vmm.View();
    forall i: nat | i < count && virt + count * PAGE_SIZE <= NO_EXECUTE_BIT
      ensures Step(virt, i, PAGE_SIZE) < NO_EXECUTE_BIT
    {
      StepBelow(virt, i, count);
    }
    large, small := 0, 0;
    HugePathIs(virt, phys, count, flags);
    if Bit(flags, HUGE) && virt % TWO_MEGABYTES == 0 && phys % TWO_MEGABYTES == 0 && count >= 512 {
      ok, large, small := MapHugePath(vmm, virt, phys, count, flags);
    } else {
      ok, small := MapStride(vmm, virt, phys, count, PAGE_SIZE, WithoutHuge(flags));
      SmallPathView(v0, vmm.View(), virt, phys, count, flags, vmm.usingNx, large, small);
    }
    if !ok && RangePages(virt, count, PAGE_SIZE) !! v0.Keys {
      UndoneRestores(v0, vmm.View(), virt, phys, count, flags, large, small);
    }
    if ok && virt + count * PAGE_SIZE <= PAGES * PAGE_SIZE {
      if !TakesHugePath(virt, phys, count, flags) {
        WholeRange(v0, virt, phys, count, WithoutHuge(flags), vmm.usingNx);
      }
      if RangePages(virt, count, PAGE_SIZE) !! v0.Keys {
        HugePathLeavesGap(v0, virt, phys, count, flags, vmm.usingNx);
      }
    }
  }

  lemma StepBelow(virt: nat, i: nat, count: nat)
    requires i < count && virt + count * PAGE_SIZE <= NO_EXECUTE_BIT
    ensures Step(virt, i, PAGE_SIZE) < NO_EXECUTE_BIT
  {
    assert i * PAGE_SIZE < count * PAGE_SIZE;
  }

  lemma SmallPathView(view: map<nat, Translation>, view': map<nat, Translation>, virt: u64, phys: u64, count: nat,
                      flags: u64, nx: bool, large: nat, small: nat)
    requires !TakesHugePath(virt, phys, count, flags)
    ensures MapPagesView(view, virt, phys, count, flags, nx)
            == MapRange(view, virt, phys, count, PAGE_SIZE, WithoutHuge(flags), nx)
    ensures small < count && view' == view - RangePages(virt, small, PAGE_SIZE) ==>
              Undone(view, view', virt, phys, count, flags, large, small)
  {
    hide MapRange, RangePages, TakesHugePath;
  }

  lemma WholeRange(view: map<nat, Translation>, virt: nat, phys: nat, count: nat, flags: u64, nx: bool)
    requires virt + count * PAGE_SIZE <= PAGES * PAGE_SIZE
    ensures RangeMapped(MapRange(view, virt, phys, count, PAGE_SIZE, flags, nx), virt, phys, count, flags, nx)
  {
    hide MapRange, FrameOf, PageFor, Step, PageOf, Carries;
    forall i: nat | i < count
      ensures PageAt(virt, i) in MapRange(view, virt, phys, count, PAGE_SIZE, flags, nx)
      ensures MapRange(view, virt, phys, count, PAGE_SIZE, flags, nx)[PageAt(virt, i)]
              == PageFor(FrameOf(Step(phys, i, PAGE_SIZE)), flags, nx)
      ensures Carries(PageFor(FrameOf(Step(phys, i, PAGE_SIZE)), flags, nx), flags, nx)
    {
      MapRangeAt(view, virt, phys, count, flags, nx, i);
      PageCarries(FrameOf(Step(phys, i, PAGE_SIZE)), flags, nx);
    }
  }

  lemma {:induction false} RangeMember(virt: nat, n: nat, stride: nat, p: nat)
    ensures p in RangePages(virt, n, stride) <==> exists j: nat :: j < n && p == PageOf(Step(virt, j, stride))
  {
    hide PageOf, Step;
    if n > 0 {
      RangeMember(virt, n - 1, stride, p);
    }
  }

  /** The 2 MiB strides of a range and the pages after them are pages of the range. */
  lemma StridesInRange(virt: u64, count: nat, large: nat, small: nat)
    requires large <= count / 512 && small <= count % 512
    ensures RangePages(virt, large, TWO_MEGABYTES) <= RangePages(virt, count, PAGE_SIZE)
    ensures RangePages(Step(virt, count / 512, TWO_MEGABYTES), small, PAGE_SIZE) <= RangePages(virt, count, PAGE_SIZE)
  {
    hide PageOf, Step, RangePages;
    forall p | p in RangePages(virt, large, TWO_MEGABYTES) ensures p in RangePages(virt, count, PAGE_SIZE) {
      RangeMember(virt, large, TWO_MEGABYTES, p);
      var j: nat :| j < large && p == PageOf(Step(virt, j, TWO_MEGABYTES));
      StepOfStep(virt, j, 0);
      assert j * 512 < count;
      RangeMember(virt, count, PAGE_SIZE, p);
    }
    forall p | p in RangePages(Step(virt, count / 512, TWO_MEGABYTES), small, PAGE_SIZE)
      ensures p in RangePages(virt, count, PAGE_SIZE)
    {
      RangeMember(Step(virt, count / 512, TWO_MEGABYTES), small, PAGE_SIZE, p);
      var j: nat :| j < small && p == PageOf(Step(Step(virt, count / 512, TWO_MEGABYTES), j, PAGE_SIZE));
      StepOfStep(virt, count / 512, j);
      assert count / 512 * 512 + j < count;
      RangeMember(virt, count, PAGE_SIZE, p);
    }
  }

  /** On a range that was not mapped, undoing leaves the view as it was. */
  lemma UndoneRestores(view: map<nat, Translation>, view': map<nat, Translation>, virt: u64, phys: u64, count: nat,
                       flags: u64, large: nat, small: nat)
    requires Undone(view, view', virt, phys, count, flags, large, small)
             && RangePages(virt, count, PAGE_SIZE) !! view.Keys
    ensures view' == view
  {
    hide RangePages, TakesHugePath, Step;
    if TakesHugePath(virt, phys, count, flags) {
      StridesInRange(virt, count, large, small);
      RestoredIff(view, Step(virt, count / 512, TWO_MEGABYTES), small, PAGE_SIZE);
      RestoredIff(view, virt, large, TWO_MEGABYTES);
    } else {
      PrefixInRange(virt, small, count);
      RestoredIff(view, virt, small, PAGE_SIZE);
    }
  }

  lemma PrefixInRange(virt: nat, n: nat, count: nat)
    requires n <= count
    ensures RangePages(virt, n, PAGE_SIZE) <= RangePages(virt, count, PAGE_SIZE)
    decreases count
  {
    hide PageOf, Step;
    if n < count {
      PrefixInRange(virt, n, count - 1);
    }
  }

  /** The path for 2 MiB strides, with the remaining pages after it. */
  method MapHugePath(vmm: Vmm, virt: u64, phys: u64, count: u64, flags: u64)
    returns (ok: bool, ghost large: nat, ghost small: nat)
    requires vmm.Valid() && TakesHugePath(virt, phys, count, flags)
    requires forall i: nat :: i < count ==> NotLarge(vmm.View(), Step(virt, i, PAGE_SIZE))
    modifies vmm`mem, vmm`tables, vmm.pmm`totalAllocations, vmm.pmm`failedAllocations, vmm.pmm.bitmap
    ensures vmm.Valid()
    ensures ok ==> vmm.View() == MapPagesView(old(vmm.View()), virt, phys, count, flags, vmm.usingNx)
    ensures !ok ==> Undone(old(vmm.View()), vmm.View(), virt, phys, count, flags, large, small)
    ensures !ok ==> RangeCannotMap(virt, phys, count, vmm.pmm.Used())
    ensures old(Open(vmm.mem, vmm.tables)) && virt + count * PAGE_SIZE <= NO_EXECUTE_BIT ==> Open(vmm.mem, vmm.tables)
    ensures OtherSpacesKept(old(vmm.mem), vmm.mem, old(vmm.tables), vmm.current)
    ensures GrewTables(vmm.pmm.start, old(vmm.pmm.Used()), old(vmm.mem), old(vmm.tables),
                       vmm.pmm.Used(), vmm.mem, vmm.tables)
  {
    hide Good, Flat, NotLarge, Step, GrewTables, OtherSpacesKept, MapRange, RangePages, CannotMap, Open;
    ghost var start, u0, m0, t0, v0 := vmm.pmm.start, vmm.pmm.Used(), vmm.mem, vmm.tables, vmm.View();
    var hugePages, remaining := count / 512, count % 512;
    ghost var open := Open(m0, t0) && virt + count * PAGE_SIZE <= NO_EXECUTE_BIT;
    if open {
      StridesBelow(virt, count);
    }
    forall i: nat | i < hugePages ensures NotLarge(v0, Step(virt, i, TWO_MEGABYTES)) { StepOfStep(virt, i, 0); }
    ok, large := MapStride(vmm, virt, phys, hugePages, TWO_MEGABYTES, flags);
    small := 0;
    if !ok {
      NoPages(v0, Step(virt, hugePages, TWO_MEGABYTES));
      StepOfStep(virt, large, 0);
      StepOfStep(phys, large, 0);
      assert large * 512 < count
             && CannotMap(Step(virt, large * 512, PAGE_SIZE), Step(phys, large * 512, PAGE_SIZE), vmm.pmm.Used());
      return;
    }
    ghost var u1, m1, t1, v1 := vmm.pmm.Used(), vmm.mem, vmm.tables, vmm.View();
    var startVirt, startPhys := Step(virt, hugePages, TWO_MEGABYTES), Step(phys, hugePages, TWO_MEGABYTES);
    forall i: nat | i < remaining ensures NotLarge(v1, Step(startVirt, i, PAGE_SIZE)) {
      StepOfStep(virt, hugePages, i);
      StillNotLarge(v0, virt, phys, hugePages, TWO_MEGABYTES, flags, vmm.usingNx, Step(startVirt, i, PAGE_SIZE));
    }
    ok, small := MapStride(vmm, startVirt, startPhys, remaining, PAGE_SIZE, WithoutHuge(flags));
    GrewTablesTwice(start, u0, m0, t0, u1, m1, t1, vmm.pmm.Used(), vmm.mem, vmm.tables, vmm.current);
    large := hugePages;
    if !ok {
      ghost var u2, m2, t2, v2 := vmm.pmm.Used(), vmm.mem, vmm.tables, vmm.View();
      ghost var i := hugePages * 512 + small;
      StepOfStep(virt, hugePages, small);
      StepOfStep(phys, hugePages, small);
      assert i < count && CannotMap(Step(virt, i, PAGE_SIZE), Step(phys, i, PAGE_SIZE), u2);
      forall i: nat | i < hugePages ensures NotLarge(v2, Step(virt, i, TWO_MEGABYTES)) {
        StepOfStep(virt, i, 0);
        StillNotLarge(v0, virt, phys, hugePages, TWO_MEGABYTES, flags, vmm.usingNx, Step(virt, i, TWO_MEGABYTES));
        LessIsNotLarge(v1, RangePages(startVirt, small, PAGE_SIZE), Step(virt, i, TWO_MEGABYTES));
      }
      UnmapStride(vmm, virt, hugePages, TWO_MEGABYTES);
      GrewTablesTwice(start, u0, m0, t0, u2, m2, t2, vmm.pmm.Used(), vmm.mem, vmm.tables, vmm.current);
      RollbackLeaves(v0, virt, phys, hugePages, TWO_MEGABYTES, flags, vmm.usingNx);
      RemovalCommutes(v0, v1, RangePages(virt, hugePages, TWO_MEGABYTES), RangePages(startVirt, small, PAGE_SIZE));
    }
  }

  /** The strides of a range below 2^63, and the pages after them, lie below 2^63. */
  lemma StridesBelow(virt: u64, count: nat)
    requires virt + count * PAGE_SIZE <= NO_EXECUTE_BIT
    ensures forall i: nat :: i < count / 512 ==> Step(virt, i, TWO_MEGABYTES) < NO_EXECUTE_BIT
    ensures forall i: nat :: i < count % 512 ==>
              Step(Step(virt, count / 512, TWO_MEGABYTES), i, PAGE_SIZE) < NO_EXECUTE_BIT
  {
    hide Step;
    forall i: nat | i < count / 512 ensures Step(virt, i, TWO_MEGABYTES) < NO_EXECUTE_BIT {
      StepOfStep(virt, i, 0);
      StepBelow(virt, i * 512, count);
    }
    forall i: nat | i < count % 512
      ensures Step(Step(virt, count / 512, TWO_MEGABYTES), i, PAGE_SIZE) < NO_EXECUTE_BIT
    {
      StepOfStep(virt, count / 512, i);
      StepBelow(virt, count / 512 * 512 + i, count);
    }
  }

  lemma StillNotLarge(view: map<nat, Translation>, virt: nat, phys: nat, n: nat, stride: nat, flags: u64, nx: bool,
                      addr: nat)
    requires NotLarge(view, addr)
    ensures NotLarge(MapRange(view, virt, phys, n, stride, flags, nx), addr)
  {
    hide MapRange, RangePages, PageOf;
    MapRangeDomain(view, virt, phys, n, stride, flags, nx);
  }

  lemma LessIsNotLarge(view: map<nat, Translation>, gone: set<nat>, addr: nat)
    requires NotLarge(view, addr)
    ensures NotLarge(view - gone, addr)
  {
  }

  lemma NoPages(view: map<nat, Translation>, virt: nat)
    ensures view - RangePages(virt, 0, PAGE_SIZE) == view
  {
  }

  lemma RemovalCommutes(v0: map<nat, Translation>, v1: map<nat, Translation>, a: set<nat>, b: set<nat>)
    requires v1 - a == v0 - a
    ensures v1 - b - a == v0 - b - a
  {
    assert v1 - b - a == v1 - a - b;
    assert v0 - b - a == v0 - a - b;
  }

  /** Page `i` of a range is mapped by a successful call: any page on the 4 KiB path, one page a stride on the other. */
  predicate IsReached(virt: u64, phys: u64, count: nat, flags: u64, i: nat) {
    !TakesHugePath(virt, phys, count, flags) || i % 512 == 0 || i >= count / 512 * 512
  }

  lemma SamePage(virt: nat, count: nat, i: nat, j: nat)
    requires virt + count * PAGE_SIZE <= PAGES * PAGE_SIZE && i < count && j < count
    ensures Step(virt, i, PAGE_SIZE) == virt + i * PAGE_SIZE
    ensures PageOf(Step(virt, j, PAGE_SIZE)) == PageOf(virt + i * PAGE_SIZE) <==> i == j
  {
    hide PageOf;
    assert virt + i * PAGE_SIZE < PAGES * PAGE_SIZE && virt + j * PAGE_SIZE < PAGES * PAGE_SIZE;
    if i < j {
      PagesDiffer(virt, i, j);
    } else if j < i {
      PagesDiffer(virt, j, i);
    }
  }

  /** Which of the pages of a range that was not mapped are mapped after success. */
  lemma WhichPages(view: map<nat, Translation>, virt: u64, phys: u64, count: nat, flags: u64, nx: bool, i: nat)
    requires virt + count * PAGE_SIZE <= PAGES * PAGE_SIZE && RangePages(virt, count, PAGE_SIZE) !! view.Keys
             && i < count
    ensures PageAt(virt, i) in MapPagesView(view, virt, phys, count, flags, nx) <==>
              IsReached(virt, phys, count, flags, i)
  {
    hide PageOf, Step, RangePages, MapRange, TakesHugePath, WithoutHuge, FrameOf, PageFor;
    var p := PageOf(virt + i * PAGE_SIZE);
    SamePage(virt, count, i, i);
    RangeMember(virt, count, PAGE_SIZE, p);
    if !TakesHugePath(virt, phys, count, flags) {
      MapRangeDomain(view, virt, phys, count, PAGE_SIZE, WithoutHuge(flags), nx);
    } else {
      var h, r := count / 512, count % 512;
      var v := MapRange(view, virt, phys, h, TWO_MEGABYTES, flags, nx);
      var s, q := Step(virt, h, TWO_MEGABYTES), Step(phys, h, TWO_MEGABYTES);
      MapRangeDomain(view, virt, phys, h, TWO_MEGABYTES, flags, nx);
      MapRangeDomain(v, s, q, r, PAGE_SIZE, WithoutHuge(flags), nx);
      StrideHas(virt, count, i);
      TailHas(virt, count, i);
    }
  }

  lemma StrideHas(virt: u64, count: nat, i: nat)
    requires virt + count * PAGE_SIZE <= PAGES * PAGE_SIZE && i < count
    ensures PageOf(virt + i * PAGE_SIZE) in RangePages(virt, count / 512, TWO_MEGABYTES) <==>
              i % 512 == 0 && i < count / 512 * 512
  {
    hide PageOf, Step, RangePages;
    var p, h := PageOf(virt + i * PAGE_SIZE), count / 512;
    RangeMember(virt, h, TWO_MEGABYTES, p);
    if p in RangePages(virt, h, TWO_MEGABYTES) {
      var j: nat :| j < h && p == PageOf(Step(virt, j, TWO_MEGABYTES));
      StepOfStep(virt, j, 0);
      SamePage(virt, count, i, j * 512);
    }
    if i % 512 == 0 && i < h * 512 {
      var j := i / 512;
      StepOfStep(virt, j, 0);
      SamePage(virt, count, i, j * 512);
      assert j < h && p == PageOf(Step(virt, j, TWO_MEGABYTES));
    }
  }

  lemma TailHas(virt: u64, count: nat, i: nat)
    requires virt + count * PAGE_SIZE <= PAGES * PAGE_SIZE && i < count
    ensures var start := Step(virt, count / 512, TWO_MEGABYTES);
            PageOf(virt + i * PAGE_SIZE) in RangePages(start, count % 512, PAGE_SIZE) <==> i >= count / 512 * 512
  {
    hide PageOf, Step, RangePages;
    var p, h, r := PageOf(virt + i * PAGE_SIZE), count / 512, count % 512;
    var s := Step(virt, h, TWO_MEGABYTES);
    RangeMember(s, r, PAGE_SIZE, p);
    if p in RangePages(s, r, PAGE_SIZE) {
      var j: nat :| j < r && p == PageOf(Step(s, j, PAGE_SIZE));
      StepOfStep(virt, h, j);
      SamePage(virt, count, i, h * 512 + j);
    }
    if i >= h * 512 {
      var j := i - h * 512;
      StepOfStep(virt, h, j);
      SamePage(virt, count, i, h * 512 + j);
      assert j < r && p == PageOf(Step(s, j, PAGE_SIZE));
    }
  }

  /** A successful call maps all pages of a range that was not mapped if and only if it did not take the 2 MiB path. */
  lemma HugePathLeavesGap(view: map<nat, Translation>, virt: u64, phys: u64, count: nat, flags: u64, nx: bool)
    requires virt + count * PAGE_SIZE <= PAGES * PAGE_SIZE && RangePages(virt, count, PAGE_SIZE) !! view.Keys
    ensures (forall i: nat :: i < count ==> PageAt(virt, i) in MapPagesView(view, virt, phys, count, flags, nx)) <==>
            !TakesHugePath(virt, phys, count, flags)
  {
    hide PageAt, RangePages, MapPagesView, Bit;
    forall i: nat | i < count
      ensures PageAt(virt, i) in MapPagesView(view, virt, phys, count, flags, nx) <==>
                IsReached(virt, phys, count, flags, i)
    {
      WhichPages(view, virt, phys, count, flags, nx, i);
    }
    if TakesHugePath(virt, phys, count, flags) {
      assert 1 < count && !IsReached(virt, phys, count, flags, 1);
      assert PageAt(virt, 1) !in MapPagesView(view, virt, phys, count, flags, nx);
    }
  }

  /** Without wrap-around the pages of a range are distinct, so each ends up at its own frame. */
  lemma {:induction false} MapRangeAt(view: map<nat, Translation>, virt: nat, phys: nat, n: nat, flags: u64, nx: bool,
                                      i: nat)
    requires virt + n * PAGE_SIZE <= PAGES * PAGE_SIZE && i < n
    ensures Step(virt, i, PAGE_SIZE) == virt + i * PAGE_SIZE
    ensures var view' := MapRange(view, virt, phys, n, PAGE_SIZE, flags, nx);
            && PageOf(virt + i * PAGE_SIZE) in view'
            && view'[PageOf(virt + i * PAGE_SIZE)] == PageFor(FrameOf(Step(phys, i, PAGE_SIZE)), flags, nx)
  {
    hide FrameOf, PageFor;
    assert Step(virt, n - 1, PAGE_SIZE) == virt + (n - 1) * PAGE_SIZE;
    if i < n - 1 {
      MapRangeAt(view, virt, phys, n - 1, flags, nx, i);
      PagesDiffer(virt, i, n - 1);
    }
  }

  lemma PagesDiffer(virt: nat, i: nat, j: nat)
    requires i < j && virt + j * PAGE_SIZE < PAGES * PAGE_SIZE
    ensures PageOf(virt + i * PAGE_SIZE) != PageOf(virt + j * PAGE_SIZE)
  {
    assert (virt + i * PAGE_SIZE) / PAGE_SIZE == virt / PAGE_SIZE + i;
    assert (virt + j * PAGE_SIZE) / PAGE_SIZE == virt / PAGE_SIZE + j;
  }

  /**
   Mapping a page and then translating any address below the direct mapping:
   addresses in the page lead to the frame plus their offset exactly when
   no-execute is not set; all others, and all after a failure, lead where they did.
   */
  method MapThenTranslate(vmm: Vmm, virt: u64, phys: u64, flags: u64, addr: u64) returns (ok: bool, r: u64)
    requires vmm.Valid() && NotLarge(vmm.View(), virt) && addr < vmm.hhdm
    modifies vmm`mem, vmm`tables, vmm.pmm`totalAllocations, vmm.pmm`failedAllocations, vmm.pmm.bitmap
    ensures vmm.Valid()
    ensures ok && PageOf(addr) == PageOf(virt) && phys < 0x8000_0000_0000_0000 ==>
              (r == FrameOf(phys) + addr % PAGE_SIZE <==> !SetsNoExecute(flags, vmm.usingNx))
    ensures !ok || PageOf(addr) != PageOf(virt) ==> r == PhysOf(old(vmm.View()), addr)
  {
    hide Good, Flat, PageOf, GrewTables, OtherSpacesKept;
    ok := vmm.MapPage(virt, phys, flags);
    r := vmm.VirtToPhys(addr);
  }

  // ---------- runs of single calls ----------

  datatype Call = Map(virt: u64, phys: u64, flags: u64) | Unmap(virt: u64)

  /** What a call with a given result does to a flat map. */
  ghost function Apply(view: map<nat, Translation>, c: Call, result: bool, nx: bool): map<nat, Translation> {
    if !result then view
    else match c
      case Map(virt, phys, flags) => view[PageOf(virt) := PageFor(FrameOf(phys), flags, nx)]
      case Unmap(virt) => view - {PageOf(virt)}
  }

  /**
   Unmapping succeeds exactly on mapped pages; mapping never succeeds on a null
   address, and fails only on one or when `used` has no free page.
   */
  ghost predicate Answers(view: map<nat, Translation>, c: Call, result: bool, used: seq<bool>) {
    match c
    case Map(virt, phys, _) => if result then virt != 0 && phys != 0 else CannotMap(virt, phys, used)
    case Unmap(virt) => result <==> virt != 0 && PageOf(virt) in view
  }

  /** The call answered as it should on `view` and left `view'`; `used` is the allocator afterwards. */
  ghost predicate Follows(view: map<nat, Translation>, view': map<nat, Translation>, c: Call, result: bool,
                          used: seq<bool>, nx: bool) {
    view' == Apply(view, c, result, nx) && Answers(view, c, result, used)
  }

  /**
   Any run of map and unmap calls on 4 KiB pages behaves like the same run on a flat
   map: `views` are the flat maps between the calls, `used` the states of the
   allocator.
   */
  method Run(vmm: Vmm, calls: seq<Call>)
    returns (results: seq<bool>, ghost views: seq<map<nat, Translation>>, ghost used: seq<seq<bool>>)
    requires vmm.Valid()
    requires forall c :: c in calls ==> NotLarge(vmm.View(), c.virt)
    modifies vmm`mem, vmm`tables, vmm.pmm`totalAllocations, vmm.pmm`failedAllocations, vmm.pmm.bitmap
    ensures vmm.Valid() && |results| == |calls| && |views| == |used| == |calls| + 1
    ensures views[0] == old(vmm.View()) && views[|calls|] == vmm.View()
    ensures used[0] == old(vmm.pmm.Used()) && used[|calls|] == vmm.pmm.Used()
    ensures forall k :: 0 <= k < |calls| ==>
              Follows(views[k], views[k + 1], calls[k], results[k], used[k + 1], vmm.usingNx)
  {
    hide Good, Flat, NotLarge, Follows;
    results, views, used := [], [vmm.View()], [vmm.pmm.Used()];
    for n := 0 to |calls|
      invariant vmm.Valid() && |results| == n && |views| == |used| == n + 1
      invariant views[0] == old(vmm.View()) && views[n] == vmm.View()
      invariant used[0] == old(vmm.pmm.Used()) && used[n] == vmm.pmm.Used()
      invariant forall c :: c in calls ==> NotLarge(vmm.View(), c.virt)
      invariant forall k :: 0 <= k < n ==>
                  Follows(views[k], views[k + 1], calls[k], results[k], used[k + 1], vmm.usingNx)
    {
      var result := MapOrUnmap(vmm, calls[n]);
      results, views, used := results + [result], views + [vmm.View()], used + [vmm.pmm.Used()];
    }
  }

  method MapOrUnmap(vmm: Vmm, c: Call) returns (result: bool)
    requires vmm.Valid() && NotLarge(vmm.View(), c.virt)
    modifies vmm`mem, vmm`tables, vmm.pmm`totalAllocations, vmm.pmm`failedAllocations, vmm.pmm.bitmap
    ensures vmm.Valid()
    ensures Follows(old(vmm.View()), vmm.View(), c, result, vmm.pmm.Used(), vmm.usingNx)
    ensures forall addr: u64 :: NotLarge(old(vmm.View()), addr) ==> NotLarge(vmm.View(), addr)
  {
    hide Good, Flat, PageOf, FrameOf, PageFor, GrewTables, OtherSpacesKept, PagesBelow;
    match c
    case Map(virt, phys, flags) =>
      result := vmm.MapPage(virt, phys, flags);
    case Unmap(virt) =>
      PagesBelowFour(PageOf(virt));
      ghost var depth;
      result, depth := vmm.UnmapPage(virt);
  }
}
