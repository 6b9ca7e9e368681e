/**
 Whole runs of the physical memory manager: callers allocate runs of pages and
 give back only what they hold.
 */
module PmmRuns {
  import opened Bytes
  import opened Bitmaps
  import opened PhysicalMemory

  datatype Block = Block(addr: u64, count: u64)

  /** A caller allocates `count` pages, or gives back the k-th block it holds. */
  datatype Op = Alloc(count: u64) | Release(k: nat)

  predicate Covers(start: nat, b: Block, i: nat) {
    start <= b.addr && PageIndex(start, b.addr) <= i < PageIndex(start, b.addr) + b.count
  }

  predicate Placed(start: nat, pages: nat, b: Block) {
    b.count > 0 && InWindow(start, pages, b.addr) && PageIndex(start, b.addr) + b.count <= pages
  }

  ghost predicate Held(start: nat, live: seq<Block>, i: nat) {
    exists k :: 0 <= k < |live| && Covers(start, live[k], i)
  }

  /**
   Live blocks are page-aligned, inside the window, disjoint from each other and
   from the pages in `base`; a page is used exactly when it is in `base` or held.
   */
  ghost predicate Accounted(start: nat, base: seq<bool>, used: seq<bool>, live: seq<Block>) {
    && |base| == |used|
    && (forall k :: 0 <= k < |live| ==> Placed(start, |used|, live[k]))
    && (forall k, i: nat :: 0 <= k < |live| && Covers(start, live[k], i) ==> !base[i])
    && (forall j, k, i: nat :: 0 <= j < k < |live| && Covers(start, live[j], i) ==> !Covers(start, live[k], i))
    && (forall i: nat :: i < |used| ==> (used[i] <==> base[i] || Held(start, live, i)))
  }

  lemma AllocKeeps(start: nat, base: seq<bool>, used: seq<bool>, live: seq<Block>, b: Block)
    requires Accounted(start, base, used, live)
    requires Placed(start, |used|, b) && FreeRun(used, PageIndex(start, b.addr), b.count)
    ensures Accounted(start, base, Fill(used, PageIndex(start, b.addr), b.count, true), live + [b])
  {
    var used' := Fill(used, PageIndex(start, b.addr), b.count, true);
    var live' := live + [b];
    forall i: nat | i < |used| ensures used'[i] <==> base[i] || Held(start, live', i) {
      assert live'[|live|] == b;
      if Held(start, live, i) {
        var k :| 0 <= k < |live| && Covers(start, live[k], i);
        assert live'[k] == live[k];
      }
    }
    forall k, i: nat | 0 <= k < |live| && Covers(start, live[k], i) ensures !Covers(start, b, i) {
      assert Held(start, live, i);
    }
  }

  lemma ReleaseKeeps(start: nat, base: seq<bool>, used: seq<bool>, live: seq<Block>, k: nat)
    requires Accounted(start, base, used, live) && k < |live|
    ensures Accounted(start, base, Fill(used, PageIndex(start, live[k].addr), live[k].count, false),
                      live[..k] + live[k + 1..])
  {
    var b := live[k];
    var used' := Fill(used, PageIndex(start, b.addr), b.count, false);
    var live' := live[..k] + live[k + 1..];
    assert forall j :: 0 <= j < |live'| ==> live'[j] == if j < k then live[j] else live[j + 1];
    forall i: nat | i < |used| ensures used'[i] <==> base[i] || Held(start, live', i) {
      if Held(start, live, i) && !Covers(start, b, i) {
        var j :| 0 <= j < |live| && Covers(start, live[j], i);
        assert live'[if j < k then j else j - 1] == live[j];
      }
    }
  }

  method Run(pmm: Pmm, ops: seq<Op>) returns (live: seq<Block>)
    requires pmm.Valid()
    modifies pmm`totalAllocations, pmm`failedAllocations, pmm.bitmap
    ensures Accounted(pmm.start, old(pmm.Used()), pmm.Used(), live)
  {
    live := [];
    ghost var base := pmm.Used();
    for n := 0 to |ops|
      invariant Accounted(pmm.start, base, pmm.Used(), live)
    {
      match ops[n]
      case Alloc(count) =>
        ghost var used := pmm.Used();
        var addr := pmm.AllocPages(count);
        if addr != 0 {
          AllocKeeps(pmm.start, base, used, live, Block(addr, count));
          live := live + [Block(addr, count)];
        }
      case Release(k) =>
        if k < |live| {
          ghost var used := pmm.Used();
          Give(pmm, live[k]);
          ReleaseKeeps(pmm.start, base, used, live, k);
          live := live[..k] + live[k + 1..];
        }
    }
  }

  /** Giving back a held block clears exactly its pages. */
  method Give(pmm: Pmm, b: Block)
    requires pmm.Valid() && Placed(pmm.start, pmm.maxPages, b)
    modifies pmm.bitmap
    ensures pmm.Used() == Fill(old(pmm.Used()), PageIndex(pmm.start, b.addr), b.count, false)
  {
    ghost var used := pmm.Used();
    ghost var i := PageIndex(pmm.start, b.addr);
    assert b.addr == pmm.start + i * PAGE_SIZE;
    assert pmm.FreedCount(b.addr, b.count) == b.count;
    FreeManyClearsRun(used, pmm.start, i, b.count);
    pmm.FreePages(b.addr, b.count);
  }

  /** Every byte of a live block lies in one usable entry above 1 MiB, past the first 256 pages of the window. */
  ghost predicate WellPlaced(entries: seq<MemEntry>, start: nat, b: Block) {
    && b.addr % PAGE_SIZE == 0 && b.addr >= start + LOW_PAGES * PAGE_SIZE
    && exists e :: e in entries && Candidate(e) && e.base <= b.addr && b.addr + b.count * PAGE_SIZE <= e.base + e.length
  }

  lemma HeldPlaces(entries: seq<MemEntry>, start: nat, size: nat, base: seq<bool>, used: seq<bool>, live: seq<Block>,
                   k: nat)
    requires WellFormedMap(entries) && Largest(entries, start, size) && |used| == WindowPages(size)
    requires Accounted(start, base, used, live) && k < |live|
    requires forall i: nat :: i < |base| && i < LOW_PAGES ==> base[i]
    ensures WellPlaced(entries, start, live[k])
  {
    hide Largest, Held;
    LargestFits(entries, start, size);
    var b := live[k];
    var i := PageIndex(start, b.addr);
    assert Placed(start, |used|, b);
    assert b.addr == start + i * PAGE_SIZE;
    assert Covers(start, live[k], i) && !base[i];
    assert i >= LOW_PAGES;
    var e :| e in entries && Candidate(e) && start == e.base
        && start + WindowPages(size) * PAGE_SIZE <= e.base + e.length;
  }

  /**
   From a memory map to any run of allocations and releases: live blocks are
   disjoint and well placed, and free and used memory make up the window.
   */
  method BootAndRun(entries: seq<MemEntry>, ops: seq<Op>) returns (pmm: Pmm, live: seq<Block>, free: nat, used: nat)
    requires WellFormedMap(entries)
    ensures pmm.Valid() && pmm.maxPages <= 8 * BITMAP_BYTES
    ensures forall k :: 0 <= k < |live| ==> WellPlaced(entries, pmm.start, live[k])
    ensures forall j, k, i: nat :: 0 <= j < k < |live| && Covers(pmm.start, live[j], i) ==>
              !Covers(pmm.start, live[k], i)
    ensures free + used == pmm.maxPages * PAGE_SIZE == pmm.end - pmm.start
  {
    hide Largest, Reserves, Count;
    pmm := new Pmm(entries);
    ghost var base := pmm.Used();
    ghost var size: nat :| Largest(entries, pmm.start, size) && pmm.maxPages == WindowPages(size);
    live := Run(pmm, ops);
    forall k | 0 <= k < |live| ensures WellPlaced(entries, pmm.start, live[k]) {
      HeldPlaces(entries, pmm.start, size, base, pmm.Used(), live, k);
    }
    free := pmm.GetFreeMemory();
    used := pmm.GetUsedMemory();
    CountsSplit(pmm.Used());
  }
}
