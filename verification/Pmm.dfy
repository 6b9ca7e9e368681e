/**
 The physical memory manager (kernel/src/memory/pmm.c): a bitmap of at most
 65536 pages over one window of usable memory, with first-fit allocation of
 runs of consecutive pages.
 */
module PhysicalMemory {
  import opened Bytes
  import opened Bitmaps

  const BITMAP_BYTES: nat := 8192
  const MEGABYTE: nat := 0x10_0000
  const LOW_PAGES: nat := 256

  /** One entry of the boot loader's memory map. */
  datatype MemEntry = MemEntry(base: u64, length: u64, usable: bool)

  // ---------- freeing as a function of the page states ----------

  /** Page index of a physical address inside a window. */
  function PageIndex(start: nat, addr: nat): (i: nat)
    requires start <= addr
  {
    (addr - start) / PAGE_SIZE
  }

  predicate InWindow(start: nat, pages: nat, addr: nat) {
    start <= addr < start + pages * PAGE_SIZE && addr % PAGE_SIZE == 0
  }

  /** What freeing one address does: nothing outside the window or off a page boundary. */
  function FreeOne(used: seq<bool>, start: nat, addr: nat): (r: seq<bool>)
    ensures |r| == |used|
  {
    if InWindow(start, |used|, addr) then used[PageIndex(start, addr) := false] else used
  }

  /** Freeing a list of addresses one after another. */
  function FreeFrames(used: seq<bool>, start: nat, frames: seq<nat>): (r: seq<bool>)
    ensures |r| == |used|
  {
    if frames == [] then used
    else FreeOne(FreeFrames(used, start, frames[..|frames| - 1]), start, frames[|frames| - 1])
  }

  /** Freeing `n` pages one after another, with 64-bit wrap-around of the address. */
  function FreeMany(used: seq<bool>, start: nat, addr: nat, n: nat): (r: seq<bool>)
    ensures |r| == |used|
  {
    if n == 0 then used
    else FreeOne(FreeMany(used, start, addr, n - 1), start, Wrap64(addr + (n - 1) * PAGE_SIZE))
  }

  lemma FreeOneClears(used: seq<bool>, start: nat, k: nat)
    requires start % PAGE_SIZE == 0 && k < |used|
    requires start + |used| * PAGE_SIZE < 0x1_0000_0000_0000_0000
    ensures Wrap64(start + k * PAGE_SIZE) == start + k * PAGE_SIZE
    ensures FreeOne(used, start, start + k * PAGE_SIZE) == used[k := false]
  {
    assert PageIndex(start, start + k * PAGE_SIZE) == k;
  }

  /** Inside the window, freeing `n` pages clears exactly that run. */
  lemma {:induction false} FreeManyClearsRun(used: seq<bool>, start: nat, i: nat, n: nat)
    requires start % PAGE_SIZE == 0 && i + n <= |used|
    requires start + |used| * PAGE_SIZE < 0x1_0000_0000_0000_0000
    ensures FreeMany(used, start, start + i * PAGE_SIZE, n) == Fill(used, i, n, false)
  {
    hide FreeOne, Wrap64;
    if n > 0 {
      FreeManyClearsRun(used, start, i, n - 1);
      var before := FreeMany(used, start, start + i * PAGE_SIZE, n - 1);
      FreeOneClears(before, start, i + n - 1);
      assert start + i * PAGE_SIZE + (n - 1) * PAGE_SIZE == start + (i + n - 1) * PAGE_SIZE;
      assert Fill(used, i, n - 1, false)[i + n - 1 := false] == Fill(used, i, n, false);
    }
  }

  /** A run that starts at page `i` reaches past the window when it is longer than the rest of the window. */
  lemma CutRun(start: nat, pages: nat, page: nat, count: nat)
    requires start % PAGE_SIZE == 0 && InWindow(start, pages, page)
    ensures var i := PageIndex(start, page);
            && i < pages && page == start + i * PAGE_SIZE
            && (page + count * PAGE_SIZE > start + pages * PAGE_SIZE <==> count > pages - i)
            && (start + pages * PAGE_SIZE - page) / PAGE_SIZE == pages - i
  {
    var i := PageIndex(start, page);
    assert page == start + i * PAGE_SIZE;
    assert start + pages * PAGE_SIZE - page == (pages - i) * PAGE_SIZE;
  }

  lemma FreeNone(used: seq<bool>, start: nat, addr: u64, n: nat)
    requires n <= 1 && !InWindow(start, |used|, addr)
    ensures FreeMany(used, start, addr, n) == used
  {
    assert Wrap64(addr + 0 * PAGE_SIZE) == addr;
    assert FreeMany(used, start, addr, 0) == used;
  }

  lemma FreeSingle(used: seq<bool>, start: nat, addr: u64)
    ensures FreeMany(used, start, addr, 0) == used && FreeMany(used, start, addr, 1) == FreeOne(used, start, addr)
  {
    hide FreeOne, Wrap64;
    WrapSmall(addr);
    assert FreeMany(used, start, addr, 0) == used;
    assert addr + (1 - 1) * PAGE_SIZE == addr;
  }

  lemma WrapSmall(addr: u64)
    ensures Wrap64(addr) == addr
  {
  }

  lemma LowestFree(used: seq<bool>, i: nat)
    requires i < |used| && !used[i] && forall k :: 0 <= k < i ==> used[k]
    ensures FirstFreeRun(used, i, 1)
  {
    assert forall j: nat | j < i :: used[j] && !FreeRun(used, j, 1);
  }

  lemma NothingFree(used: seq<bool>)
    requires forall k :: 0 <= k < |used| ==> used[k]
    ensures forall i: nat :: !FreeRun(used, i, 1)
  {
    forall i: nat ensures !FreeRun(used, i, 1) {
      assert i < |used| ==> used[i];
    }
  }

  lemma PageAddress(start: nat, pages: nat, i: nat)
    requires start % PAGE_SIZE == 0 && i < pages
    ensures InWindow(start, pages, start + i * PAGE_SIZE) && PageIndex(start, start + i * PAGE_SIZE) == i
  {
  }

  // ---------- the memory map ----------

  ghost predicate WellFormedMap(entries: seq<MemEntry>) {
    forall e :: e in entries ==>
      && e.base + e.length < 0x1_0000_0000_0000_0000
      && (e.usable ==> e.base % PAGE_SIZE == 0)
  }

  predicate Candidate(e: MemEntry) {
    e.usable && e.base >= 0x10_0000
  }

  /** The window `(start, size)` is the first largest usable entry above 1 MiB, or empty. */
  ghost predicate Largest(entries: seq<MemEntry>, start: nat, size: nat) {
    && (forall e :: e in entries && Candidate(e) ==> e.length <= size)
    && (if size == 0 then start == MEGABYTE
        else exists k ::
          && 0 <= k < |entries|
          && Candidate(entries[k]) && entries[k].base == start && entries[k].length == size
          && forall j :: 0 <= j < k && Candidate(entries[j]) ==> entries[j].length < size)
  }

  /** The whole pages of a region, as far as the bitmap can track them. */
  function WindowPages(size: nat): (n: nat)
    ensures n <= 65536 && n * 4096 <= size && (n == 65536 || size < (n + 1) * 4096)
  {
    if 8 * BITMAP_BYTES * PAGE_SIZE > size then size / PAGE_SIZE else 8 * BITMAP_BYTES
  }

  /** The length of all usable entries together. */
  function UsableBytes(entries: seq<MemEntry>): nat {
    if entries == [] then 0
    else UsableBytes(entries[..|entries| - 1])
         + if entries[|entries| - 1].usable then entries[|entries| - 1].length else 0
  }

  lemma NoneUsable()
    ensures Wrap64(UsableBytes([])) == 0
  {
  }

  lemma MoreUsable(entries: seq<MemEntry>, e: MemEntry)
    ensures Wrap64(UsableBytes(entries + [e]))
            == if e.usable then Wrap64(Wrap64(UsableBytes(entries)) + e.length) else Wrap64(UsableBytes(entries))
  {
    assert (entries + [e])[..|entries|] == entries;
    var x, m := UsableBytes(entries), 0x1_0000_0000_0000_0000;
    assert x == x / m * m + x % m;
    assert x + e.length == x / m * m + (x % m + e.length);
  }

  /** The search for the largest usable region that starts above 1 MiB. */
  method ChooseRegion(entries: seq<MemEntry>) returns (start: u64, size: u64, total: u64)
    ensures Largest(entries, start, size) && total == Wrap64(UsableBytes(entries))
  {
    NoneUsable();
    hide UsableBytes, Wrap64;
    start, size, total := MEGABYTE, 0, 0;
    for i := 0 to |entries|
      invariant Largest(entries[..i], start, size) && total == Wrap64(UsableBytes(entries[..i]))
    {
      var e := entries[i];
      assert entries[..i + 1] == entries[..i] + [e];
      MoreUsable(entries[..i], e);
      if e.usable {
        total := Wrap64(total + e.length);
        if e.length > size && e.base >= MEGABYTE {
          size := e.length;
          start := e.base;
          assert entries[..i + 1][i] == e;
        }
      }
    }
    assert entries[..|entries|] == entries;
  }

  /** The chosen window is empty or lies inside one usable entry above 1 MiB. */
  lemma LargestFits(entries: seq<MemEntry>, start: nat, size: nat)
    requires WellFormedMap(entries) && Largest(entries, start, size)
    ensures start % PAGE_SIZE == 0 && MEGABYTE <= start
    ensures start + size < 0x1_0000_0000_0000_0000
    ensures WindowPages(size) <= 8 * BITMAP_BYTES && WindowPages(size) * PAGE_SIZE <= size
    ensures WindowPages(size) == 0 || exists e ::
              e in entries && Candidate(e) && start == e.base
              && start + WindowPages(size) * PAGE_SIZE <= e.base + e.length
  {
  }

  predicate Overlaps(start: nat, end: nat, e: MemEntry) {
    e.base < end && start < e.base + e.length
  }

  /** The part of the entry inside the window. */
  function Low(start: nat, e: MemEntry): nat { if e.base < start then start else e.base }

  function High(end: nat, e: MemEntry): nat { if e.base + e.length > end then end else e.base + e.length }

  /** Page `i` is one of those that the marking loop visits for the reserved entry `e`. */
  predicate Reserves(start: nat, end: nat, e: MemEntry, i: nat) {
    !e.usable && Overlaps(start, end, e) &&
    var lo, hi := Low(start, e), High(end, e);
    lo <= hi && PageIndex(start, lo) <= i < PageIndex(start, lo) + (hi - lo + PAGE_SIZE - 1) / PAGE_SIZE
  }

  /** Page `i` of the window shares bytes with the entry. */
  predicate Touches(start: nat, e: MemEntry, i: nat) {
    Overlaps(start + i * PAGE_SIZE, start + (i + 1) * PAGE_SIZE, e) && e.length > 0
  }

  /** The marking loop, which steps by whole pages from an unaligned start, stops one page early. */
  predicate StopsEarly(start: nat, end: nat, e: MemEntry) {
    Low(start, e) < High(end, e) &&
    (Low(start, e) - start) % PAGE_SIZE + (High(end, e) - Low(start, e) - 1) % PAGE_SIZE >= PAGE_SIZE
  }

  /** The visited pages are exactly those the reserved entry touches, but for the last one when the loop stops early. */
  lemma ReservesExactly(start: nat, pages: nat, e: MemEntry, i: nat)
    requires start % PAGE_SIZE == 0 && i < pages && !e.usable
    ensures var end := start + pages * PAGE_SIZE;
            Reserves(start, end, e, i) <==>
            Touches(start, e, i) && !(StopsEarly(start, end, e) && i == (High(end, e) - 1 - start) / PAGE_SIZE)
  {
    var end := start + pages * PAGE_SIZE;
    var lo, hi := Low(start, e), High(end, e);
    assert start + (i + 1) * PAGE_SIZE <= end;
    if lo < hi && start <= lo {
      VisitedPages(lo - start, hi - lo);
    }
  }

  lemma VisitedPages(off: nat, len: nat)
    requires len > 0
    ensures (off + len - 1) / PAGE_SIZE == off / PAGE_SIZE + (len + PAGE_SIZE - 1) / PAGE_SIZE - 1
            + (if off % PAGE_SIZE + (len - 1) % PAGE_SIZE >= PAGE_SIZE then 1 else 0)
  {
  }

  /** So all touched pages are marked if and only if the loop does not stop early, which it never does when aligned. */
  lemma ReservesIsOverlap(start: nat, pages: nat, e: MemEntry)
    requires start % PAGE_SIZE == 0 && !e.usable
    ensures var end := start + pages * PAGE_SIZE;
            && ((forall i: nat :: i < pages ==> (Reserves(start, end, e, i) <==> Touches(start, e, i))) <==>
                !StopsEarly(start, end, e))
            && (e.base % PAGE_SIZE == 0 ==> !StopsEarly(start, end, e))
  {
    hide Reserves, Touches, StopsEarly, High;
    var end := start + pages * PAGE_SIZE;
    forall i: nat | i < pages
      ensures Reserves(start, end, e, i) <==>
              Touches(start, e, i) && !(StopsEarly(start, end, e) && i == (High(end, e) - 1 - start) / PAGE_SIZE)
    {
      ReservesExactly(start, pages, e, i);
    }
    if StopsEarly(start, end, e) {
      LastTouched(start, pages, e);
      var last: nat := (High(end, e) - 1 - start) / PAGE_SIZE;
      assert last < pages && Touches(start, e, last) && !Reserves(start, end, e, last);
    }
    if e.base % PAGE_SIZE == 0 {
      AlignedStopsInTime(start, end, e);
    }
  }

  /** A reserved region of one page length that starts in the middle of a page: its second page is not marked. */
  lemma LastPageMissed()
    ensures var e := MemEntry(0x10_0800, 0x1000, false);
            && StopsEarly(0x10_0000, 0x10_0000 + 512 * PAGE_SIZE, e) && Touches(0x10_0000, e, 1)
            && !Reserves(0x10_0000, 0x10_0000 + 512 * PAGE_SIZE, e, 1)
  {
  }

  lemma LastTouched(start: nat, pages: nat, e: MemEntry)
    requires start % PAGE_SIZE == 0 && StopsEarly(start, start + pages * PAGE_SIZE, e)
    ensures var last := (High(start + pages * PAGE_SIZE, e) - 1 - start) / PAGE_SIZE;
            0 <= last < pages && Touches(start, e, last)
  {
    var hi := High(start + pages * PAGE_SIZE, e);
    var off := hi - 1 - start;
    assert off / PAGE_SIZE * PAGE_SIZE <= off < (off / PAGE_SIZE + 1) * PAGE_SIZE;
  }

  lemma AlignedStopsInTime(start: nat, end: nat, e: MemEntry)
    requires start % PAGE_SIZE == 0 && e.base % PAGE_SIZE == 0
    ensures !StopsEarly(start, end, e)
  {
    assert Low(start, e) >= start && (Low(start, e) - start) % PAGE_SIZE == 0;
  }

  class Pmm {
    const bitmap: array<byte>
    var start: u64
    var end: u64
    var maxPages: u32
    var totalMemory: u64
    var totalAllocations: nat
    var failedAllocations: nat

    ghost predicate Valid()
      reads this
    {
      && bitmap.Length == BITMAP_BYTES
      && maxPages <= 8 * BITMAP_BYTES
      && MEGABYTE <= start && start % PAGE_SIZE == 0
      && end == start + maxPages * PAGE_SIZE
    }

    /** The state of every page of the window; true is used. */
    ghost function Used(): (s: seq<bool>)
      requires Valid()
      reads this, bitmap
      ensures |s| == maxPages
    {
      BitStates(bitmap[..], maxPages)
    }

    /**
     Sets up the window from the memory map: the first largest usable entry
     above 1 MiB, cut to what the bitmap can track. The pages that start out
     used are those of overlapping reserved entries and the first 256.
     */
    constructor (entries: seq<MemEntry>)
      requires WellFormedMap(entries)
      ensures Valid() && fresh(bitmap)
      ensures exists size: nat :: Largest(entries, start, size) && maxPages == WindowPages(size)
      ensures forall i :: 0 <= i < maxPages ==>
                (Used()[i] <==> i < 256 || exists e :: e in entries && Reserves(start, end, e, i))
      ensures totalMemory == Wrap64(UsableBytes(entries)) && totalAllocations == 0 && failedAllocations == 0
    {
      hide UsableBytes, Reserves, Largest;
      var first, size, total := ChooseRegion(entries);
      LargestFits(entries, first, size);
      bitmap := new byte[BITMAP_BYTES](_ => 0);
      start := first;
      maxPages := WindowPages(size);
      end := first + WindowPages(size) * PAGE_SIZE;
      totalMemory := total;
      totalAllocations, failedAllocations := 0, 0;
      new;
      forall i: nat | i < maxPages ensures !Used()[i] { ZeroBit(i % 8); }
      for n := 0 to |entries|
        modifies bitmap
        invariant forall i :: 0 <= i < maxPages ==>
                    (Used()[i] <==> exists e :: e in entries[..n] && Reserves(start, end, e, i))
      {
        ghost var before := Used();
        assert entries[..n + 1] == entries[..n] + [entries[n]];
        MarkReserved(entries[n]);
      }
      assert entries[..|entries|] == entries;
      MarkRun(0, if LOW_PAGES < maxPages then LOW_PAGES else maxPages);
    }

    /** Marks the pages of one reserved entry that fall in the window. */
    method MarkReserved(e: MemEntry)
      requires Valid() && e.base + e.length < 0x1_0000_0000_0000_0000
      modifies bitmap
      ensures forall i :: 0 <= i < maxPages ==> Used()[i] == (old(Used())[i] || Reserves(start, end, e, i))
    {
      if e.usable {
        return;
      }
      if e.base >= end || e.base + e.length <= start {
        return;
      }
      var regionStart := e.base;
      var regionEnd := e.base + e.length;
      if regionStart < start {
        regionStart := start;
      }
      if regionEnd > end {
        regionEnd := end;
      }
      MarkRegion(regionStart, regionEnd);
    }

    /** The marking loop over addresses of one clipped region. */
    method MarkRegion(regionStart: nat, regionEnd: nat)
      requires Valid() && start <= regionStart <= regionEnd <= end
      modifies bitmap
      ensures Used() == Fill(old(Used()), PageIndex(start, regionStart),
                             (regionEnd - regionStart + PAGE_SIZE - 1) / PAGE_SIZE, true)
    {
      var addr := regionStart;
      ghost var j: nat := 0;
      while addr < regionEnd
        invariant addr == regionStart + j * PAGE_SIZE
        invariant addr < regionEnd + PAGE_SIZE
        invariant Used() == Fill(old(Used()), PageIndex(start, regionStart), j, true)
      {
        var offset := addr - start;
        var pageIndex := offset / PAGE_SIZE;
        assert pageIndex == PageIndex(start, regionStart) + j;
        if pageIndex < maxPages {
          MarkUsed(pageIndex);
        }
        addr := addr + PAGE_SIZE;
        j := j + 1;
      }
    }

    /** `page_bitmap[i / 8] & (1 << (i % 8))` */
    predicate IsUsed(i: nat)
      requires Valid() && i < maxPages
      reads this, bitmap
      ensures IsUsed(i) == Used()[i]
    {
      Bit(bitmap[i / 8], i % 8)
    }

    /** `page_bitmap[i / 8] |= 1 << (i % 8)` */
    method MarkUsed(i: nat)
      requires Valid() && i < maxPages
      modifies bitmap
      ensures Used() == old(Used())[i := true]
    {
      bitmap[i / 8] := WithBit(bitmap[i / 8], i % 8);
    }

    method MarkFree(i: nat)
      requires Valid() && i < maxPages
      modifies bitmap
      ensures Used() == old(Used())[i := false]
    {
      bitmap[i / 8] := WithoutBit(bitmap[i / 8], i % 8);
    }

    /** The statistics after one allocation call that succeeded or failed. */
    ghost predicate CountedCall(ok: bool, total: nat, failed: nat)
      reads this
    {
      totalAllocations == total + (if ok then 1 else 0) && failedAllocations == failed + (if ok then 0 else 1)
    }

    /** Allocates the lowest free page; 0 exactly when every page is used. */
    method AllocPage() returns (addr: u64)
      requires Valid()
      modifies this`totalAllocations, this`failedAllocations, bitmap
      ensures addr == 0 ==> Used() == old(Used()) && forall i: nat :: !FreeRun(old(Used()), i, 1)
      ensures addr != 0 ==>
                && InWindow(start, maxPages, addr)
                && FirstFreeRun(old(Used()), PageIndex(start, addr), 1)
                && Used() == old(Used())[PageIndex(start, addr) := true]
      ensures CountedCall(addr != 0, old(totalAllocations), old(failedAllocations))
    {
      hide FirstFreeRun, FreeRun, PageIndex, InWindow;
      for i := 0 to maxPages
        invariant bitmap[..] == old(bitmap[..])
        invariant forall k :: 0 <= k < i ==> Used()[k]
      {
        if !IsUsed(i) {
          LowestFree(Used(), i);
          PageAddress(start, maxPages, i);
          MarkUsed(i);
          addr := start + i * PAGE_SIZE;
          totalAllocations := totalAllocations + 1;
          return;
        }
      }
      NothingFree(Used());
      failedAllocations := failedAllocations + 1;
      addr := 0;
    }

    /** Allocates the lowest run of `count` free pages; 0 exactly when there is none. */
    method AllocPages(count: u64) returns (addr: u64)
      requires Valid()
      modifies this`totalAllocations, this`failedAllocations, bitmap
      ensures addr == 0 ==>
                && Used() == old(Used())
                && (count == 0 || forall i: nat :: !FreeRun(old(Used()), i, count))
      ensures addr != 0 ==>
                && count > 0
                && InWindow(start, maxPages, addr)
                && FirstFreeRun(old(Used()), PageIndex(start, addr), count)
                && Used() == Fill(old(Used()), PageIndex(start, addr), count, true)
      ensures count > 0 ==> CountedCall(addr != 0, old(totalAllocations), old(failedAllocations))
    {
      if count == 0 {
        return 0;
      }
      if count == 1 {
        addr := AllocPage();
        assert addr != 0 ==> Used() == Fill(old(Used()), PageIndex(start, addr), 1, true);
        return;
      }
      addr := AllocRun(count);
    }

    /** The search for two or more consecutive free pages. */
    method AllocRun(count: u64) returns (addr: u64)
      requires Valid() && count > 1
      modifies this`totalAllocations, this`failedAllocations, bitmap
      ensures addr == 0 ==> Used() == old(Used()) && forall i: nat :: !FreeRun(old(Used()), i, count)
      ensures addr != 0 ==>
                && InWindow(start, maxPages, addr)
                && FirstFreeRun(old(Used()), PageIndex(start, addr), count)
                && Used() == Fill(old(Used()), PageIndex(start, addr), count, true)
      ensures CountedCall(addr != 0, old(totalAllocations), old(failedAllocations))
    {
      var foundPages, startPage := 0, 0;
      ghost var used := Used();
      for i := 0 to maxPages
        invariant Used() == used
        invariant 0 <= foundPages < count && foundPages <= i
        invariant foundPages > 0 ==> startPage == i - foundPages
        invariant NoRunYet(used, i, foundPages, count)
      {
        if !IsUsed(i) {
          if foundPages == 0 {
            startPage := i;
          }
          foundPages := foundPages + 1;
          if foundPages == count {
            MarkRun(startPage, count);
            addr := start + startPage * PAGE_SIZE;
            totalAllocations := totalAllocations + 1;
            return;
          }
        } else {
          foundPages := 0;
        }
      }
      assert forall j: nat :: FreeRun(used, j, count) ==> j < maxPages - foundPages;
      failedAllocations := failedAllocations + 1;
      addr := 0;
    }

    /** Marks a run of pages used, one bit at a time. */
    method MarkRun(first: nat, count: nat)
      requires Valid() && first + count <= maxPages
      modifies bitmap
      ensures Used() == Fill(old(Used()), first, count, true)
    {
      for j := 0 to count
        invariant Used() == Fill(old(Used()), first, j, true)
      {
        MarkUsed(first + j);
      }
    }

    method FreePage(page: u64)
      requires Valid()
      modifies bitmap
      ensures Used() == FreeOne(old(Used()), start, page)
    {
      if page < start || page >= end || page % PAGE_SIZE != 0 {
        return;
      }
      var pageIndex := (page - start) / PAGE_SIZE;
      if pageIndex >= maxPages {
        return;
      }
      if !IsUsed(pageIndex) {
        return;
      }
      MarkFree(pageIndex);
    }

    /** Frees `count` pages, cutting the range at the end of the window. */
    method FreePages(page: u64, count: u64)
      requires Valid()
      modifies bitmap
      ensures Used() == FreeMany(old(Used()), start, page, FreedCount(page, count))
      ensures InWindow(start, maxPages, page) && page + count * PAGE_SIZE < 0x1_0000_0000_0000_0000 ==>
                Used() == Fill(old(Used()), PageIndex(start, page), Min(count, maxPages - PageIndex(start, page)),
                               false)
      ensures !InWindow(start, maxPages, page) ==> Used() == old(Used())
    {
      hide FreeMany, Fill, FreeOne, PageIndex;
      FreedRun(page, count);
      FreeSingle(Used(), start, page);
      if count == 0 {
        return;
      }
      if count == 1 {
        FreePage(page);
        return;
      }
      if page < start || page >= end || page % PAGE_SIZE != 0 {
        return;
      }
      var endPage := Wrap64(page + count * PAGE_SIZE);
      var n := count;
      if endPage > end {
        n := (end - page) / PAGE_SIZE;
      }
      FreeEach(page, n);
    }

    method FreeEach(page: u64, n: nat)
      requires Valid()
      modifies bitmap
      ensures Used() == FreeMany(old(Used()), start, page, n)
    {
      for i := 0 to n
        invariant Used() == FreeMany(old(Used()), start, page, i)
      {
        FreePage(Wrap64(page + i * PAGE_SIZE));
      }
    }

    /** Inside the window and without wrap-around, the freed pages are the run cut at the end of the window. */
    lemma FreedRun(page: u64, count: u64)
      requires Valid()
      ensures InWindow(start, maxPages, page) && page + count * PAGE_SIZE < 0x1_0000_0000_0000_0000 ==>
                var i := PageIndex(start, page);
                FreeMany(Used(), start, page, FreedCount(page, count))
                == Fill(Used(), i, Min(count, maxPages - i), false)
      ensures !InWindow(start, maxPages, page) ==> FreeMany(Used(), start, page, FreedCount(page, count)) == Used()
    {
      hide Fill, Used, FreeMany;
      if InWindow(start, maxPages, page) && page + count * PAGE_SIZE < 0x1_0000_0000_0000_0000 {
        CutRun(start, maxPages, page, count);
        FreeManyClearsRun(Used(), start, PageIndex(start, page), FreedCount(page, count));
      } else if !InWindow(start, maxPages, page) {
        FreeNone(Used(), start, page, FreedCount(page, count));
      }
    }

    function FreedCount(page: u64, count: u64): nat
      reads this
    {
      if count <= 1 then count
      else if page < start || page >= end || page % PAGE_SIZE != 0 then 0
      else if Wrap64(page + count * PAGE_SIZE) > end then (end - page) / PAGE_SIZE
      else count
    }

    method IsPageFree(page: u64) returns (free: bool)
      requires Valid()
      ensures free <==> InWindow(start, maxPages, page) && !Used()[PageIndex(start, page)]
    {
      if page < start || page >= end || page % PAGE_SIZE != 0 {
        return false;
      }
      var pageIndex := (page - start) / PAGE_SIZE;
      if pageIndex >= maxPages {
        return false;
      }
      free := !IsUsed(pageIndex);
    }

    method GetFreeMemory() returns (bytes: nat)
      requires Valid()
      ensures bytes == Count(Used(), false) * PAGE_SIZE
    {
      var freePages := 0;
      for i := 0 to maxPages
        invariant freePages == Count(Used()[..i], false)
      {
        assert Used()[..i + 1][..i] == Used()[..i];
        if !IsUsed(i) {
          freePages := freePages + 1;
        }
      }
      assert Used()[..maxPages] == Used();
      bytes := freePages * PAGE_SIZE;
    }

    method GetUsedMemory() returns (bytes: nat)
      requires Valid()
      ensures bytes == Count(Used(), true) * PAGE_SIZE
    {
      var usedPages := 0;
      for i := 0 to maxPages
        invariant usedPages == Count(Used()[..i], true)
      {
        assert Used()[..i + 1][..i] == Used()[..i];
        if IsUsed(i) {
          usedPages := usedPages + 1;
        }
      }
      assert Used()[..maxPages] == Used();
      bytes := usedPages * PAGE_SIZE;
    }
  }
}
