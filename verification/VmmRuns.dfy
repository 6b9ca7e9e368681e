/**
 Whole runs of vmm_allocate and vmm_free for user memory: what the areas in use
 hold, and what the allocator and the translations are made of.
 */
module VmmRuns {
  import opened Bytes
  import opened Bitmaps
  import opened PhysicalMemory
  import opened PageTables
  import opened PageRights
  import opened VirtualMemory
  import opened VmmRanges
  import opened VmmAlloc

  /** An allocation in use: the area it was given, its size, its flags and the frames behind its pages. */
  datatype Live = Live(k: nat, size: u64, flags: u64, frames: seq<u64>)

  // ---------- what is held ----------

  ghost function AllFrames(live: seq<Live>): set<nat> {
    if live == [] then {} else AllFrames(live[..|live| - 1]) + FrameSet(live[|live| - 1].frames)
  }

  lemma {:induction false} AllFramesHas(live: seq<Live>, i: nat)
    requires i < |live|
    ensures FrameSet(live[i].frames) <= AllFrames(live)
  {
    hide FrameSet;
    if i < |live| - 1 {
      AllFramesHas(live[..|live| - 1], i);
    }
  }

  lemma {:induction false} AllFramesFrom(live: seq<Live>, f: nat) returns (i: nat)
    requires f in AllFrames(live)
    ensures i < |live| && f in FrameSet(live[i].frames)
  {
    hide FrameSet;
    if f in FrameSet(live[|live| - 1].frames) {
      i := |live| - 1;
    } else {
      i := AllFramesFrom(live[..|live| - 1], f);
    }
  }

  lemma AllFramesAdd(live: seq<Live>, l: Live)
    ensures AllFrames(live + [l]) == AllFrames(live) + FrameSet(l.frames)
  {
    hide FrameSet;
    assert (live + [l])[..|live|] == live;
  }

  /** No two allocations share a frame. */
  ghost predicate FramesApart(live: seq<Live>) {
    forall i, j :: 0 <= i < j < |live| ==> FrameSet(live[i].frames) !! FrameSet(live[j].frames)
  }

  ghost function Without(live: seq<Live>, i: nat): seq<Live>
    requires i < |live|
  {
    live[..i] + live[i + 1..]
  }

  lemma WithoutAt(live: seq<Live>, i: nat, j: nat)
    requires i < |live| && j < |live| - 1
    ensures |Without(live, i)| == |live| - 1 && Without(live, i)[j] == live[if j < i then j else j + 1]
  {
  }

  lemma AllFramesWithout(live: seq<Live>, i: nat)
    requires i < |live| && FramesApart(live)
    ensures AllFrames(Without(live, i)) == AllFrames(live) - FrameSet(live[i].frames)
    ensures FramesApart(Without(live, i))
  {
    hide FrameSet, AllFrames, Without;
    var rest := Without(live, i);
    if |live| > 1 { WithoutAt(live, i, 0); } else { WithoutOne(live); }
    forall j | 0 <= j < |rest| ensures rest[j] == live[if j < i then j else j + 1] { WithoutAt(live, i, j); }
    forall f ensures f in AllFrames(rest) <==> f in AllFrames(live) - FrameSet(live[i].frames) {
      if f in AllFrames(rest) {
        var j := AllFramesFrom(rest, f);
        AllFramesHas(live, if j < i then j else j + 1);
      }
      if f in AllFrames(live) - FrameSet(live[i].frames) {
        var j := AllFramesFrom(live, f);
        AllFramesHas(rest, if j < i then j else j - 1);
      }
    }
  }

  lemma WithoutOne(live: seq<Live>)
    requires |live| == 1
    ensures Without(live, 0) == []
  {
  }

  /** Two spells of taking, one after the other. */
  lemma HoldCompose(start: nat, o: Origin, u1: seq<bool>, m1: Memory, t1: map<nat, Node>, held: set<nat>,
                    u2: seq<bool>, m2: Memory, t2: map<nat, Node>, added: set<nat>)
    requires start % PAGE_SIZE == 0
    requires Holding(start, o.used, o.mem, o.tables, u1, m1, t1, held) && Holding(start, u1, m1, t1, u2, m2, t2, added)
    ensures Holding(start, o.used, o.mem, o.tables, u2, m2, t2, held + added) && held !! added
  {
    hide EmptyTable, Took, Held, HeldDataKept;
    var a, b := t1.Keys - o.tables.Keys + held, t2.Keys - t1.Keys + added;
    TookTwice(start, o.used, u1, u2, a, b);
    assert a + b == t2.Keys - o.tables.Keys + (held + added);
    HeldStays(start, o, u1, m1, t1, held, u2, m2, t2, added);
    DataStays(start, o, u1, m1, t1, held, u2, m2, t2, added);
  }

  lemma HeldStays(start: nat, o: Origin, u1: seq<bool>, m1: Memory, t1: map<nat, Node>, held: set<nat>,
                  u2: seq<bool>, m2: Memory, t2: map<nat, Node>, added: set<nat>)
    requires start % PAGE_SIZE == 0
    requires Holding(start, o.used, o.mem, o.tables, u1, m1, t1, held) && Holding(start, u1, m1, t1, u2, m2, t2, added)
    ensures forall f :: f in held ==> f !in t2 && f !in added && f in m2 && m2[f] == EmptyTable()
  {
    hide EmptyTable, Took, Held;
    var a, b := t1.Keys - o.tables.Keys + held, t2.Keys - t1.Keys + added;
    TookTwice(start, o.used, u1, u2, a, b);
    forall f | f in held ensures f !in t2 && f !in added && f in m2 && m2[f] == EmptyTable() {
      assert f in a && f !in b;
      TookHeld(start, o.used, u1, a, f);
    }
  }

  lemma DataStays(start: nat, o: Origin, u1: seq<bool>, m1: Memory, t1: map<nat, Node>, held: set<nat>,
                  u2: seq<bool>, m2: Memory, t2: map<nat, Node>, added: set<nat>)
    requires Holding(start, o.used, o.mem, o.tables, u1, m1, t1, held) && Holding(start, u1, m1, t1, u2, m2, t2, added)
    ensures HeldDataKept(start, o.used, o.mem, m2, t2)
  {
    hide EmptyTable, Took, Held;
    forall f | f in o.mem && f !in t2 && Held(start, o.used, f) ensures f in m2 && m2[f] == o.mem[f] {
      assert f !in t1;
      TookKeeps(start, o.used, u1, t1.Keys - o.tables.Keys + held, f);
    }
  }

  lemma TookHeld(start: nat, u0: seq<bool>, used: seq<bool>, taken: set<nat>, f: nat)
    requires Took(start, u0, used, taken) && f in taken && start % PAGE_SIZE == 0
    ensures Held(start, used, f)
  {
    assert f == start + PageIndex(start, f) * PAGE_SIZE;
  }

  lemma TookKeeps(start: nat, u0: seq<bool>, used: seq<bool>, taken: set<nat>, f: nat)
    requires Took(start, u0, used, taken) && Held(start, u0, f)
    ensures Held(start, used, f)
  {
  }

  /** Giving the frames of one allocation back. */
  lemma HoldFreed(start: nat, o: Origin, used: seq<bool>, mem: Memory, tables: map<nat, Node>, held: set<nat>,
                  frames: seq<u64>, mem': Memory)
    requires start % PAGE_SIZE == 0 && Holding(start, o.used, o.mem, o.tables, used, mem, tables, held)
    requires FrameSet(frames) <= held && Distinct(frames) && DataKept(mem, mem', tables)
    ensures Holding(start, o.used, o.mem, o.tables, FreeFrames(used, start, frames), mem', tables,
                    held - FrameSet(frames))
  {
    hide EmptyTable, Took, FreeFrames, FrameSet;
    HoldThroughWrites(start, o.used, o.mem, o.tables, used, mem, tables, held, mem');
    var taken := tables.Keys - o.tables.Keys + (held - FrameSet(frames));
    assert taken + FrameSet(frames) == tables.Keys - o.tables.Keys + held;
    FreeingReturns(start, o.used, used, taken, frames);
  }

  // ---------- what is mapped ----------

  ghost predicate InArea(a: Region, p: nat) {
    exists i: nat :: i * PAGE_SIZE < a.size && p == PageOf(Step(a.base, i, PAGE_SIZE))
  }

  /** Areas in the lower half whose pages do not meet; free ones are not mapped, the others have no large pages. */
  ghost predicate AreasOk(areas: seq<Region>, view: map<nat, Translation>, hhdm: nat) {
    && (forall k :: 0 <= k < |areas| ==> UserRange(areas[k].base, areas[k].size, hhdm))
    && (forall j, k, p :: 0 <= j < k < |areas| && InArea(areas[j], p) ==> !InArea(areas[k], p))
    && (forall j, k :: 0 <= j < k < |areas| ==> areas[j].base != areas[k].base)
    && (forall k :: 0 <= k < |areas| ==>
          if areas[k].isUsed then SmallPages(view, areas[k].base, areas[k].size / PAGE_SIZE)
          else Untouched(view, areas[k]))
  }

  /** The pages from `base` on lead to `frames`, with the rights of `flags`. */
  ghost predicate Leads(view: map<nat, Translation>, base: nat, frames: seq<u64>, flags: u64) {
    forall i: nat :: i < |frames| ==>
      && PageOf(Step(base, i, PAGE_SIZE)) in view
      && view[PageOf(Step(base, i, PAGE_SIZE))] == Page4K(frames[i], LowFlags(flags))
  }

  ghost predicate LiveOk(areas: seq<Region>, view: map<nat, Translation>, l: Live) {
    && l.k < |areas| && !areas[l.k].isUsed && l.size > 0 && |l.frames| == PageCount(l.size)
    && |l.frames| * PAGE_SIZE <= areas[l.k].size && Distinct(l.frames) && Bit(l.flags, 2)
    && Leads(view, areas[l.k].base, l.frames, l.flags)
  }

  ghost predicate InLive(areas: seq<Region>, l: Live, p: nat)
    requires l.k < |areas|
  {
    p in RangePages(areas[l.k].base, |l.frames|, PAGE_SIZE)
  }

  ghost predicate SameAt(v0: map<nat, Translation>, view: map<nat, Translation>, p: nat) {
    (p in view <==> p in v0) && (p in v0 ==> view[p] == v0[p])
  }

  /** The allocations are in distinct areas and mapped there; everything else is mapped as in `v0`. */
  ghost predicate Laid(areas: seq<Region>, v0: map<nat, Translation>, view: map<nat, Translation>, live: seq<Live>) {
    && (forall i :: 0 <= i < |live| ==> LiveOk(areas, view, live[i]))
    && (forall i, j :: 0 <= i < j < |live| ==> live[i].k != live[j].k)
    && (forall p :: (forall i :: 0 <= i < |live| ==> !InLive(areas, live[i], p)) ==> SameAt(v0, view, p))
  }

  lemma LiveKnown(areas: seq<Region>, view: map<nat, Translation>, l: Live)
    requires LiveOk(areas, view, l)
    ensures l.k < |areas| && |l.frames| * PAGE_SIZE <= areas[l.k].size
  {
  }

  /** A change of the view outside the pages of an allocation. */
  lemma LeadsStill(view: map<nat, Translation>, view': map<nat, Translation>, base: nat, frames: seq<u64>, flags: u64)
    requires Leads(view, base, frames, flags)
    requires forall p :: p in RangePages(base, |frames|, PAGE_SIZE) ==> SameAt(view, view', p)
    ensures Leads(view', base, frames, flags)
  {
    hide PageOf, Step, RangePages, LowFlags;
    forall i: nat | i < |frames|
      ensures PageOf(Step(base, i, PAGE_SIZE)) in view'
      ensures view'[PageOf(Step(base, i, PAGE_SIZE))] == Page4K(frames[i], LowFlags(flags))
    {
      RangeMember(base, |frames|, PAGE_SIZE, PageOf(Step(base, i, PAGE_SIZE)));
    }
  }

  /** One more allocation, in an area without one. */
  lemma LaidMore(areas: seq<Region>, v0: map<nat, Translation>, hhdm: nat, view: map<nat, Translation>, live: seq<Live>,
                 l: Live, view': map<nat, Translation>)
    requires AreasOk(areas, v0, hhdm) && Laid(areas, v0, view, live) && LiveOk(areas, view', l)
    requires forall i :: 0 <= i < |live| ==> live[i].k != l.k
    requires forall p :: !InLive(areas, l, p) ==> SameAt(view, view', p)
    ensures Laid(areas, v0, view', live + [l])
  {
    hide AreasOk, LiveOk, InLive, SameAt;
    var live' := live + [l];
    LiveKnown(areas, view', l);
    forall i | 0 <= i < |live| ensures LiveOk(areas, view', live[i]) {
      LiveKnown(areas, view, live[i]);
      LiveStill(areas, v0, hhdm, view, live[i], view', l);
    }
    forall i | 0 <= i < |live'| ensures live'[i].k < |areas| {
      if i < |live| { LiveKnown(areas, view, live[i]); }
    }
    forall p | forall i :: 0 <= i < |live'| ==> !InLive(areas, live'[i], p) ensures SameAt(v0, view', p) {
      assert live'[|live|] == l && !InLive(areas, l, p);
      assert forall i :: 0 <= i < |live| ==> live'[i] == live[i];
      SameTwice(v0, view, view', p);
    }
  }

  lemma SameTwice(v0: map<nat, Translation>, v1: map<nat, Translation>, v2: map<nat, Translation>, p: nat)
    requires SameAt(v0, v1, p) && SameAt(v1, v2, p)
    ensures SameAt(v0, v2, p)
  {
  }

  lemma LiveStill(areas: seq<Region>, v0: map<nat, Translation>, hhdm: nat, view: map<nat, Translation>, m: Live,
                  view': map<nat, Translation>, l: Live)
    requires AreasOk(areas, v0, hhdm) && LiveOk(areas, view, m) && l.k < |areas| && m.k != l.k
    requires |l.frames| * PAGE_SIZE <= areas[l.k].size
    requires forall p :: !InLive(areas, l, p) ==> SameAt(view, view', p)
    ensures LiveOk(areas, view', m)
  {
    hide AreasOk, SameAt, RangePages, Leads, Distinct, Bit;
    forall p | p in RangePages(areas[m.k].base, |m.frames|, PAGE_SIZE) ensures SameAt(view, view', p) {
      PagesApart(areas, v0, hhdm, m, l, p);
    }
    LeadsStill(view, view', areas[m.k].base, m.frames, m.flags);
  }

  lemma PagesApart(areas: seq<Region>, v0: map<nat, Translation>, hhdm: nat, m: Live, l: Live, p: nat)
    requires AreasOk(areas, v0, hhdm) && m.k < |areas| && l.k < |areas| && m.k != l.k
    requires |m.frames| * PAGE_SIZE <= areas[m.k].size && |l.frames| * PAGE_SIZE <= areas[l.k].size
    requires InLive(areas, m, p)
    ensures !InLive(areas, l, p)
  {
    hide InArea, InLive, SmallPages, Untouched, UserRange;
    RangeInArea(areas, m, p);
    if InLive(areas, l, p) {
      RangeInArea(areas, l, p);
    }
  }

  lemma RangeInArea(areas: seq<Region>, l: Live, p: nat)
    requires l.k < |areas| && |l.frames| * PAGE_SIZE <= areas[l.k].size && InLive(areas, l, p)
    ensures InArea(areas[l.k], p)
  {
    hide PageOf, Step, RangePages;
    RangeMember(areas[l.k].base, |l.frames|, PAGE_SIZE, p);
    var i: nat :| i < |l.frames| && p == PageOf(Step(areas[l.k].base, i, PAGE_SIZE));
    assert i * PAGE_SIZE < areas[l.k].size;
  }

  /** Taking an allocation out again. */
  lemma LaidLess(areas: seq<Region>, v0: map<nat, Translation>, hhdm: nat, view: map<nat, Translation>, live: seq<Live>,
                 i: nat, view': map<nat, Translation>)
    requires AreasOk(areas, v0, hhdm) && Laid(areas, v0, view, live) && i < |live| && live[i].k < |areas|
    requires view' == view - RangePages(areas[live[i].k].base, |live[i].frames|, PAGE_SIZE)
    ensures Laid(areas, v0, view', Without(live, i))
  {
    hide AreasOk, Leads, RangePages, Without;
    var l, rest := live[i], Without(live, i);
    assert LiveOk(areas, view, l);
    if |live| > 1 { WithoutAt(live, i, 0); } else { WithoutOne(live); }
    forall j | 0 <= j < |rest| ensures rest[j] == live[if j < i then j else j + 1] { WithoutAt(live, i, j); }
    forall p ensures !InLive(areas, l, p) ==> SameAt(view, view', p) {
    }
    forall j | 0 <= j < |rest| ensures LiveOk(areas, view', rest[j]) {
      LiveStill(areas, v0, hhdm, view, rest[j], view', l);
    }
    forall p | forall j :: 0 <= j < |rest| ==> !InLive(areas, rest[j], p) ensures SameAt(v0, view', p) {
      if InLive(areas, l, p) {
        UnusedWasFree(areas, v0, hhdm, l, p);
      } else {
        forall j | 0 <= j < |live| ensures !InLive(areas, live[j], p) {
          assert j != i ==> live[j] == rest[if j < i then j else j - 1];
        }
        assert SameAt(v0, view, p);
      }
    }
  }

  lemma UnusedWasFree(areas: seq<Region>, v0: map<nat, Translation>, hhdm: nat, l: Live, p: nat)
    requires AreasOk(areas, v0, hhdm) && l.k < |areas| && !areas[l.k].isUsed && InLive(areas, l, p)
    requires |l.frames| * PAGE_SIZE <= areas[l.k].size
    ensures p !in v0
  {
    hide InLive, PageOf, Step, SmallPages, UserRange;
    RangeInArea(areas, l, p);
  }

  // ---------- the calls ----------

  /** The pages of a mapped range, read back. */
  lemma {:induction false} ReadBack(view: map<nat, Translation>, base: nat, frames: seq<u64>, flags: u64, n: nat)
    requires Leads(view, base, frames, flags) && n <= |frames|
    requires forall i :: 0 <= i < |frames| ==> frames[i] > 0
    requires base % PAGE_SIZE == 0 && base + |frames| * PAGE_SIZE <= PAGES * PAGE_SIZE
    ensures forall i: nat :: i < n ==> PhysOf(view, Step(base, i, PAGE_SIZE)) == frames[i]
    ensures PhysRange(view, base, n) == frames[..n]
    ensures MappedPages(view, base, n) == RangePages(base, n, PAGE_SIZE)
  {
    hide PageOf, Step, LowFlags;
    if n > 0 {
      ReadBack(view, base, frames, flags, n - 1);
      AlignedStep(base, n - 1);
      assert frames[..n] == frames[..n - 1] + [frames[n - 1]];
    }
  }

  lemma LeadsSmall(view: map<nat, Translation>, base: nat, frames: seq<u64>, flags: u64)
    requires Leads(view, base, frames, flags)
    ensures SmallPages(view, base, |frames|)
  {
    hide PageOf, Step, LowFlags;
  }

  /** The areas with those of the live allocations marked. */
  ghost predicate Marked(areas0: seq<Region>, areas: seq<Region>, live: seq<Live>) {
    && |areas| == |areas0|
    && forall k :: 0 <= k < |areas| ==> areas[k] == areas0[k].(isUsed := areas0[k].isUsed || InUse(live, k))
  }

  ghost predicate InUse(live: seq<Live>, k: nat) {
    exists i :: 0 <= i < |live| && live[i].k == k
  }

  /** The state of a run: what is held, what is mapped and which areas are marked, since the run began. */
  ghost predicate Running(vmm: Vmm, o: Origin, areas0: seq<Region>, v0: map<nat, Translation>, live: seq<Live>)
    reads vmm, vmm.pmm, vmm.pmm.bitmap
  {
    && vmm.Valid() && vmm.pmm.end <= NO_EXECUTE_BIT && AreasOk(areas0, v0, vmm.hhdm)
    && HoldingNow(vmm, o, AllFrames(live)) && FramesApart(live)
    && (forall i :: 0 <= i < |live| ==> FramesOk(vmm.pmm.start, vmm.pmm.maxPages, live[i].frames))
    && Laid(areas0, v0, vmm.View(), live)
    && Marked(areas0, vmm.userAreas, live)
    && (Open(o.mem, o.tables) ==> Open(vmm.mem, vmm.tables))
  }

  /** No area has a large page. */
  lemma AreaSmall(areas: seq<Region>, v0: map<nat, Translation>, hhdm: nat, view: map<nat, Translation>,
                  live: seq<Live>, k: nat)
    requires AreasOk(areas, v0, hhdm) && Laid(areas, v0, view, live) && k < |areas|
    ensures SmallPages(view, areas[k].base, areas[k].size / PAGE_SIZE)
  {
    hide PageOf, Step, AreasOk, Distinct;
    BeforeSmall(areas, v0, hhdm, k);
    forall i: nat | i < areas[k].size / PAGE_SIZE ensures NotLarge(view, Step(areas[k].base, i, PAGE_SIZE)) {
      var p := PageOf(Step(areas[k].base, i, PAGE_SIZE));
      if j :| 0 <= j < |live| && InLive(areas, live[j], p) {
        LiveSmall(areas, view, live[j], p);
      } else {
        assert SameAt(v0, view, p) && NotLarge(v0, Step(areas[k].base, i, PAGE_SIZE));
      }
    }
  }

  lemma BeforeSmall(areas: seq<Region>, v0: map<nat, Translation>, hhdm: nat, k: nat)
    requires AreasOk(areas, v0, hhdm) && k < |areas|
    ensures SmallPages(v0, areas[k].base, areas[k].size / PAGE_SIZE) && UserRange(areas[k].base, areas[k].size, hhdm)
  {
    hide SmallPages, Untouched, InArea;
    if !areas[k].isUsed {
      UntouchedIsSmall(v0, areas[k]);
    }
  }

  lemma LiveSmall(areas: seq<Region>, view: map<nat, Translation>, l: Live, p: nat)
    requires LiveOk(areas, view, l) && InLive(areas, l, p)
    ensures p in view && view[p].Page4K?
  {
    hide PageOf, Step, RangePages, Distinct;
    RangeMember(areas[l.k].base, |l.frames|, PAGE_SIZE, p);
  }

  /** An area that no allocation has and that was not in use is not mapped. */
  lemma FreeArea(areas: seq<Region>, v0: map<nat, Translation>, hhdm: nat, view: map<nat, Translation>, live: seq<Live>,
                 k: nat, n: nat)
    requires AreasOk(areas, v0, hhdm) && Laid(areas, v0, view, live) && k < |areas| && !areas[k].isUsed
             && !InUse(live, k)
    requires n * PAGE_SIZE <= areas[k].size
    ensures RangePages(areas[k].base, n, PAGE_SIZE) !! view.Keys
  {
    hide AreasOk, Leads, RangePages, Distinct;
    var l := Live(k, 1, 0, seq(n, i => 0));
    forall p | p in RangePages(areas[k].base, n, PAGE_SIZE) ensures p !in view {
      forall i | 0 <= i < |live| ensures !InLive(areas, live[i], p) {
        assert live[i].k != k;
        PagesApart(areas, v0, hhdm, l, live[i], p);
      }
      assert SameAt(v0, view, p);
      UnusedWasFree(areas, v0, hhdm, l, p);
    }
  }

  /** Without no-execute the new pages lead to the new frames, and no other page changes. */
  lemma FreshLeads(view: map<nat, Translation>, base: nat, frames: seq<u64>, flags: u64, nx: bool)
    requires forall i :: 0 <= i < |frames| ==> frames[i] % PAGE_SIZE == 0
    requires base + |frames| * PAGE_SIZE <= PAGES * PAGE_SIZE && !SetsNoExecute(flags, nx)
    ensures Leads(MapFrames(view, base, frames, flags, nx), base, frames, flags)
    ensures forall p :: p !in RangePages(base, |frames|, PAGE_SIZE) ==>
              SameAt(view, MapFrames(view, base, frames, flags, nx), p)
  {
    hide PageOf, Step, MapFrames, RangePages, SetsNoExecute, LowFlags;
    MapFramesAt(view, base, frames, flags, nx);
  }

  lemma MarkMore(areas0: seq<Region>, areas: seq<Region>, live: seq<Live>, l: Live)
    requires Marked(areas0, areas, live) && l.k < |areas|
    ensures Marked(areas0, areas[l.k := areas[l.k].(isUsed := true)], live + [l])
  {
    forall k: nat ensures InUse(live + [l], k) <==> InUse(live, k) || k == l.k {
      assert (live + [l])[|live|] == l;
      if InUse(live, k) {
        var i :| 0 <= i < |live| && live[i].k == k;
        assert (live + [l])[i].k == k;
      }
    }
  }

  lemma MarkLess(areas0: seq<Region>, areas: seq<Region>, live: seq<Live>, i: nat)
    requires Marked(areas0, areas, live) && i < |live| && live[i].k < |areas0| && !areas0[live[i].k].isUsed
    requires forall a, b :: 0 <= a < b < |live| ==> live[a].k != live[b].k
    ensures Marked(areas0, areas[live[i].k := areas[live[i].k].(isUsed := false)], Without(live, i))
  {
    hide Without;
    var rest := Without(live, i);
    if |live| > 1 { WithoutAt(live, i, 0); } else { WithoutOne(live); }
    forall j | 0 <= j < |rest| ensures rest[j] == live[if j < i then j else j + 1] { WithoutAt(live, i, j); }
    forall k: nat ensures InUse(rest, k) <==> InUse(live, k) && k != live[i].k {
      if InUse(rest, k) {
        var j :| 0 <= j < |rest| && rest[j].k == k;
        assert live[if j < i then j else j + 1].k == k;
      }
      if InUse(live, k) && k != live[i].k {
        var j :| 0 <= j < |live| && live[j].k == k;
        assert rest[if j < i then j else j - 1].k == k;
      }
    }
  }

  lemma FirstIs(areas: seq<Region>, k: nat)
    requires k < |areas| && forall i, j :: 0 <= i < j < |areas| ==> areas[i].base != areas[j].base
    ensures FirstAt(areas, areas[k].base) == k
  {
    hide FirstAt;
  }

  lemma ApartMore(live: seq<Live>, l: Live)
    requires FramesApart(live) && AllFrames(live) !! FrameSet(l.frames)
    ensures FramesApart(live + [l])
  {
    hide FrameSet, AllFrames;
    var s := live + [l];
    forall i, j | 0 <= i < j < |s| ensures FrameSet(s[i].frames) !! FrameSet(s[j].frames) {
      if j == |live| {
        AllFramesHas(live, i);
      }
    }
  }

  /** What a call of vmm_allocate needs. */
  lemma ReadyToAllocate(vmm: Vmm, o: Origin, areas0: seq<Region>, v0: map<nat, Translation>, live: seq<Live>)
    requires Running(vmm, o, areas0, v0, live)
    ensures forall a :: a in vmm.userAreas ==>
              UserRange(a.base, a.size, vmm.hhdm) && SmallPages(vmm.View(), a.base, a.size / PAGE_SIZE)
  {
    hide Good, Flat, Holding, AreasOk, Laid, SmallPages, UserRange, FramesApart;
    forall a | a in vmm.userAreas
      ensures UserRange(a.base, a.size, vmm.hhdm) && SmallPages(vmm.View(), a.base, a.size / PAGE_SIZE)
    {
      var k: nat :| k < |vmm.userAreas| && vmm.userAreas[k] == a;
      AreaSmall(areas0, v0, vmm.hhdm, vmm.View(), live, k);
      BeforeSmall(areas0, v0, vmm.hhdm, k);
    }
  }

  /** The area that was given is not in use, neither before the run nor by an allocation of it. */
  lemma GivenArea(areas0: seq<Region>, areas: seq<Region>, live: seq<Live>, k: nat)
    requires Marked(areas0, areas, live) && k < |areas| && !areas[k].isUsed
    ensures k < |areas0| && !areas0[k].isUsed && !InUse(live, k) && areas[k] == areas0[k]
    ensures forall i :: 0 <= i < |live| ==> live[i].k != k
  {
  }

  /** One call of vmm_allocate in a run. */
  method AllocateOne(vmm: Vmm, size: u64, flags: u64, ghost o: Origin, ghost areas0: seq<Region>,
                     ghost v0: map<nat, Translation>, ghost live: seq<Live>)
    returns (addr: u64, ghost l: Live)
    requires vmm.Valid() && Running(vmm, o, areas0, v0, live) && OpOk(Request(size, flags), areas0, vmm.usingNx)
    modifies vmm`mem, vmm`tables, vmm`userAreas, vmm.pmm`totalAllocations, vmm.pmm`failedAllocations, vmm.pmm.bitmap
    ensures addr == 0 ==> Running(vmm, o, areas0, v0, live)
    ensures addr != 0 ==>
              && Running(vmm, o, areas0, v0, live + [l]) && l.size == size && l.k < |areas0| && areas0[l.k].base == addr
              && l.flags == Or64(flags, areas0[l.k].flags)
    ensures Answered(old(PointAt(vmm)), Request(size, flags), addr)
  {
    hide Count, Open, Spans, Added, UserPages, Leads, Good, Flat, Holding, OtherSpacesKept, MapFrames, RangePages,
         SetsNoExecute, Or64, Bit, FrameSet, AllFrames, Laid, AreasOk, Marked, FramesApart, UserRange, SmallPages,
         FramesOk, Distinct, PageCount;
    ReadyToAllocate(vmm, o, areas0, v0, live);
    ghost var start, view, areas := vmm.pmm.start, vmm.View(), vmm.userAreas;
    ghost var u1, m1, t1 := vmm.pmm.Used(), vmm.mem, vmm.tables;
    ghost var k, frames;
    addr, k, frames := Allocate(vmm, size, flags);
    l := Live(k, size, if k < |areas| then Or64(flags, areas[k].flags) else 0, frames);
    AnswerIs(Point(Count(u1, false), areas), size, flags, k, addr);
    if addr != 0 {
      GivenArea(areas0, areas, live, k);
      HoldCompose(start, o, u1, m1, t1, AllFrames(live), vmm.pmm.Used(), vmm.mem, vmm.tables, FrameSet(frames));
      AllFramesAdd(live, l);
      ApartMore(live, l);
      OrKeeps(flags, areas0[k].flags);
      Allocated(areas0, v0, vmm.hhdm, view, live, l, vmm.usingNx, start, vmm.pmm.maxPages);
      MarkMore(areas0, areas, live, l);
    } else if k < |areas| {
      GivenArea(areas0, areas, live, k);
      FreeArea(areas0, v0, vmm.hhdm, view, live, k, |frames|);
      RestoredIff(view, areas0[k].base, |frames|, PAGE_SIZE);
      HoldCompose(start, o, u1, m1, t1, AllFrames(live), vmm.pmm.Used(), vmm.mem, vmm.tables, {});
      assert AllFrames(live) + {} == AllFrames(live);
    }
  }

  lemma Allocated(areas0: seq<Region>, v0: map<nat, Translation>, hhdm: nat, view: map<nat, Translation>,
                  live: seq<Live>, l: Live, nx: bool, start: nat, pages: nat)
    requires AreasOk(areas0, v0, hhdm) && Laid(areas0, v0, view, live) && l.k < |areas0| && !areas0[l.k].isUsed
    requires forall i :: 0 <= i < |live| ==> live[i].k != l.k
    requires l.size > 0 && |l.frames| == PageCount(l.size) && |l.frames| * PAGE_SIZE <= areas0[l.k].size
    requires Distinct(l.frames) && FramesOk(start, pages, l.frames) && !SetsNoExecute(l.flags, nx) && Bit(l.flags, 2)
    ensures Laid(areas0, v0, MapFrames(view, areas0[l.k].base, l.frames, l.flags, nx), live + [l])
  {
    hide AreasOk, Laid, MapFrames, RangePages, SetsNoExecute, Leads, Distinct, SameAt, PageCount, InWindow, Bit;
    BeforeSmall(areas0, v0, hhdm, l.k);
    var base := areas0[l.k].base;
    FreshLeads(view, base, l.frames, l.flags, nx);
    LaidMore(areas0, v0, hhdm, view, live, l, MapFrames(view, base, l.frames, l.flags, nx));
  }

  lemma OrKeeps(a: u64, b: u64)
    requires Bit(a, USER)
    ensures Bit(Or64(a, b), 2)
  {
  }

  /** What a request is answered, from the area that fits first and the free pages. */
  lemma AnswerIs(p: Point, size: u64, flags: u64, k: nat, addr: u64)
    requires k <= |p.areas|
    requires size > 0 ==> forall j :: 0 <= j < k ==> !Fits(p.areas[j], PageCount(size) * PAGE_SIZE)
    requires k < |p.areas| ==> Fits(p.areas[k], PageCount(size) * PAGE_SIZE)
    requires addr != 0 ==> size > 0 && k < |p.areas| && addr == p.areas[k].base
    requires addr == 0 && size > 0 && k < |p.areas| ==>
               p.free < PageCount(size) + 3 * Spans(p.areas[k].base, PageCount(size))
    ensures Answered(p, Request(size, flags), addr)
  {
    hide PageCount, Spans, Fits;
    forall j: nat | FitsFirst(p.areas, j, PageCount(size) * PAGE_SIZE) && size > 0 ensures j == k {
    }
  }

  /** What a call of vmm_free of a live allocation needs. */
  lemma ReadyToFreeOne(vmm: Vmm, o: Origin, areas0: seq<Region>, v0: map<nat, Translation>, live: seq<Live>, i: nat)
    requires Running(vmm, o, areas0, v0, live) && i < |live|
    ensures LiveOk(areas0, vmm.View(), live[i]) && FrameSet(live[i].frames) <= AllFrames(live)
    ensures var base, n := areas0[live[i].k].base, PageCount(live[i].size);
            && 0 < base && UserRange(base, n * PAGE_SIZE, vmm.hhdm) && SmallPages(vmm.View(), base, n)
            && NoTableBehind(vmm.View(), vmm.tables, base, n)
            && PhysRange(vmm.View(), base, n) == live[i].frames
            && MappedPages(vmm.View(), base, n) == RangePages(base, n, PAGE_SIZE)
  {
    hide Good, Flat, AreasOk, SmallPages, FramesApart, Leads, Distinct, PageCount, Took, HeldDataKept, EmptyTable,
         PhysOf, PhysRange, MappedPages, RangePages, Step, InWindow, AllFrames, Bit, Open;
    var l := live[i];
    assert LiveOk(areas0, vmm.View(), l);
    BeforeSmall(areas0, v0, vmm.hhdm, l.k);
    AllFramesHas(live, i);
    NonzeroFrames(vmm.pmm.start, vmm.pmm.maxPages, l.frames);
    var base := areas0[l.k].base;
    LeadsSmall(vmm.View(), base, l.frames, l.flags);
    ReadBack(vmm.View(), base, l.frames, l.flags, |l.frames|);
    assert l.frames[..|l.frames|] == l.frames;
    forall j: nat | j < |l.frames| ensures PhysOf(vmm.View(), Step(base, j, PAGE_SIZE)) !in vmm.tables {
      assert l.frames[j] in FrameSet(l.frames);
    }
  }

  /** One call of vmm_free in a run: the i-th live allocation goes. */
  method FreeOneOf(vmm: Vmm, addr: u64, size: u64, ghost o: Origin, ghost areas0: seq<Region>,
                   ghost v0: map<nat, Translation>, ghost live: seq<Live>, ghost i: nat)
    requires Running(vmm, o, areas0, v0, live) && i < |live| && live[i].k < |areas0|
    requires addr == areas0[live[i].k].base && size == live[i].size
    modifies vmm`mem, vmm`userAreas, vmm.pmm.bitmap
    ensures Running(vmm, o, areas0, v0, Without(live, i))
  {
    hide Good, Flat, Holding, OtherSpacesKept, DataKept, RangePages, FrameSet, AllFrames, FramesApart, UserRange,
         SmallPages, FramesOk, Distinct, PageCount, Without, NoTableBehind, PhysRange, MappedPages, FreeFrames, FirstAt,
         Leads, SameAt, Open;
    ReadyToFreeOne(vmm, o, areas0, v0, live, i);
    AreaBases(areas0, v0, vmm.hhdm, vmm.userAreas, live, live[i].k);
    ghost var l, start, view, areas := live[i], vmm.pmm.start, vmm.View(), vmm.userAreas;
    ghost var u1, m1 := vmm.pmm.Used(), vmm.mem;
    hide LiveOk, AreasOk, Laid, Marked;
    LiveFrames(areas0, view, l);
    Free(vmm, addr, size);
    HoldFreed(start, o, u1, m1, vmm.tables, AllFrames(live), l.frames, vmm.mem);
    AllFramesWithout(live, i);
    LaidLess(areas0, v0, vmm.hhdm, view, live, i, vmm.View());
    LaidDistinct(areas0, v0, view, live);
    MarkLess(areas0, areas, live, i);
    OthersOk(start, vmm.pmm.maxPages, live, i);
  }

  lemma LiveFrames(areas: seq<Region>, view: map<nat, Translation>, l: Live)
    requires LiveOk(areas, view, l)
    ensures l.size > 0 && |l.frames| == PageCount(l.size) && Distinct(l.frames) && !areas[l.k].isUsed
  {
  }

  lemma LaidDistinct(areas: seq<Region>, v0: map<nat, Translation>, view: map<nat, Translation>, live: seq<Live>)
    requires Laid(areas, v0, view, live)
    ensures forall i, j :: 0 <= i < j < |live| ==> live[i].k != live[j].k
  {
  }

  lemma AreaBases(areas0: seq<Region>, v0: map<nat, Translation>, hhdm: nat, areas: seq<Region>, live: seq<Live>,
                  k: nat)
    requires AreasOk(areas0, v0, hhdm) && Marked(areas0, areas, live) && k < |areas0|
    ensures |areas| == |areas0| && areas[k].base == areas0[k].base && FirstAt(areas, areas0[k].base) == k
  {
    hide FirstAt, InArea, UserRange, SmallPages, Untouched;
    FirstIs(areas, k);
  }

  lemma OthersOk(start: nat, pages: nat, live: seq<Live>, i: nat)
    requires i < |live| && forall j :: 0 <= j < |live| ==> FramesOk(start, pages, live[j].frames)
    ensures forall j :: 0 <= j < |Without(live, i)| ==> FramesOk(start, pages, Without(live, i)[j].frames)
  {
    hide FramesOk;
  }

  // ---------- runs ----------

  /** A request, or the k-th allocation that is still in use to be freed. */
  datatype Op = Request(size: u64, flags: u64) | Release(k: nat)

  /** A request is for user memory, and no area makes it no-execute. */
  predicate OpOk(op: Op, areas: seq<Region>, nx: bool) {
    op.Request? ==>
      Bit(op.flags, USER) && forall k :: 0 <= k < |areas| ==> !SetsNoExecute(Or64(op.flags, areas[k].flags), nx)
  }

  /** What a call finds: the number of free pages, and the areas. */
  datatype Point = Point(free: nat, areas: seq<Region>)

  ghost predicate FitsFirst(areas: seq<Region>, k: nat, bytes: nat) {
    k < |areas| && Fits(areas[k], bytes) && forall j :: 0 <= j < k ==> !Fits(areas[j], bytes)
  }

  /**
   A request is answered with the first area that fits or with 0. It gets the area
   when there is one and enough pages are free.
   */
  ghost predicate Answered(p: Point, op: Op, addr: u64) {
    op.Request? ==>
      var n := PageCount(op.size);
      && (op.size == 0 || (forall k :: 0 <= k < |p.areas| ==> !Fits(p.areas[k], n * PAGE_SIZE)) ==> addr == 0)
      && forall k: nat :: op.size > 0 && FitsFirst(p.areas, k, n * PAGE_SIZE) ==>
           && (addr == 0 || addr == p.areas[k].base)
           && (p.free >= n + 3 * Spans(p.areas[k].base, n) ==> addr == p.areas[k].base)
  }

  /** What the caller keeps of an allocation. */
  datatype Grant = Grant(addr: u64, size: u64, flags: u64)

  ghost predicate Grants(areas0: seq<Region>, grants: seq<Grant>, live: seq<Live>) {
    && |grants| == |live|
    && forall i :: 0 <= i < |live| ==>
         && live[i].k < |areas0| && grants[i].addr == areas0[live[i].k].base && grants[i].size == live[i].size
         && live[i].flags == Or64(grants[i].flags, areas0[live[i].k].flags)
  }

  /** User code can use the pages of the allocation in the lower half, and write to them as its flags say. */
  ghost predicate Usable(mem: Memory, root: nat, areas: seq<Region>, l: Live)
    requires l.k < |areas|
  {
    forall j: nat :: j < |l.frames| && PageOf(Step(areas[l.k].base, j, PAGE_SIZE)) < LOWER_PAGES ==>
      var path := Indices(PageOf(Step(areas[l.k].base, j, PAGE_SIZE)));
      Allows(mem, root, path, USER_BIT) && (Allows(mem, root, path, WRITE_BIT) <==> Bit(l.flags, 1))
  }

  ghost predicate EachUsable(mem: Memory, root: nat, areas: seq<Region>, live: seq<Live>) {
    forall i :: 0 <= i < |live| ==> live[i].k < |areas| && Usable(mem, root, areas, live[i])
  }

  lemma LiveUsable(vmm: Vmm, areas: seq<Region>, l: Live)
    requires vmm.Valid() && Open(vmm.mem, vmm.tables) && LiveOk(areas, vmm.View(), l)
    ensures Usable(vmm.mem, vmm.current, areas, l)
  {
    hide Allows, Open, Forest, Bit, PageOf, Step, Indices, LowFlags, Flat, Distinct, PageCount, Backed, AllHeld;
    PageCarries(0, l.flags, false);
    forall j: nat | j < |l.frames| && PageOf(Step(areas[l.k].base, j, PAGE_SIZE)) < LOWER_PAGES
      ensures var path := Indices(PageOf(Step(areas[l.k].base, j, PAGE_SIZE)));
              && Allows(vmm.mem, vmm.current, path, USER_BIT)
              && (Allows(vmm.mem, vmm.current, path, WRITE_BIT) <==> Bit(l.flags, 1))
    {
      var p := PageOf(Step(areas[l.k].base, j, PAGE_SIZE));
      PageAllows(vmm.mem, vmm.tables, vmm.current, p, USER_BIT);
      PageAllows(vmm.mem, vmm.tables, vmm.current, p, WRITE_BIT);
    }
  }

  /**
   Any run of vmm_allocate and vmm_free of what was allocated, without no-execute:
   the allocations in use hold pairwise disjoint, distinct and zeroed frames that
   were free before the run, each mapped in an area of its own with the rights of
   the request and the area; every other page is mapped as before the run, the areas
   in use are exactly marked, and the pages used are those used before, the new
   tables and the frames of the allocations. A request with a fitting area is
   refused only for lack of free pages. If the links of the lower half were open,
   user code can use what it was given.
   */
  method Run(vmm: Vmm, ops: seq<Op>)
    returns (answers: seq<u64>, grants: seq<Grant>, ghost live: seq<Live>, ghost points: seq<Point>)
    requires vmm.Valid() && vmm.pmm.end <= NO_EXECUTE_BIT && AreasOk(vmm.userAreas, vmm.View(), vmm.hhdm)
    requires forall n :: 0 <= n < |ops| ==> OpOk(ops[n], vmm.userAreas, vmm.usingNx)
    modifies vmm`mem, vmm`tables, vmm`userAreas, vmm.pmm`totalAllocations, vmm.pmm`failedAllocations, vmm.pmm.bitmap
    ensures Grants(old(vmm.userAreas), grants, live)
    ensures Running(vmm, Origin(old(vmm.pmm.Used()), old(vmm.mem), old(vmm.tables)), old(vmm.userAreas),
                    old(vmm.View()), live)
    ensures |answers| == |ops| && |points| == |ops| + 1
    ensures forall n :: 0 <= n < |ops| ==> Answered(points[n], ops[n], answers[n])
    ensures points[0] == old(PointAt(vmm)) && vmm.Valid() && points[|ops|] == PointAt(vmm)
    ensures old(Open(vmm.mem, vmm.tables)) ==> EachUsable(vmm.mem, vmm.current, old(vmm.userAreas), live)
  {
    hide *;
    HasAllocator(vmm);
    ghost var o, areas0, v0 := Origin(vmm.pmm.Used(), vmm.mem, vmm.tables), vmm.userAreas, vmm.View();
    answers, grants, live, points := [], [], [], [PointAt(vmm)];
    RunStarts(vmm, o, areas0, v0);
    for n := 0 to |ops|
      invariant vmm.Valid() && Grants(areas0, grants, live) && Running(vmm, o, areas0, v0, live)
      invariant |answers| == n && |points| == n + 1
      invariant points[0] == old(PointAt(vmm)) && points[n] == PointAt(vmm)
      invariant forall i :: 0 <= i < n ==> Answered(points[i], ops[i], answers[i])
    {
      var a;
      a, grants, live := Do(vmm, ops[n], o, areas0, v0, grants, live);
      answers, points := answers + [a], points + [PointAt(vmm)];
    }
    AllUsable(vmm, o, areas0, v0, live);
  }

  ghost function PointAt(vmm: Vmm): Point
    requires vmm.Valid()
    reads vmm, vmm.pmm, vmm.pmm.bitmap
  {
    Point(Count(vmm.pmm.Used(), false), vmm.userAreas)
  }

  /** One call of a run. */
  method Do(vmm: Vmm, op: Op, ghost o: Origin, ghost areas0: seq<Region>, ghost v0: map<nat, Translation>,
            grants: seq<Grant>, ghost live: seq<Live>)
    returns (addr: u64, grants': seq<Grant>, ghost live': seq<Live>)
    requires Grants(areas0, grants, live) && Running(vmm, o, areas0, v0, live) && OpOk(op, areas0, vmm.usingNx)
    requires vmm.Valid()
    modifies vmm`mem, vmm`tables, vmm`userAreas, vmm.pmm`totalAllocations, vmm.pmm`failedAllocations, vmm.pmm.bitmap
    ensures vmm.Valid() && Grants(areas0, grants', live') && Running(vmm, o, areas0, v0, live')
    ensures Answered(old(PointAt(vmm)), op, addr)
  {
    hide *;
    addr, grants', live' := 0, grants, live;
    match op {
      case Request(size, flags) =>
        ghost var l;
        addr, l := AllocateOne(vmm, size, flags, o, areas0, v0, live);
        if addr != 0 {
          GrantsMore(areas0, grants, live, Grant(addr, size, flags), l);
          grants', live' := grants + [Grant(addr, size, flags)], live + [l];
        }
      case Release(k) =>
        NotRequest(PointAt(vmm), op);
        if k < |grants| {
          GrantsLess(areas0, grants, live, k);
          FreeOneOf(vmm, grants[k].addr, grants[k].size, o, areas0, v0, live, k);
          grants', live' := grants[..k] + grants[k + 1..], Without(live, k);
        }
    }
    RunningValid(vmm, o, areas0, v0, live');
  }

  lemma NotRequest(p: Point, op: Op)
    requires op.Release?
    ensures Answered(p, op, 0)
  {
  }

  lemma HasAllocator(vmm: Vmm)
    requires vmm.Valid()
    ensures vmm.pmm.Valid()
  {
  }

  lemma RunningValid(vmm: Vmm, o: Origin, areas0: seq<Region>, v0: map<nat, Translation>, live: seq<Live>)
    requires Running(vmm, o, areas0, v0, live)
    ensures vmm.Valid()
  {
  }

  lemma AllUsable(vmm: Vmm, o: Origin, areas0: seq<Region>, v0: map<nat, Translation>, live: seq<Live>)
    requires Running(vmm, o, areas0, v0, live)
    ensures Open(o.mem, o.tables) ==> EachUsable(vmm.mem, vmm.current, areas0, live)
  {
    hide Good, Open, Usable, LiveOk, AreasOk, Marked, FramesApart, FramesOk, Flat;
    if Open(o.mem, o.tables) {
      forall i | 0 <= i < |live|
        ensures live[i].k < |areas0| && Usable(vmm.mem, vmm.current, areas0, live[i])
      {
        LiveKnown(areas0, vmm.View(), live[i]);
        LiveUsable(vmm, areas0, live[i]);
      }
    }
  }

  lemma GrantsMore(areas0: seq<Region>, grants: seq<Grant>, live: seq<Live>, g: Grant, l: Live)
    requires Grants(areas0, grants, live) && l.k < |areas0| && g.addr == areas0[l.k].base && g.size == l.size
    requires l.flags == Or64(g.flags, areas0[l.k].flags)
    ensures Grants(areas0, grants + [g], live + [l])
  {
  }

  lemma RunStarts(vmm: Vmm, o: Origin, areas0: seq<Region>, v0: map<nat, Translation>)
    requires vmm.Valid() && vmm.pmm.end <= NO_EXECUTE_BIT && AreasOk(vmm.userAreas, vmm.View(), vmm.hhdm)
    requires o == Origin(vmm.pmm.Used(), vmm.mem, vmm.tables) && areas0 == vmm.userAreas && v0 == vmm.View()
    ensures Running(vmm, o, areas0, v0, []) && Grants(areas0, [], [])
  {
    hide Good, Flat, AreasOk, Open;
    HoldingNothing(vmm.pmm.start, o.used, o.mem, o.tables, vmm.current);
    forall k: nat ensures !InUse([], k) {
    }
  }

  lemma GrantsLess(areas0: seq<Region>, grants: seq<Grant>, live: seq<Live>, k: nat)
    requires Grants(areas0, grants, live) && k < |grants|
    ensures k < |live| && live[k].k < |areas0| && grants[k].addr == areas0[live[k].k].base
            && grants[k].size == live[k].size
    ensures Grants(areas0, grants[..k] + grants[k + 1..], Without(live, k))
  {
  }
}
