/**
 Deleting an address space (kernel/src/memory/vmm.c:771-813): which frames the
 three nested loops free, and that this is safe for the spaces that remain.
 */
module VmmDelete {
  import opened Bytes
  import opened PhysicalMemory
  import opened PageTables
  import opened VirtualMemory

  // ---------- the order in which the loops free tables ----------

  predicate IsTableEntry(e: u64) { Present(e) && !Huge(e) }

  /** The page tables behind the first `n` entries of a page directory. */
  ghost function FreedPts(mem: Memory, pd: nat, n: nat): seq<nat>
    requires pd in mem && n <= |mem[pd]|
  {
    if n == 0 then []
    else FreedPts(mem, pd, n - 1) + (if IsTableEntry(mem[pd][n - 1]) then [FrameOf(mem[pd][n - 1])] else [])
  }

  /** The directories behind the first `n` entries of a PDPT, each after its page tables. */
  ghost function FreedPds(mem: Memory, tables: map<nat, Node>, pdpt: nat, n: nat): seq<nat>
    requires Forest(mem, tables) && pdpt in tables && |tables[pdpt].path| == 1 && n <= ENTRIES
  {
    if n == 0 then []
    else
      var e := mem[pdpt][n - 1];
      FreedPds(mem, tables, pdpt, n - 1) +
      (if IsTableEntry(e)
       then ChildTable(mem, tables, pdpt, n - 1); FreedPts(mem, FrameOf(e), ENTRIES) + [FrameOf(e)]
       else [])
  }

  /** The PDPTs behind the first `n` entries of a PML4, each after its directories. */
  ghost function FreedPdpts(mem: Memory, tables: map<nat, Node>, root: nat, n: nat): seq<nat>
    requires Forest(mem, tables) && IsRoot(tables, root) && n <= LOWER_ENTRIES
  {
    if n == 0 then []
    else
      var e := mem[root][n - 1];
      FreedPdpts(mem, tables, root, n - 1) +
      (if Present(e) then ChildTable(mem, tables, root, n - 1);
         FreedPds(mem, tables, FrameOf(e), ENTRIES) + [FrameOf(e)] else [])
  }

  /** Everything the deletion of the space at `root` frees, in order. */
  ghost function DeleteOrder(mem: Memory, tables: map<nat, Node>, root: nat): seq<nat>
    requires Forest(mem, tables) && IsRoot(tables, root)
  {
    FreedPdpts(mem, tables, root, LOWER_ENTRIES) + [root]
  }

  lemma ChildTable(mem: Memory, tables: map<nat, Node>, f: nat, j: nat)
    requires Forest(mem, tables) && f in tables && |tables[f].path| < 3 && j < ENTRIES
    ensures f in mem && |mem[f]| == ENTRIES
    ensures Present(mem[f][j]) && !(tables[f].path != [] && Huge(mem[f][j])) ==>
              && FrameOf(mem[f][j]) in tables && tables[FrameOf(mem[f][j])] == Child(tables[f], j)
              && FrameOf(mem[f][j]) in mem && |mem[FrameOf(mem[f][j])]| == ENTRIES
  {
    assert TableOk(mem, tables, f);
    assert LinkOk(mem, tables, f, j);
  }

  // ---------- every freed frame is a distinct table of the space ----------

  /** Table `f` sits strictly below node `n`, under one of its first `k` entries. */
  ghost predicate Below(tables: map<nat, Node>, f: nat, n: Node, k: nat) {
    && f in tables && |tables[f].path| > |n.path| && n.path <= tables[f].path && tables[f].path[|n.path|] < k
    && tables[f].owner == n.owner
  }

  ghost predicate AllBelow(tables: map<nat, Node>, s: seq<nat>, n: Node, k: nat) {
    forall i :: 0 <= i < |s| ==> Below(tables, s[i], n, k)
  }

  /** Two lists under different entries of the same table, or under a table and the table itself, do not meet. */
  lemma JoinDistinct(tables: map<nat, Node>, s: seq<nat>, t: seq<nat>, n: Node, k: nat, k': nat)
    requires Distinct(s) && Distinct(t) && AllBelow(tables, s, n, k) && AllBelow(tables, t, n, k') && k <= k'
    requires forall i :: 0 <= i < |t| ==> tables[t[i]].path[|n.path|] >= k
    ensures Distinct(s + t) && AllBelow(tables, s + t, n, k')
  {
  }

  lemma AppendParent(tables: map<nat, Node>, s: seq<nat>, f: nat, n: Node, j: nat, k: nat)
    requires Distinct(s) && f in tables && tables[f] == Child(n, j) && Child(n, j).owner == n.owner
    requires AllBelow(tables, s, tables[f], k)
    ensures Distinct(s + [f]) && AllBelow(tables, s + [f], n, j + 1)
    ensures forall i :: 0 <= i < |s + [f]| ==> tables[(s + [f])[i]].path[|n.path|] == j
  {
    forall i | 0 <= i < |s| ensures s[i] != f && Below(tables, s[i], n, j + 1) && tables[s[i]].path[|n.path|] == j {
      assert Below(tables, s[i], tables[f], k);
      assert tables[f].path <= tables[s[i]].path;
      assert tables[f].path[|n.path|] == j;
    }
  }

  lemma {:induction false} PtsDistinct(mem: Memory, tables: map<nat, Node>, pd: nat, n: nat)
    requires Forest(mem, tables) && pd in tables && |tables[pd].path| == 2 && n <= ENTRIES
    requires pd in mem && |mem[pd]| == ENTRIES
    ensures Distinct(FreedPts(mem, pd, n)) && AllBelow(tables, FreedPts(mem, pd, n), tables[pd], n)
  {
    hide Forest, Present, Huge, FrameOf;
    if n > 0 {
      PtsDistinct(mem, tables, pd, n - 1);
      ChildTable(mem, tables, pd, n - 1);
      var s := FreedPts(mem, pd, n - 1);
      if IsTableEntry(mem[pd][n - 1]) {
        var f := FrameOf(mem[pd][n - 1]);
        AppendParent(tables, [], f, tables[pd], n - 1, 0);
        assert [] + [f] == [f];
        JoinDistinct(tables, s, [f], tables[pd], n - 1, n);
      }
    }
  }

  lemma {:induction false} PdsDistinct(mem: Memory, tables: map<nat, Node>, pdpt: nat, n: nat)
    requires Forest(mem, tables) && pdpt in tables && |tables[pdpt].path| == 1 && n <= ENTRIES
    ensures Distinct(FreedPds(mem, tables, pdpt, n))
            && AllBelow(tables, FreedPds(mem, tables, pdpt, n), tables[pdpt], n)
  {
    hide Forest, Present, Huge, FrameOf;
    if n > 0 {
      PdsDistinct(mem, tables, pdpt, n - 1);
      ChildTable(mem, tables, pdpt, n - 1);
      var s := FreedPds(mem, tables, pdpt, n - 1);
      if IsTableEntry(mem[pdpt][n - 1]) {
        var f := FrameOf(mem[pdpt][n - 1]);
        PtsDistinct(mem, tables, f, ENTRIES);
        AppendParent(tables, FreedPts(mem, f, ENTRIES), f, tables[pdpt], n - 1, ENTRIES);
        JoinDistinct(tables, s, FreedPts(mem, f, ENTRIES) + [f], tables[pdpt], n - 1, n);
      }
    }
  }

  lemma {:induction false} PdptsDistinct(mem: Memory, tables: map<nat, Node>, root: nat, n: nat)
    requires Forest(mem, tables) && IsRoot(tables, root) && n <= LOWER_ENTRIES
    ensures Distinct(FreedPdpts(mem, tables, root, n))
            && AllBelow(tables, FreedPdpts(mem, tables, root, n), tables[root], n)
  {
    hide Forest, Present, Huge, FrameOf;
    if n > 0 {
      PdptsDistinct(mem, tables, root, n - 1);
      ChildTable(mem, tables, root, n - 1);
      var s := FreedPdpts(mem, tables, root, n - 1);
      if Present(mem[root][n - 1]) {
        var f := FrameOf(mem[root][n - 1]);
        PdsDistinct(mem, tables, f, ENTRIES);
        AppendParent(tables, FreedPds(mem, tables, f, ENTRIES), f, tables[root], n - 1, ENTRIES);
        JoinDistinct(tables, s, FreedPds(mem, tables, f, ENTRIES) + [f], tables[root], n - 1, n);
      }
    }
  }

  /** Deletion frees distinct frames, all of them tables of that space: none shared, none of another space. */
  lemma DeleteOrderDistinct(mem: Memory, tables: map<nat, Node>, root: nat)
    requires Forest(mem, tables) && IsRoot(tables, root)
    ensures Distinct(DeleteOrder(mem, tables, root))
    ensures forall f :: f in DeleteOrder(mem, tables, root) ==> f in tables && tables[f].owner == root
  {
    hide Forest, FreedPdpts;
    PdptsDistinct(mem, tables, root, LOWER_ENTRIES);
    var s := FreedPdpts(mem, tables, root, LOWER_ENTRIES);
    forall i | 0 <= i < |s| ensures s[i] != root && tables[s[i]].owner == root {
      assert Below(tables, s[i], tables[root], LOWER_ENTRIES);
    }
  }

  // ---------- the freed frames are the reachable ones ----------

  /** The frame an entry points to. */
  function Target(mem: Memory, g: nat, j: nat): nat {
    if g in mem && j < |mem[g]| then FrameOf(mem[g][j]) else 0
  }

  /** `f` is the table behind entry `j` of `g`, or at most `depth` further links down. */
  ghost predicate Behind(mem: Memory, tables: map<nat, Node>, g: nat, j: nat, f: nat, depth: nat)
    decreases depth, 0
  {
    var c := Target(mem, g, j);
    Links(mem, tables, g, j, c) && (f == c || (depth > 0 && BehindAny(mem, tables, c, ENTRIES, f, depth - 1)))
  }

  /** The same for one of the first `n` entries of `g`. */
  ghost predicate BehindAny(mem: Memory, tables: map<nat, Node>, g: nat, n: nat, f: nat, depth: nat)
    decreases depth, 1
  {
    exists j: nat :: j < n && Behind(mem, tables, g, j, f, depth)
  }

  lemma {:induction false} PtsMember(mem: Memory, tables: map<nat, Node>, pd: nat, n: nat, f: nat)
    requires Forest(mem, tables) && pd in tables && |tables[pd].path| == 2 && n <= ENTRIES
    requires pd in mem && |mem[pd]| == ENTRIES
    ensures f in FreedPts(mem, pd, n) <==> BehindAny(mem, tables, pd, n, f, 0)
  {
    hide Present, Huge, FrameOf;
    if n > 0 {
      PtsMember(mem, tables, pd, n - 1, f);
      ChildTable(mem, tables, pd, n - 1);
      var e := mem[pd][n - 1];
      assert Behind(mem, tables, pd, n - 1, f, 0) <==> IsTableEntry(e) && f == FrameOf(e);
    }
  }

  lemma {:induction false} PdsMember(mem: Memory, tables: map<nat, Node>, pdpt: nat, n: nat, f: nat)
    requires Forest(mem, tables) && pdpt in tables && |tables[pdpt].path| == 1 && n <= ENTRIES
    ensures f in FreedPds(mem, tables, pdpt, n) <==> BehindAny(mem, tables, pdpt, n, f, 1)
  {
    hide Present, Huge, FrameOf;
    if n > 0 {
      PdsMember(mem, tables, pdpt, n - 1, f);
      ChildTable(mem, tables, pdpt, n - 1);
      var e := mem[pdpt][n - 1];
      var c := FrameOf(e);
      if IsTableEntry(e) {
        PtsMember(mem, tables, c, ENTRIES, f);
        assert Behind(mem, tables, pdpt, n - 1, f, 1) <==> f == c || f in FreedPts(mem, c, ENTRIES);
      } else {
        assert !Behind(mem, tables, pdpt, n - 1, f, 1);
      }
    }
  }

  lemma {:induction false} PdptsMember(mem: Memory, tables: map<nat, Node>, root: nat, n: nat, f: nat)
    requires Forest(mem, tables) && IsRoot(tables, root) && n <= LOWER_ENTRIES
    ensures f in FreedPdpts(mem, tables, root, n) <==> BehindAny(mem, tables, root, n, f, 2)
  {
    hide Present, Huge, FrameOf;
    if n > 0 {
      PdptsMember(mem, tables, root, n - 1, f);
      ChildTable(mem, tables, root, n - 1);
      var e := mem[root][n - 1];
      var c := FrameOf(e);
      if Present(e) {
        PdsMember(mem, tables, c, ENTRIES, f);
        assert Behind(mem, tables, root, n - 1, f, 2) <==> f == c || f in FreedPds(mem, tables, c, ENTRIES);
      } else {
        assert !Behind(mem, tables, root, n - 1, f, 2);
      }
    }
  }

  /** The tables of the lower half of the space at `root`: its PML4 and everything linked below entries 0 to 255. */
  ghost predicate LowerTable(mem: Memory, tables: map<nat, Node>, root: nat, f: nat) {
    f == root || BehindAny(mem, tables, root, LOWER_ENTRIES, f, 2)
  }

  /** Deletion frees exactly the tables of the lower half. */
  lemma DeleteOrderComplete(mem: Memory, tables: map<nat, Node>, root: nat, f: nat)
    requires Forest(mem, tables) && IsRoot(tables, root)
    ensures f in DeleteOrder(mem, tables, root) <==> LowerTable(mem, tables, root, f)
  {
    hide Forest, FreedPdpts, BehindAny;
    PdptsMember(mem, tables, root, LOWER_ENTRIES, f);
  }

  // ---------- the effect on the allocator and on the other spaces ----------

  lemma FreeOneAt(used: seq<bool>, start: nat, a: nat, i: nat)
    requires start % PAGE_SIZE == 0 && i < |used|
    ensures FreeOne(used, start, a)[i] == (used[i] && a != start + i * PAGE_SIZE)
  {
    if InWindow(start, |used|, a) {
      assert a == start + PageIndex(start, a) * PAGE_SIZE;
    }
  }

  lemma {:induction false} FreeFramesAt(used: seq<bool>, start: nat, s: seq<nat>, i: nat)
    requires start % PAGE_SIZE == 0 && i < |used|
    ensures FreeFrames(used, start, s)[i] == (used[i] && start + i * PAGE_SIZE !in s)
  {
    hide FreeOne;
    if s != [] {
      var n := |s| - 1;
      FreeFramesAt(used, start, s[..n], i);
      FreeOneAt(FreeFrames(used, start, s[..n]), start, s[n], i);
      assert s == s[..n] + [s[n]];
    }
  }

  /** Each frame is still marked used when its turn comes. */
  lemma EachFreedOnce(used: seq<bool>, start: nat, s: seq<nat>, k: nat)
    requires start % PAGE_SIZE == 0 && Distinct(s) && k < |s| && Held(start, used, s[k])
    ensures Held(start, FreeFrames(used, start, s[..k]), s[k])
  {
    hide FreeFrames;
    if InWindow(start, |used|, s[k]) {
      var i := PageIndex(start, s[k]);
      assert s[k] == start + i * PAGE_SIZE;
      FreeFramesAt(used, start, s[..k], i);
      assert forall j :: 0 <= j < k ==> s[..k][j] != s[k];
    }
  }

  /** Freeing `s` in order frees each frame once: no frame comes twice, and each is still held when its turn comes. */
  ghost predicate FreedOnce(start: nat, used: seq<bool>, s: seq<nat>) {
    Distinct(s) && forall k :: 0 <= k < |s| ==> Held(start, FreeFrames(used, start, s[..k]), s[k])
  }

  lemma DeleteFreesOnce(start: nat, used: seq<bool>, mem: Memory, tables: map<nat, Node>, current: nat, root: nat)
    requires start % PAGE_SIZE == 0 && Good(start, used, mem, tables, current) && IsRoot(tables, root)
    ensures Forest(mem, tables) && FreedOnce(start, used, DeleteOrder(mem, tables, root))
  {
    hide Forest, DeleteOrder, FreeFrames, Held;
    DeleteOrderDistinct(mem, tables, root);
    var s := DeleteOrder(mem, tables, root);
    forall k | 0 <= k < |s| ensures Held(start, FreeFrames(used, start, s[..k]), s[k]) {
      assert s[k] in s && s[k] in tables;
      EachFreedOnce(used, start, s, k);
    }
  }

  /** The forest without the space at `root`. */
  function Without(tables: map<nat, Node>, root: nat): map<nat, Node> {
    map f | f in tables && tables[f].owner != root :: tables[f]
  }

  lemma WithoutIsForest(mem: Memory, tables: map<nat, Node>, root: nat)
    requires Forest(mem, tables) && root > 0
    ensures Forest(mem, Without(tables, root))
  {
    var rest := Without(tables, root);
    forall f | f in rest ensures TableOk(mem, rest, f) {
      assert TableOk(mem, tables, f);
    }
    forall f, j: nat | f in rest && j < ENTRIES ensures LinkOk(mem, rest, f, j) {
      assert TableOk(mem, tables, f) && LinkOk(mem, tables, f, j);
    }
  }

  lemma DeleteGood(start: nat, used: seq<bool>, mem: Memory, tables: map<nat, Node>, current: nat, root: nat,
                   order: seq<nat>)
    requires Good(start, used, mem, tables, current) && start % PAGE_SIZE == 0 && root > 0 && root != current
    requires forall f :: f in order ==> f in tables && tables[f].owner == root
    ensures Good(start, FreeFrames(used, start, order), mem, Without(tables, root), current)
  {
    hide Forest, FreeFrames;
    WithoutIsForest(mem, tables, root);
    var rest, used' := Without(tables, root), FreeFrames(used, start, order);
    forall f | f in rest ensures Held(start, used', f) {
      assert Held(start, used, f);
      if InWindow(start, |used|, f) {
        var i := PageIndex(start, f);
        assert f == start + i * PAGE_SIZE;
        FreeFramesAt(used, start, order, i);
      }
    }
  }

  /** Frees the page tables behind every entry of a page directory. */
  method FreePts(vmm: Vmm, pd: nat, ghost u0: seq<bool>, ghost done: seq<nat>)
    requires vmm.pmm.Valid() && pd in vmm.mem && |vmm.mem[pd]| == ENTRIES
    requires vmm.pmm.Used() == FreeFrames(u0, vmm.pmm.start, done)
    modifies vmm.pmm.bitmap
    ensures vmm.pmm.Used() == FreeFrames(u0, vmm.pmm.start, done + FreedPts(vmm.mem, pd, ENTRIES))
  {
    hide Present, Huge, FrameOf, FreeOne, FreeFrames, FreedPts, IsTableEntry;
    var table := vmm.mem[pd];
    FreedPtsNone(vmm.mem, pd, done);
    for j := 0 to ENTRIES
      invariant vmm.pmm.Used() == FreeFrames(u0, vmm.pmm.start, done + FreedPts(vmm.mem, pd, j))
    {
      FreedPtsStep(vmm.mem, pd, j, done);
      if IsTableEntry(table[j]) {
        vmm.pmm.FreePage(FrameOf(table[j]));
        FreedMore(u0, vmm.pmm.start, done + FreedPts(vmm.mem, pd, j), FrameOf(table[j]));
      }
    }
  }

  lemma FreedPtsNone(mem: Memory, pd: nat, done: seq<nat>)
    requires pd in mem && |mem[pd]| == ENTRIES
    ensures done + FreedPts(mem, pd, 0) == done
  {
  }

  lemma FreedPtsStep(mem: Memory, pd: nat, j: nat, done: seq<nat>)
    requires pd in mem && |mem[pd]| == ENTRIES && j < ENTRIES
    ensures done + FreedPts(mem, pd, j + 1) ==
            if IsTableEntry(mem[pd][j]) then done + FreedPts(mem, pd, j) + [FrameOf(mem[pd][j])]
            else done + FreedPts(mem, pd, j)
  {
    hide IsTableEntry, FrameOf;
    var s := FreedPts(mem, pd, j);
    assert done + (s + [FrameOf(mem[pd][j])]) == done + s + [FrameOf(mem[pd][j])];
  }

  lemma FreedMore(u0: seq<bool>, start: nat, s: seq<nat>, f: nat)
    ensures FreeFrames(u0, start, s + [f]) == FreeOne(FreeFrames(u0, start, s), start, f)
  {
    assert (s + [f])[..|s|] == s;
  }

  /** Frees the page directories behind every entry of a PDPT, each after its page tables. */
  method FreePds(vmm: Vmm, pdpt: nat, ghost u0: seq<bool>, ghost done: seq<nat>)
    requires vmm.pmm.Valid() && Forest(vmm.mem, vmm.tables) && pdpt in vmm.tables && |vmm.tables[pdpt].path| == 1
    requires vmm.pmm.Used() == FreeFrames(u0, vmm.pmm.start, done)
    modifies vmm.pmm.bitmap
    ensures vmm.pmm.Used() == FreeFrames(u0, vmm.pmm.start, done + FreedPds(vmm.mem, vmm.tables, pdpt, ENTRIES))
  {
    hide Present, Huge, FrameOf, FreeOne, Forest, FreeFrames, FreedPts;
    ChildTable(vmm.mem, vmm.tables, pdpt, 0);
    var table := vmm.mem[pdpt];
    assert done + [] == done;
    for j := 0 to ENTRIES
      invariant vmm.pmm.Used() == FreeFrames(u0, vmm.pmm.start, done + FreedPds(vmm.mem, vmm.tables, pdpt, j))
    {
      ghost var s := done + FreedPds(vmm.mem, vmm.tables, pdpt, j);
      if IsTableEntry(table[j]) {
        var pd := FrameOf(table[j]);
        ChildTable(vmm.mem, vmm.tables, pdpt, j);
        ghost var pts := FreedPts(vmm.mem, pd, ENTRIES);
        FreePts(vmm, pd, u0, s);
        vmm.pmm.FreePage(pd);
        FreedMore(u0, vmm.pmm.start, s + pts, pd);
        assert s + pts + [pd] == done + FreedPds(vmm.mem, vmm.tables, pdpt, j + 1);
      } else {
        assert s == done + FreedPds(vmm.mem, vmm.tables, pdpt, j + 1);
      }
    }
  }

  /**
   Deletes the address space at `root`. The current space and the null address
   are refused; otherwise exactly the tables of the lower half of that space are
   freed, each once, and the other spaces keep their tables and translations.
   */
  method Delete(vmm: Vmm, root: u64) returns (ghost freed: seq<nat>)
    requires vmm.Valid()
    requires root == 0 || root == vmm.current || IsRoot(vmm.tables, root)
    modifies vmm`tables, vmm.pmm.bitmap
    ensures vmm.Valid() && vmm.View() == old(vmm.View())
    ensures root == 0 || root == vmm.current ==> vmm.tables == old(vmm.tables) && vmm.pmm.Used() == old(vmm.pmm.Used())
    ensures root != 0 && root != vmm.current ==>
              && vmm.pmm.Used() == FreeFrames(old(vmm.pmm.Used()), vmm.pmm.start, freed)
              && FreedOnce(vmm.pmm.start, old(vmm.pmm.Used()), freed)
              && forall f :: f in freed <==> LowerTable(vmm.mem, old(vmm.tables), root, f)
    ensures root != 0 && root != vmm.current ==>
              && vmm.tables == Without(old(vmm.tables), root)
              && forall i: nat :: i < vmm.pmm.maxPages ==>
                   vmm.pmm.Used()[i] == (old(vmm.pmm.Used())[i]
                                         && !LowerTable(vmm.mem, old(vmm.tables), root, vmm.pmm.start + i * PAGE_SIZE))
  {
    hide Good, Present, FrameOf, FreeOne, Forest, FreeFrames, FreedPds, LowerTable, DeleteOrder, FreedOnce;
    freed := [];
    if root == 0 || root == vmm.current {
      return;
    }
    GoodIsForest(vmm.pmm.start, vmm.pmm.Used(), vmm.mem, vmm.tables, vmm.current);
    ChildTable(vmm.mem, vmm.tables, root, 0);
    ghost var u0, order := vmm.pmm.Used(), DeleteOrder(vmm.mem, vmm.tables, root);
    freed := order;
    DeleteFreesOnce(vmm.pmm.start, u0, vmm.mem, vmm.tables, vmm.current, root);
    forall f ensures f in freed <==> LowerTable(vmm.mem, vmm.tables, root, f) {
      DeleteOrderComplete(vmm.mem, vmm.tables, root, f);
    }
    FreePml4(vmm, root);
    DeleteOrderDistinct(vmm.mem, vmm.tables, root);
    DeleteGood(vmm.pmm.start, u0, vmm.mem, vmm.tables, vmm.current, root, order);
    forall i: nat | i < vmm.pmm.maxPages
      ensures vmm.pmm.Used()[i] == (u0[i] && !LowerTable(vmm.mem, vmm.tables, root, vmm.pmm.start + i * PAGE_SIZE))
    {
      FreeFramesAt(u0, vmm.pmm.start, order, i);
      DeleteOrderComplete(vmm.mem, vmm.tables, root, vmm.pmm.start + i * PAGE_SIZE);
    }
    vmm.tables := Without(vmm.tables, root);
  }

  lemma GoodIsForest(start: nat, used: seq<bool>, mem: Memory, tables: map<nat, Node>, current: nat)
    requires Good(start, used, mem, tables, current)
    ensures Forest(mem, tables)
  {
  }

  /** The outer loop over the lower half of the PML4, and the PML4 itself. */
  method FreePml4(vmm: Vmm, root: nat)
    requires vmm.pmm.Valid() && Forest(vmm.mem, vmm.tables) && IsRoot(vmm.tables, root)
    modifies vmm.pmm.bitmap
    ensures vmm.pmm.Used() == FreeFrames(old(vmm.pmm.Used()), vmm.pmm.start, DeleteOrder(vmm.mem, vmm.tables, root))
  {
    hide Present, FrameOf, FreeOne, Forest, FreedPds;
    ChildTable(vmm.mem, vmm.tables, root, 0);
    var pml4 := vmm.mem[root];
    ghost var u0 := vmm.pmm.Used();
    for i := 0 to LOWER_ENTRIES
      invariant vmm.pmm.Used() == FreeFrames(u0, vmm.pmm.start, FreedPdpts(vmm.mem, vmm.tables, root, i))
    {
      ghost var s := FreedPdpts(vmm.mem, vmm.tables, root, i);
      if Present(pml4[i]) {
        var pdpt := FrameOf(pml4[i]);
        ChildTable(vmm.mem, vmm.tables, root, i);
        ghost var pds := FreedPds(vmm.mem, vmm.tables, pdpt, ENTRIES);
        FreePds(vmm, pdpt, u0, s);
        vmm.pmm.FreePage(pdpt);
        FreedMore(u0, vmm.pmm.start, s + pds, pdpt);
        assert s + pds + [pdpt] == FreedPdpts(vmm.mem, vmm.tables, root, i + 1);
      } else {
        assert s + [] == s;
      }
    }
    RootIsU64(vmm.mem, vmm.tables, root);
    vmm.pmm.FreePage(root);
    FreedMore(u0, vmm.pmm.start, FreedPdpts(vmm.mem, vmm.tables, root, LOWER_ENTRIES), root);
  }

  lemma RootIsU64(mem: Memory, tables: map<nat, Node>, root: nat)
    requires Forest(mem, tables) && IsRoot(tables, root)
    ensures root < 0x1_0000_0000_0000_0000
  {
    assert TableOk(mem, tables, root);
  }
}
