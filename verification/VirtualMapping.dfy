/** `map_virtual`: link missing tables, write the leaf entry, drop the stale cached translation. */
module VirtualMapping {
  import opened Machine
  import opened PageTables
  import opened PhysicalMemory

  /** `check_aligned` for whole pages. */
  predicate CheckAligned(addr: u64)
    ensures CheckAligned(addr) <==> addr % 4096 == 0
  {
    PageMask(addr);
    And(addr, PAGE_SIZE - 1) == 0
  }

  /** What `map_virtual` comes to.  The code does not look at the bit that makes an entry map a large page; it
      goes on with the page as if that were a table: `Misled`. */
  datatype MapResult = Done | Refused | Misled

  /** The entry maps a page at level l, where the code expects a table. */
  predicate LargePage(entry: nat, l: nat) {
    Present(entry) && !PointsToTable(entry, l)
  }

  /** No large page covers p: its walk fails or ends at level 1. */
  ghost predicate SmallPages(ram: Ram, root: nat, p: nat) {
    Walk(ram, root, p).Some? ==> Walk(ram, root, p).value.level == 1
  }

  /** The level-l table on the way to p tells whether a large page covers p, unless the way goes on. */
  lemma {:induction false} WayEnds(ram: Ram, root: nat, p: nat, l: nat)
    requires 1 <= l <= 4 && TableAt(ram, root, p, l).Some?
    ensures var e := Entry(ram, TableAt(ram, root, p, l).value, Index(p, l));
      && (!Present(e) || l == 1 ==> SmallPages(ram, root, p))
      && (LargePage(e, l) && l > 1 ==> !SmallPages(ram, root, p))
  {
    WalkVia(ram, root, p, l);
  }

  /** Whatever is written to memory that is no page table, the translation by a large page stays: going on
      with that page in place of a table does not map what was asked for. */
  lemma {:induction false} LargePageStays(ram: Ram, ram': Ram, f: Forest, root: nat, p: nat)
    requires Unshared(ram, f) && IsRoot(f, root) && !SmallPages(ram, root, p)
    requires forall t {:trigger t in f.level} :: t in f.level ==> t in ram && t in ram' && ram'[t] == ram[t]
    ensures Walk(ram', root, p) == Walk(ram, root, p)
    ensures forall frame: nat, flags: int :: Walk(ram', root, p) != Some(Leaf(frame, flags, 1))
  {
    SameTablesSameWalk(ram, ram', f, 4, root, p);
  }

  lemma {:induction false} SameTablesSameWalk(ram: Ram, ram': Ram, f: Forest, l: nat, t: nat, p: nat)
    requires Unshared(ram, f) && 1 <= l <= 4 && t in f.level && f.level[t] == l
    requires forall t {:trigger t in f.level} :: t in f.level ==> t in ram && t in ram' && ram'[t] == ram[t]
    ensures WalkFrom(ram', l, t, p) == WalkFrom(ram, l, t, p)
    decreases l
  {
    assert ChildOk(ram, f, t, Index(p, l));
    var e := Entry(ram, t, Index(p, l));
    if PointsToTable(e, l) {
      SameTablesSameWalk(ram, ram', f, l - 1, Frame(e), p);
    }
  }

  /** The first gigabyte mapped in one page: the code would take the entry's frame 0 for a table. */
  lemma {:induction false} GigabyteMisleads()
    ensures var ram := map[0x1000 := Zeros()[0 := 0x2003], 0x2000 := Zeros()[0 := 0x83]];
            var f := Forest(map[0x1000 := 4, 0x2000 := 3], map[0x2000 := Parent(0x1000, 0)]);
      Unshared(ram, f) && IsRoot(f, 0x1000) && !SmallPages(ram, 0x1000, 5)
  {
    var ram := map[0x1000 := Zeros()[0 := 0x2003], 0x2000 := Zeros()[0 := 0x83]];
    var f := Forest(map[0x1000 := 4, 0x2000 := 3], map[0x2000 := Parent(0x1000, 0)]);
    forall t, i | t in f.level && 0 <= i < 512
      ensures ChildOk(ram, f, t, i)
    {
      assert i > 0 ==> Entry(ram, t, i) == 0;
    }
    WayEnds(ram, 0x1000, 5, 3);
  }

  /** What linking tables does: tables stay, new ones were free memory, no translation changes, and
      neither does any path down to level l. */
  ghost predicate Grew(ram0: Ram, f0: Forest, ram: Ram, f: Forest, blocks0: seq<Block>, slide: nat, l: nat)
    requires 1 <= l <= 4
  {
    && TablesKept(f0, f, blocks0, slide)
    && (forall r: nat, p: nat {:trigger Walk(ram, r, p)} :: IsRoot(f0, r) ==> Walk(ram, r, p) == Walk(ram0, r, p))
    && (forall r: nat, p: nat, m: nat {:trigger TableAt(ram, r, p, m)} :: IsRoot(f0, r) && l <= m <= 4 ==>
          TableAt(ram, r, p, m) == TableAt(ram0, r, p, m))
  }

  ghost predicate TablesKept(f0: Forest, f: Forest, blocks0: seq<Block>, slide: nat) {
    && (forall t {:trigger t in f.level} :: t in f0.level ==> t in f.level && f.level[t] == f0.level[t])
    && (forall t {:trigger t in f.level} :: t in f.level ==> t in f0.level || !FrameSafe(blocks0, slide, t))
  }

  lemma {:induction false} GrewTrans(ram0: Ram, f0: Forest, b0: seq<Block>, ram1: Ram, f1: Forest, b1: seq<Block>,
                                     ram2: Ram, f2: Forest, slide: nat, l: nat, m: nat)
    requires 1 <= m <= l <= 4 && Grew(ram0, f0, ram1, f1, b0, slide, l) && Grew(ram1, f1, ram2, f2, b1, slide, m)
    requires StillSafe(b0, b1, slide)
    ensures Grew(ram0, f0, ram2, f2, b0, slide, l)
  {
    hide FrameSafe, Walk, TableAt;
    forall t | t in f0.level
      ensures t in f2.level && f2.level[t] == f0.level[t]
    {
      assert t in f1.level;
    }
    forall t | t in f2.level
      ensures t in f0.level || !FrameSafe(b0, slide, t)
    {
      assert t in f1.level || !FrameSafe(b1, slide, t);
    }
    forall r: nat, p: nat | IsRoot(f0, r)
      ensures Walk(ram2, r, p) == Walk(ram0, r, p)
    {
      assert r in f1.level && Walk(ram1, r, p) == Walk(ram0, r, p);
    }
    forall r: nat, p: nat, k: nat | IsRoot(f0, r) && l <= k <= 4
      ensures TableAt(ram2, r, p, k) == TableAt(ram0, r, p, k)
    {
      assert r in f1.level && TableAt(ram1, r, p, k) == TableAt(ram0, r, p, k);
    }
  }

  lemma StillSafeTrans(b0: seq<Block>, b1: seq<Block>, b2: seq<Block>, slide: nat)
    requires StillSafe(b0, b1, slide) && StillSafe(b1, b2, slide)
    ensures StillSafe(b0, b2, slide)
  {
    hide FrameSafe;
  }

  class PageMapper {
    const slide: u64
    var ram: Ram
    /** The root in use, and the translations the processor may have cached for it. */
    var cr3: nat
    var tlb: map<nat, Leaf>
    ghost var forest: Forest

    /** The tables are unshared trees, visible in the direct map; cached translations agree with the walk. */
    ghost predicate Valid()
      reads this
    {
      && Unshared(ram, forest) && IsRoot(forest, cr3)
      && (forall t {:trigger t in forest.level} :: t in forest.level ==> 0 < t + slide < TWO64)
      && (forall p {:trigger tlb[p]} :: p in tlb ==> p < VPAGES && Walk(ram, cr3, p) == Some(tlb[p]))
    }

    /** What a page grants is for its leaf entry to say. */
    ghost predicate OpenTables()
      reads this
    {
      Open(ram, forest)
    }

    ghost predicate TablesSafe(blocks: seq<Block>)
      reads this
    {
      forall t {:trigger t in forest.level} :: t in forest.level ==> FrameSafe(blocks, slide, t)
    }

    constructor (slide: u64, ram: Ram, cr3: nat, ghost forest: Forest)
      requires Unshared(ram, forest) && IsRoot(forest, cr3)
      requires forall t :: t in forest.level ==> 0 < t + slide < TWO64
      ensures Valid() && this.slide == slide && this.ram == ram && this.cr3 == cr3 && this.forest == forest && tlb == map[]
    {
      this.slide, this.ram, this.cr3, this.forest, tlb := slide, ram, cr3, forest, map[];
    }

    ghost predicate NoEntries(t: nat)
      reads this
    {
      forall j :: 0 <= j < 512 ==> !Present(Entry(ram, t, j))
    }

    /** Clear the frame `phys` and link it below t. */
    method ClearAndLink(phys: nat, t: nat, i: nat, ghost l: nat, ghost blocks0: seq<Block>)
      requires Valid() && 2 <= l <= 4 && t in forest.level && forest.level[t] == l && i < 512 && !Present(Entry(ram, t, i))
      requires phys % 4096 == 0 && phys < PHYS_LIMIT && 0 < phys + slide < TWO64
      requires phys !in forest.level && !FrameSafe(blocks0, slide, phys)
      modifies this`ram, this`forest
      ensures Valid() && forest == Adopt(old(forest), t, i, phys) && Grew(old(ram), old(forest), ram, forest, blocks0, slide, l)
      ensures PointsToTable(Entry(ram, t, i), l) && Frame(Entry(ram, t, i)) == phys && NoEntries(phys)
      ensures old(OpenTables()) ==> OpenTables()
      ensures OpenEntry(Entry(ram, t, i))
    {
      hide FrameSafe, Frame, Flags, OpenEntry, Open;
      var entry := MakeEntry(phys, TABLE_FLAGS);
      TableEntry(phys);
      TableBits(phys);
      assert IsTable(ram, forest, t);
      assert Installable(ram, forest, t, i, phys, entry);
      InstallUnshared(ram, forest, t, i, phys, entry);
      InstallKeepsAll(ram, forest, t, i, phys, entry);
      if Open(ram, forest) {
        InstallOpen(ram, forest, t, i, phys, entry);
      }
      ram := Install(ram, t, i, phys, entry);
      forest := Adopt(forest, t, i, phys);
    }

    static lemma {:induction false} TableEntry(phys: nat)
      requires phys % 4096 == 0 && phys < PHYS_LIMIT
      ensures var e := MakeEntry(phys, TABLE_FLAGS);
              Frame(e) == phys && Present(e) && !PageSize(e)
    {
      hide Frame, Flags;
      EntryParts(phys, TABLE_FLAGS, false);
      FrameOfFrame(phys);
    }

    static lemma {:induction false} InstallKeepsAll(ram: Ram, f: Forest, t: nat, i: nat, child: nat, entry: nat)
      requires Installable(ram, f, t, i, child, entry)
      ensures forall r: nat, p: nat {:trigger Walk(Install(ram, t, i, child, entry), r, p)} :: IsRoot(f, r) ==>
        Walk(Install(ram, t, i, child, entry), r, p) == Walk(ram, r, p)
      ensures forall r: nat, p: nat, m: nat {:trigger TableAt(Install(ram, t, i, child, entry), r, p, m)} ::
        IsRoot(f, r) && f.level[t] <= m <= 4 ==> TableAt(Install(ram, t, i, child, entry), r, p, m) == TableAt(ram, r, p, m)
    {
      var ram' := Install(ram, t, i, child, entry);
      assert IsTable(ram, f, t);
      forall r: nat, p: nat | IsRoot(f, r)
        ensures Walk(ram', r, p) == Walk(ram, r, p)
      {
        InstallKeepsWalks(ram, f, t, i, child, entry, 4, r, p);
      }
      forall r: nat, p: nat, m: nat | IsRoot(f, r) && f.level[t] <= m <= 4
        ensures TableAt(ram', r, p, m) == TableAt(ram, r, p, m)
      {
        InstallKeepsPath(ram, f, t, i, child, entry, r, p, m);
      }
    }

    /** `alloc_table` and the linking entry. */
    method LinkTable(pma: FreeListAllocator, t: nat, i: nat, ghost l: nat) returns (r: u64)
      requires Valid() && pma.Valid() && pma.slide == slide && TablesSafe(pma.blocks)
      requires 2 <= l <= 4 && t in forest.level && forest.level[t] == l && i < 512 && !Present(Entry(ram, t, i))
      modifies this`ram, this`forest, pma
      ensures Valid() && pma.Valid() && TablesSafe(pma.blocks) && StillSafe(old(pma.blocks), pma.blocks, slide)
      ensures r == 0 ==> ram == old(ram) && Exhausted(pma.blocks)
      ensures r != 0 ==> PointsToTable(Entry(ram, t, i), l) && Frame(Entry(ram, t, i)) == Sub64(r, slide)
      ensures r != 0 ==> NoEntries(Sub64(r, slide))
      ensures Grew(old(ram), old(forest), ram, forest, old(pma.blocks), slide, l)
      ensures old(OpenTables()) ==> OpenTables()
      ensures r != 0 ==> OpenEntry(Entry(ram, t, i))
    {
      hide FrameSafe, Walk, TableAt, Frame, Exhausted, OpenEntry, Open;
      var phys := pma.AllocPage();
      if phys == 0 {
        return 0;
      }
      ClearAndLink(phys, t, i, l, old(pma.blocks));
      r := Add64(phys, slide);
    }

    /** `ensure_table` on entry i of the level-l table at `table`: the table below, or 0 out of memory.  What
        is present is taken for a table. */
    method EnsureTable(pma: FreeListAllocator, table: u64, i: nat, ghost l: nat) returns (r: u64)
      requires Valid() && pma.Valid() && pma.slide == slide && TablesSafe(pma.blocks) && i < 512
      requires 2 <= l <= 4 && Sub64(table, slide) in forest.level && forest.level[Sub64(table, slide)] == l
      modifies this`ram, this`forest, pma
      ensures Valid() && pma.Valid() && TablesSafe(pma.blocks) && StillSafe(old(pma.blocks), pma.blocks, slide)
      ensures var e := old(Entry(ram, Sub64(table, slide), i));
              if Present(e) then r == Add64(Frame(e), slide) && ram == old(ram)
              else if r != 0 then NoEntries(Sub64(r, slide)) else ram == old(ram) && Exhausted(pma.blocks)
      ensures var e := Entry(ram, Sub64(table, slide), i);
              !LargePage(old(Entry(ram, Sub64(table, slide), i)), l) && r != 0 ==> PointsToTable(e, l) && Frame(e) == Sub64(r, slide)
      ensures PointsToTable(old(Entry(ram, Sub64(table, slide), i)), l) ==> r != 0
      ensures Grew(old(ram), old(forest), ram, forest, old(pma.blocks), slide, l)
      ensures old(OpenTables()) ==> OpenTables()
      ensures !Present(old(Entry(ram, Sub64(table, slide), i))) && r != 0 ==> OpenEntry(Entry(ram, Sub64(table, slide), i))
    {
      hide FrameSafe, Exhausted, OpenEntry, Open;
      var t := Sub64(table, slide);
      assert ChildOk(ram, forest, t, i) && IsTable(ram, forest, t);
      if !Present(Entry(ram, t, i)) {
        r := LinkTable(pma, t, i, l);
      } else {
        r := Add64(Frame(Entry(ram, t, i)), slide);
      }
    }

    /** One step down: from the level-l table on the way to page p to the level-(l-1) table.  At a large page
        the code would go on with the wrong memory; the step stops there. */
    method Descend(pma: FreeListAllocator, table: u64, i: nat, ghost root: nat, ghost p: nat, l: nat)
      returns (r: u64, large: bool)
      requires Valid() && pma.Valid() && pma.slide == slide && TablesSafe(pma.blocks)
      requires 2 <= l <= 4 && IsRoot(forest, root) && i == Index(p, l)
      requires TableAt(ram, root, p, l) == Some(Sub64(table, slide))
      modifies this`ram, this`forest, pma
      ensures Valid() && pma.Valid() && TablesSafe(pma.blocks) && StillSafe(old(pma.blocks), pma.blocks, slide)
      ensures large ==> !SmallPages(ram, root, p)
      ensures !large && r != 0 ==> TableAt(ram, root, p, l - 1) == Some(Sub64(r, slide))
      ensures !large && r == 0 ==> SmallPages(ram, root, p) && Exhausted(pma.blocks)
      ensures Grew(old(ram), old(forest), ram, forest, old(pma.blocks), slide, l)
      ensures old(OpenTables()) ==> OpenTables()
    {
      hide FrameSafe, StillSafe, Exhausted, SmallPages, Walk, Frame, OpenEntry, Open;
      TableAtLevel(ram, forest, root, p, l);
      WayEnds(ram, root, p, l);
      large := LargePage(Entry(ram, Sub64(table, slide), i), l);
      r := EnsureTable(pma, table, i, l);
    }

    /** The walk of every page from every root is as it was, but for page p of `root`. */
    twostate predicate OnlyPageChanged(root: nat, p: nat)
      reads this
    {
      forall r: nat, q: nat {:trigger Walk(ram, r, q)} :: IsRoot(old(forest), r) && q < VPAGES && (r, q) != (root, p) ==>
        Walk(ram, r, q) == Walk(old(ram), r, q)
    }

    /** `map_virtual`.  A root is passed by its direct-map address; `root` is its frame. */
    method MapVirtual(pma: FreeListAllocator, pagemap: u64, virt: u64, phys: u64, flags: MapFlags) returns (r: MapResult)
      requires Valid() && pma.Valid() && pma.slide == slide && TablesSafe(pma.blocks)
      requires pagemap != 0 ==> IsRoot(forest, Sub64(pagemap, slide))
      modifies this`ram, this`forest, this`tlb, pma
      ensures Valid() && pma.Valid() && TablesSafe(pma.blocks) && StillSafe(old(pma.blocks), pma.blocks, slide)
      // A call that is not well-formed is refused.  A well-formed one is misled exactly by a large page, and
      // fails otherwise only for want of frames.
      ensures !(pagemap != 0 && virt > 0 && virt % 4096 == 0 && phys > 0 && phys % 4096 == 0) ==> r.Refused?
      ensures pagemap != 0 && virt > 0 && virt % 4096 == 0 && phys > 0 && phys % 4096 == 0 ==>
        && (r.Misled? <==> !SmallPages(old(ram), Sub64(pagemap, slide), VPage(virt)))
        && (r.Refused? ==> Exhausted(pma.blocks))
      // The requested translation, and no other change.
      ensures r.Done? ==> Walk(ram, Sub64(pagemap, slide), VPage(virt)) == Some(Leaf(Frame(phys), LeafFlags(flags), 1))
      ensures r.Done? ==>
        var leaf := Walk(ram, Sub64(pagemap, slide), VPage(virt));
        && leaf.Some? && BitAt(leaf.value.flags, 0)
        && (BitAt(leaf.value.flags, 1) <==> flags.write) && (BitAt(leaf.value.flags, 2) <==> flags.user)
        && (BitAt(leaf.value.flags, 3) <==> flags.writeThrough) && (BitAt(leaf.value.flags, 4) <==> flags.cacheDisable)
        && (BitAt(leaf.value.flags, 63) <==> !flags.execute)
      ensures OnlyPageChanged(Sub64(pagemap, slide), VPage(virt))
      ensures !r.Done? ==> forall r: nat, q: nat {:trigger Walk(ram, r, q)} :: IsRoot(old(forest), r) ==> Walk(ram, r, q) == Walk(old(ram), r, q)
      // Tables stay what they are; new tables were free memory.
      ensures TablesKept(old(forest), forest, old(pma.blocks), slide)
      ensures old(OpenTables()) ==> OpenTables()
    {
      hide FrameSafe, StillSafe, Frame, Flags, Walk, TableAt, LeafFlags, SmallPages, Exhausted, OpenEntry, Open, BitAt;
      if virt == 0 || !CheckAligned(virt) {
        StillSafeRefl(pma.blocks, slide);
        return Refused;
      }
      if phys == 0 || !CheckAligned(phys) {
        StillSafeRefl(pma.blocks, slide);
        return Refused;
      }
      if pagemap == 0 {
        StillSafeRefl(pma.blocks, slide);
        return Refused;
      }
      ghost var root := Sub64(pagemap, slide);
      var pt, large := FindTable(pma, pagemap, virt, root);
      if large {
        return Misled;
      }
      if pt == 0 {
        return Refused;
      }
      IndexFields(virt);
      Finalize(pagemap, pt, virt, phys, flags, root);
      LeafBits(flags);
      r := Done;
    }

    static lemma StillSafeRefl(bs: seq<Block>, slide: nat)
      ensures StillSafe(bs, bs, slide)
    {
    }

    /** The three `ensure_table` steps: the level-1 table for virt, or 0 out of memory. */
    method FindTable(pma: FreeListAllocator, pagemap: u64, virt: u64, ghost root: nat) returns (pt: u64, large: bool)
      requires Valid() && pma.Valid() && pma.slide == slide && TablesSafe(pma.blocks)
      requires root == Sub64(pagemap, slide) && IsRoot(forest, root)
      modifies this`ram, this`forest, pma
      ensures Valid() && pma.Valid() && TablesSafe(pma.blocks) && StillSafe(old(pma.blocks), pma.blocks, slide)
      ensures IsRoot(forest, root) && (large <==> !SmallPages(old(ram), root, VPage(virt)))
      ensures pt != 0 && !large ==> TableAt(ram, root, VPage(virt), 1) == Some(Sub64(pt, slide))
      ensures Grew(old(ram), old(forest), ram, forest, old(pma.blocks), slide, 4)
      ensures pt == 0 && !large ==> Exhausted(pma.blocks)
      ensures old(OpenTables()) ==> OpenTables()
    {
      hide Grew, StillSafe, FrameSafe, Walk, Exhausted, SmallPages, OpenEntry, Open;
      IndexFields(virt);
      var pml4i, pdpti, pdi := virt / 0x80_0000_0000 % 512, virt / 0x4000_0000 % 512, virt / 0x20_0000 % 512;
      pt := 0;
      var pdpt;
      pdpt, large := Descend(pma, pagemap, pml4i, root, VPage(virt), 4);
      RootStays(old(ram), old(forest), ram, forest, old(pma.blocks), slide, 4, root, VPage(virt));
      if large || pdpt == 0 {
        return;
      }
      ghost var ram1, f1, b1 := ram, forest, pma.blocks;
      var pd;
      pd, large := Descend(pma, pdpt, pdpti, root, VPage(virt), 3);
      GrewTrans(old(ram), old(forest), old(pma.blocks), ram1, f1, b1, ram, forest, slide, 4, 3);
      RootStays(old(ram), old(forest), ram, forest, old(pma.blocks), slide, 4, root, VPage(virt));
      StillSafeTrans(old(pma.blocks), b1, pma.blocks, slide);
      if large || pd == 0 {
        return;
      }
      ghost var ram2, f2, b2 := ram, forest, pma.blocks;
      pt, large := Descend(pma, pd, pdi, root, VPage(virt), 2);
      GrewTrans(old(ram), old(forest), old(pma.blocks), ram2, f2, b2, ram, forest, slide, 4, 2);
      RootStays(old(ram), old(forest), ram, forest, old(pma.blocks), slide, 4, root, VPage(virt));
      StillSafeTrans(old(pma.blocks), b2, pma.blocks, slide);
      if pt != 0 && !large {
        WayEnds(ram, root, VPage(virt), 1);
      }
    }

    static lemma RootStays(ram0: Ram, f0: Forest, ram: Ram, f: Forest, b0: seq<Block>, slide: nat, l: nat, root: nat, p: nat)
      requires 1 <= l <= 4 && Grew(ram0, f0, ram, f, b0, slide, l) && IsRoot(f0, root)
      ensures IsRoot(f, root) && (SmallPages(ram, root, p) <==> SmallPages(ram0, root, p))
    {
      assert root in f.level;
    }

    /** Write the leaf entry and, if the root is in use, drop the cached translation of virt. */
    method Finalize(pagemap: u64, pt: u64, virt: u64, phys: u64, flags: MapFlags, ghost root: nat)
      requires Valid() && IsRoot(forest, root) && root == Sub64(pagemap, slide)
      requires TableAt(ram, root, VPage(virt), 1) == Some(Sub64(pt, slide))
      modifies this`ram, this`tlb
      ensures Valid() && Walk(ram, root, VPage(virt)) == Some(Leaf(Frame(phys), LeafFlags(flags), 1))
      ensures OnlyPageChanged(root, VPage(virt))
      ensures old(OpenTables()) ==> OpenTables()
    {
      hide Frame, Flags, Walk, LowFlags, OpenEntry, Open;
      var t, i := Sub64(pt, slide), virt / 0x1000 % 512;
      var entry := MakeEntry(phys, LeafFlags(flags));
      EntryParts(phys, LowFlags(flags), !flags.execute);
      IndexFields(virt);
      TableAtLevel(ram, forest, root, VPage(virt), 1);
      SetLeafUnshared(ram, forest, t, i, entry);
      if Open(ram, forest) {
        SetLeafOpen(ram, forest, t, i, entry);
      }
      forall r: nat, q: nat | IsRoot(forest, r) && q < VPAGES
        ensures Walk(SetLeaf(ram, t, i, entry), r, q)
             == if r == root && q == VPage(virt) then Some(Leaf(Frame(entry), Flags(entry), 1)) else Walk(ram, r, q)
      {
        SetLeafChangesOnePage(ram, forest, root, VPage(virt), entry, r, q);
      }
      ram := SetLeaf(ram, t, i, entry);
      if cr3 == Sub64(pagemap, slide) {
        tlb := tlb - {VPage(virt)};
      }
    }
  }
}
