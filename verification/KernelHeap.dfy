/** `mmap`, `sbrk` and `init_heap`: the layer that joins the virtual range allocator, the physical
    allocator and the page mapper.  Its invariant is the point where the three meet: the pages handed
    out so far lie on pairwise different frames, none of which is free or holds a page table. */
module KernelHeaps {
  import opened Machine
  import opened Segments
  import opened SegmentLaws
  import opened SegmentTheorems
  import opened NodeSupply
  import opened VirtualRanges
  import opened PhysicalMemory
  import opened PageTables
  import opened VirtualMapping

  /** Pages [page, page + n) handed out by a successful call. */
  datatype Range = Range(page: nat, n: nat, fromSbrk: bool) {
    predicate Has(q: nat) {
      page <= q < page + n
    }
  }

  datatype PageResult = Backed | NoFrame | NoTable

  /** `mmap` answers -1 in four situations. */
  datatype MmapResult = Mapped(addr: u64) | BadCall | NoRange | OutOfFrames | MapFailed

  /** `sbrk`: an address, 0, or the machine is stopped.  `Escaped` is a request whose 64-bit end wraps
      and therefore slips through the limit check. */
  datatype SbrkResult = Break(addr: u64) | Zero | Halted | Escaped

  const HEAP_BYTES: nat := 0x200_0000
  const HEAP_PAGES: nat := 8192
  const READ_WRITE: MapFlags := MapFlags(true, true, false, false, false, false)

  // ---------- Histories of successful calls ----------

  ghost predicate Covered(log: seq<Range>, q: nat) {
    exists i :: 0 <= i < |log| && log[i].Has(q)
  }

  ghost predicate Separated(log: seq<Range>) {
    forall i, j, q: nat {:trigger log[i].Has(q), log[j].Has(q)} ::
      0 <= i < j < |log| && log[i].Has(q) ==> !log[j].Has(q)
  }

  /** The ranges that `sbrk` returned follow one another without gap, from page a up to page b. */
  ghost predicate Consecutive(log: seq<Range>, a: nat, b: nat) {
    if log == [] then a == b
    else
      var r := log[|log| - 1];
      if r.fromSbrk then r.page + r.n == b && Consecutive(log[..|log| - 1], a, r.page)
      else Consecutive(log[..|log| - 1], a, b)
  }

  /** Between two `sbrk` ranges with none in between there is no gap; all lie in [a, b). */
  lemma {:induction false} SbrkRangesAreConsecutive(log: seq<Range>, a: nat, b: nat, i: nat, j: nat)
    requires Consecutive(log, a, b) && i < j < |log| && log[i].fromSbrk && log[j].fromSbrk
    requires forall k :: i < k < j ==> !log[k].fromSbrk
    ensures log[j].page == log[i].page + log[i].n && a <= log[i].page && log[j].page + log[j].n <= b
    decreases |log|
  {
    var t := log[..|log| - 1];
    SbrkRangesAreOrdered(log, a, b);
    if j < |log| - 1 {
      SbrkRangesAreConsecutive(t, a, if log[|log| - 1].fromSbrk then log[|log| - 1].page else b, i, j);
    } else {
      LastSbrkRange(t, a, log[j].page, i);
    }
  }

  lemma {:induction false} SbrkRangesAreOrdered(log: seq<Range>, a: nat, b: nat)
    requires Consecutive(log, a, b)
    ensures a <= b
  {
    if log != [] {
      var r := log[|log| - 1];
      SbrkRangesAreOrdered(log[..|log| - 1], a, if r.fromSbrk then r.page else b);
    }
  }

  /** What `sbrk` handed out covers everything below the break. */
  lemma {:induction false} ConsecutiveCovers(log: seq<Range>, a: nat, b: nat, q: nat)
    requires Consecutive(log, a, b) && a <= q < b
    ensures Covered(log, q) && SbrkCovers(log, q)
    decreases |log|
  {
    var k := |log| - 1;
    var t, r := log[..k], log[k];
    if r.fromSbrk && r.page <= q {
      assert log[k].Has(q);
    } else {
      ConsecutiveCovers(t, a, if r.fromSbrk then r.page else b, q);
      var i :| 0 <= i < |t| && t[i].Has(q) && t[i].fromSbrk;
      assert log[i].Has(q);
    }
  }

  ghost predicate SbrkCovers(log: seq<Range>, q: nat) {
    exists i {:trigger log[i].Has(q)} :: 0 <= i < |log| && log[i].Has(q) && log[i].fromSbrk
  }

  lemma {:induction false} LastSbrkRange(log: seq<Range>, a: nat, b: nat, i: nat)
    requires Consecutive(log, a, b) && i < |log| && log[i].fromSbrk && forall k :: i < k < |log| ==> !log[k].fromSbrk
    ensures log[i].page + log[i].n == b && a <= log[i].page
    decreases |log|
  {
    var t := log[..|log| - 1];
    if i < |log| - 1 {
      LastSbrkRange(t, a, b, i);
    } else {
      SbrkRangesAreOrdered(t, a, log[i].page);
    }
  }

  ghost predicate NoSbrk(log: seq<Range>) {
    forall i :: 0 <= i < |log| ==> !log[i].fromSbrk
  }

  lemma {:induction false} NoSbrkAnywhere(log: seq<Range>, a: nat)
    requires NoSbrk(log)
    ensures Consecutive(log, a, a)
  {
    if log != [] {
      NoSbrkAnywhere(log[..|log| - 1], a);
    }
  }

  lemma {:induction false} LogAppend(log: seq<Range>, r: Range, a: nat, b: nat)
    requires Consecutive(log, a, b) && Separated(log) && (r.fromSbrk ==> r.page == b)
    requires forall q: nat {:trigger r.Has(q)} :: r.Has(q) ==> !Covered(log, q)
    ensures Consecutive(log + [r], a, if r.fromSbrk then b + r.n else b) && Separated(log + [r])
    ensures forall q: nat {:trigger Covered(log + [r], q)} :: Covered(log + [r], q) <==> Covered(log, q) || r.Has(q)
  {
    var t := log + [r];
    assert t[..|t| - 1] == log;
    forall q: nat
      ensures Covered(t, q) <==> Covered(log, q) || r.Has(q)
    {
      if Covered(log, q) {
        var i :| 0 <= i < |log| && log[i].Has(q);
        assert t[i].Has(q);
      }
      if r.Has(q) {
        assert t[|log|].Has(q);
      }
    }
    forall i, j, q: nat | 0 <= i < j < |t| && t[i].Has(q)
      ensures !t[j].Has(q)
    {
      if j == |log| {
        assert log[i].Has(q);
      } else {
        assert log[i].Has(q) ==> !log[j].Has(q);
      }
    }
  }

  // ---------- Which requests pass sbrk's limit check ----------

  /** The check compares 64-bit sums. */
  predicate LimitCheckPasses(top: u64, aligned: u64, base: u64, size: u64) {
    Add64(top, aligned) <= Add64(base, size)
  }

  /** For a heap that does not itself wrap, the check admits a request that leaves the heap exactly when
      the request's end wraps to an address inside or below the heap. */
  lemma {:induction false} LimitCheckExactIff(top: u64, aligned: u64, base: u64, size: u64)
    requires base <= top <= base + size < TWO64
    ensures LimitCheckPasses(top, aligned, base, size) && top + aligned > base + size
       <==> top + aligned >= TWO64 && top + aligned - TWO64 <= base + size
  {
  }

  /** A heap in the upper half never gets back above its limit by wrapping: every wrapping request
      of a signed increment passes. */
  lemma {:induction false} WrappedRequestsPass(top: u64, increment: nat, base: u64, size: u64)
    requires UPPER_HALF <= base <= top <= base + size < TWO64 && increment < 0x8000_0000_0000_0000
    requires top + AlignUp(increment, PAGE_SIZE) >= TWO64
    ensures LimitCheckPasses(top, AlignUp(increment, PAGE_SIZE), base, size)
  {
    PageAlignUp(increment);
  }

  // ---------- Pages on frames ----------

  /** The number that page q of a range at `base` has in the page tables. */
  function SlotOf(base: nat, q: nat): nat {
    (base + q * 4096) / 4096 % VPAGES
  }

  /** Pages q of a page-aligned range in the upper half that does not wrap have different numbers. */
  lemma {:induction false} SlotsDiffer(base: nat, total: nat, p: nat, q: nat)
    requires base % 4096 == 0 && UPPER_HALF <= base && base + total * 4096 < TWO64 && p < total && q < total
    requires SlotOf(base, p) == SlotOf(base, q)
    ensures p == q
  {
    CanonicalPages(base + p * 4096, base + q * 4096);
  }

  /** What the tables and the free list say about a live page: it is mapped writable to `frame`, which is
      neither free memory nor a page table. */
  ghost predicate OnFrame(ram: Ram, cr3: nat, slot: nat, frame: nat, blocks: seq<Block>, slide: nat, f: Forest) {
    && Walk(ram, cr3, slot) == Some(Leaf(frame, LeafFlags(READ_WRITE), 1))
    && FrameSafe(blocks, slide, frame) && frame !in f.level
  }

  /** Tables may grow, requests may be served, other pages may be mapped: a live page stays on its frame. */
  lemma {:induction false} StaysOnFrame(ram: Ram, ram': Ram, cr3: nat, slot: nat, frame: nat,
                                        blocks: seq<Block>, blocks': seq<Block>, slide: nat, f: Forest, f': Forest)
    requires OnFrame(ram, cr3, slot, frame, blocks, slide, f) && Walk(ram', cr3, slot) == Walk(ram, cr3, slot)
    requires StillSafe(blocks, blocks', slide) && TablesKept(f, f', blocks, slide)
    ensures OnFrame(ram', cr3, slot, frame, blocks', slide, f')
  {
    hide FrameSafe, Walk, LeafFlags;
    assert FrameSafe(blocks, slide, frame);
  }

  const UPPER_HALF: nat := 0xFFFF_8000_0000_0000

  // ---------- Taking a run of pages ----------

  /** Page q of the bitmap is in use. */
  ghost predicate InUse(s: seq<Seg>, q: nat) {
    q < |Pages(s)| && !Pages(s)[q]
  }

  /** Exactly the pages of the run were free and now are in use. */
  lemma {:induction false} TakenPages(s: seq<Seg>, t: seq<Seg>, total: nat, page: nat, n: nat)
    requires Tiles(s, total) && RunTaken(s, t, page, n, 1)
    ensures page + n <= total
    ensures forall q: nat {:trigger InUse(t, q)} {:trigger InUse(s, q)} :: InUse(t, q) <==> InUse(s, q) || page <= q < page + n
    ensures forall q: nat {:trigger InUse(s, q)} :: page <= q < page + n ==> !InUse(s, q)
  {
    PagesLength(s, total);
  }

  class KernelHeap {
    const vma: VAddrAllocator
    const pma: FreeListAllocator
    const mapper: PageMapper
    /** The page tables found at boot leave it to the leaf entries what a page grants. */
    ghost const open: bool
    var initialized: bool
    var heapBase: u64
    var heapSize: u64
    /** `sbrk`'s static local, set when the first call gets past the initialisation test. */
    var topKnown: bool
    var heapTop: u64
    /** The frame under each live page; the ranges returned; the heap's first page and the break's page. */
    ghost var backing: map<nat, nat>
    ghost var log: seq<Range>
    ghost var heapPage: nat
    ghost var topPage: nat

    /** Address of page q of the virtual range, and its number in the page tables. */
    ghost function At(q: nat): nat
      reads vma`base
    {
      vma.base + q * 4096
    }

    /** The managed range is page aligned, in the upper half, and does not wrap. */
    ghost predicate Placed()
      reads vma`base, vma`totalPages
    {
      vma.base % 4096 == 0 && UPPER_HALF <= vma.base && At(vma.totalPages) < TWO64
    }

    ghost function Slot(q: nat): nat
      reads vma`base
    {
      SlotOf(vma.base, q)
    }

    ghost predicate UsedPage(q: nat)
      reads vma`view, vma`totalPages
    {
      q < vma.totalPages && InUse(vma.view, q)
    }

    /** Live pages are allocated, mapped writable, and on frames that are neither free nor page tables. */
    ghost predicate BackedAt(q: nat)
      requires q in backing
      reads this`backing, vma`base, vma`totalPages, vma`view, pma`blocks, mapper
    {
      && UsedPage(q)
      && OnFrame(mapper.ram, mapper.cr3, Slot(q), backing[q], pma.blocks, mapper.slide, mapper.forest)
    }

    ghost predicate AllBacked()
      reads this`backing, vma`base, vma`totalPages, vma`view, pma`blocks, mapper
    {
      forall q {:trigger backing[q]} :: q in backing ==> BackedAt(q)
    }

    /** Different live pages are on different frames. */
    ghost predicate Injective()
      reads this`backing
    {
      forall p, q {:trigger backing[p], backing[q]} :: p in backing && q in backing && p != q ==> backing[p] != backing[q]
    }

    /** No large page covers the managed range. */
    ghost predicate OnlySmallPages()
      reads vma`base, vma`totalPages, mapper
    {
      forall q: nat {:trigger Slot(q)} :: q < vma.totalPages ==> SmallPages(mapper.ram, mapper.cr3, Slot(q))
    }

    ghost predicate Parts()
      reads vma, vma.pool, vma.pool.freeStack, vma.pool.live, vma.spine, pma, mapper
    {
      && vma.Valid() && !vma.locked && NormalForm(vma.view) && pma.Valid() && mapper.Valid()
      && mapper.slide == pma.slide && mapper.TablesSafe(pma.blocks) && (open ==> mapper.OpenTables())
      && this !in vma.pool.repr && pma !in vma.pool.repr && mapper !in vma.pool.repr
    }

    /** All of `Valid` but the history. */
    ghost predicate Sane()
      reads this`backing, vma, vma.pool, vma.pool.freeStack, vma.pool.live, vma.spine, pma, mapper
    {
      Parts() && Placed() && OnlySmallPages() && AllBacked() && Injective()
    }

    /** The heap is a reserved range; `sbrk` has handed out its pages up to the break. */
    ghost predicate HeapOk()
      reads this, vma`base, vma`totalPages, vma`view
    {
      && (topKnown ==> initialized)
      && (initialized ==>
            && heapBase == At(heapPage) && heapSize == HEAP_BYTES && heapPage + HEAP_PAGES <= vma.totalPages
            && heapPage <= topPage <= heapPage + HEAP_PAGES
            && (forall q: nat :: heapPage <= q < heapPage + HEAP_PAGES ==> UsedPage(q))
            && (forall q: nat :: topPage <= q < heapPage + HEAP_PAGES ==> q !in backing))
      && (if topKnown then heapTop == At(topPage) else topPage == heapPage)
    }

    /** What the calls so far returned: disjoint ranges that make up the live pages, `sbrk`'s consecutive. */
    ghost predicate HistoryOk()
      reads this`log, this`backing, this`heapPage, this`topPage, this`initialized
    {
      && Separated(log) && Consecutive(log, heapPage, topPage) && (!initialized ==> NoSbrk(log))
      && (forall q: nat {:trigger Covered(log, q)} :: Covered(log, q) <==> q in backing)
    }

    ghost predicate Valid()
      reads this, vma, vma.pool, vma.pool.freeStack, vma.pool.live, vma.spine, pma, mapper
    {
      Sane() && HeapOk() && HistoryOk()
    }

    constructor (vma: VAddrAllocator, pma: FreeListAllocator, mapper: PageMapper)
      requires vma.Valid() && !vma.locked && NormalForm(vma.view) && pma.Valid() && mapper.Valid()
      requires mapper.slide == pma.slide && mapper.TablesSafe(pma.blocks)
      requires pma !in vma.pool.repr && mapper !in vma.pool.repr
      requires vma.base % 4096 == 0 && UPPER_HALF <= vma.base && vma.base + vma.totalPages * 4096 < TWO64
      requires forall q: nat :: q < vma.totalPages ==> SmallPages(mapper.ram, mapper.cr3, VPage(vma.base + q * 4096))
      ensures Valid() && this.vma == vma && this.pma == pma && this.mapper == mapper && !initialized && log == []
      ensures open == mapper.OpenTables()
    {
      this.vma, this.pma, this.mapper, open := vma, pma, mapper, mapper.OpenTables();
      initialized, heapBase, heapSize, topKnown, heapTop := false, 0, 0, false, 0;
      backing, log, heapPage, topPage := map[], [], 0, 0;
    }

    // ---------- Backing pages ----------

    /** A frame that is neither under a live page nor a page table; 0 if there is none. */
    method TakeFrame() returns (page: u64)
      requires Sane()
      modifies pma
      ensures Sane() && if page != 0 then NewFrame(page) else Exhausted(pma.blocks)
      ensures Exhausted(old(pma.blocks)) ==> page == 0
    {
      hide Exhausted, InUse, FrameSafe, Walk, Frame, LeafFlags, SmallPages;
      page := pma.AllocPage();
      forall p | p in backing
        ensures BackedAt(p) && (page != 0 ==> backing[p] != page)
      {
        assert old(BackedAt(p));
      }
    }

    ghost predicate NewFrame(page: u64)
      reads this`backing, pma`blocks, mapper`forest
    {
      && page > 0 && page % 4096 == 0 && page < PHYS_LIMIT && FrameSafe(pma.blocks, mapper.slide, page)
      && page !in mapper.forest.level && forall p {:trigger backing[p]} :: p in backing ==> backing[p] != page
    }

    /** One turn of the page loops: a frame for page q, mapped readable and writable. */
    method BackPage(virt: u64, ghost q: nat) returns (r: PageResult)
      requires Sane() && virt == At(q) && UsedPage(q) && q !in backing
      modifies this`backing, pma, mapper
      ensures Sane()
      ensures r.Backed? ==> q in backing && backing == old(backing)[q := backing[q]]
      ensures !r.Backed? ==> backing == old(backing) && Exhausted(pma.blocks)
      ensures Exhausted(old(pma.blocks)) ==> !r.Backed?
    {
      hide Exhausted, Sane, UsedPage, NewFrame;
      var page := TakeFrame();
      if page == 0 {
        return NoFrame;
      }
      var ok := MapPage(virt, page, q);
      if !ok {
        return NoTable;
      }
      r := Backed;
    }

    lemma SameSlot(p: nat, q: nat)
      requires Placed() && UsedPage(p) && UsedPage(q) && Slot(p) == Slot(q)
      ensures p == q
    {
      SlotsDiffer(vma.base, vma.totalPages, p, q);
    }

    /** The call of `map_virtual`: no other page of the range changes its translation. */
    method CallMapper(virt: u64, page: u64, ghost q: nat) returns (ok: bool)
      requires Sane() && UsedPage(q) && virt == At(q) && NewFrame(page)
      modifies pma, mapper
      ensures Parts() && OnlySmallPages() && NewFrame(page)
      ensures mapper.cr3 == old(mapper.cr3)
      ensures forall p: nat {:trigger Slot(p)} :: p < vma.totalPages && (p != q || !ok) ==>
        Walk(mapper.ram, mapper.cr3, Slot(p)) == Walk(old(mapper.ram), mapper.cr3, Slot(p))
      ensures ok ==> OnFrame(mapper.ram, mapper.cr3, Slot(q), page, pma.blocks, mapper.slide, mapper.forest)
      ensures StillSafe(old(pma.blocks), pma.blocks, mapper.slide)
      ensures TablesKept(old(mapper.forest), mapper.forest, old(pma.blocks), mapper.slide)
      ensures !ok ==> Exhausted(pma.blocks)
    {
      hide Exhausted, InUse, FrameSafe, Walk, Frame, LeafFlags, SmallPages;
      assert IsRoot(mapper.forest, mapper.cr3) && VPage(virt) == Slot(q);
      var r := mapper.MapVirtual(pma, Add64(mapper.cr3, mapper.slide), virt, page, READ_WRITE);
      ok := r.Done?;
      FrameOfFrame(page);
      assert FrameSafe(old(pma.blocks), mapper.slide, page);
      forall p: nat | p < vma.totalPages && (p != q || !ok)
        ensures Walk(mapper.ram, mapper.cr3, Slot(p)) == Walk(old(mapper.ram), mapper.cr3, Slot(p))
      {
        if Slot(p) == Slot(q) {
          SlotsDiffer(vma.base, vma.totalPages, p, q);
        }
      }
      forall p: nat | p < vma.totalPages
        ensures SmallPages(mapper.ram, mapper.cr3, Slot(p))
      {
        StillSmall(old(mapper.ram), mapper.ram, mapper.cr3, Slot(p));
      }
    }

    static lemma StillSmall(ram: Ram, ram': Ram, root: nat, p: nat)
      requires SmallPages(ram, root, p)
      requires Walk(ram', root, p) == Walk(ram, root, p) || (Walk(ram', root, p).Some? && Walk(ram', root, p).value.level == 1)
      ensures SmallPages(ram', root, p)
    {
      hide Walk;
    }

    method MapPage(virt: u64, page: u64, ghost q: nat) returns (ok: bool)
      requires Sane() && virt == At(q) && UsedPage(q) && q !in backing && NewFrame(page)
      modifies this`backing, pma, mapper
      ensures Sane() && backing == if ok then old(backing)[q := page] else old(backing)
      ensures !ok ==> Exhausted(pma.blocks)
    {
      hide Exhausted, InUse, FrameSafe, Walk, Frame, LeafFlags, SmallPages, OnFrame, StillSafe, TablesKept, SlotOf;
      hide Placed;
      ok := CallMapper(virt, page, q);
      forall p | p in backing
        ensures BackedAt(p)
      {
        assert old(BackedAt(p));
        if Slot(p) == Slot(q) {
          SameSlot(p, q);
        }
        StaysOnFrame(old(mapper.ram), mapper.ram, mapper.cr3, Slot(p), backing[p], old(pma.blocks), pma.blocks,
                     mapper.slide, old(mapper.forest), mapper.forest);
      }
      if ok {
        backing := backing[q := page];
      }
    }

    ghost predicate AllUsed(page: nat, n: nat)
      reads vma`view, vma`totalPages
    {
      forall q: nat {:trigger UsedPage(q)} :: page <= q < page + n ==> UsedPage(q)
    }

    /** The page loop of `mmap` and `sbrk`.  When it fails half way the pages mapped so far stay mapped,
        their frames are not given back, and none of them becomes live. */
    method BackPages(addr: u64, n: nat, ghost page: nat) returns (r: PageResult)
      requires Sane() && addr == At(page) && AllUsed(page, n) && forall q :: page <= q < page + n ==> q !in backing
      modifies this`backing, pma, mapper
      ensures Sane()
      ensures r.Backed? ==> Grown(old(backing), page, n)
      ensures !r.Backed? ==> backing == old(backing) && Exhausted(pma.blocks)
      ensures n > 0 && Exhausted(old(pma.blocks)) ==> !r.Backed?
    {
      hide Exhausted, Sane, InUse;
      ghost var was := backing;
      r := Backed;
      for i := 0 to n
        invariant Sane() && r.Backed? && Grown(was, page, i) && (i == 0 ==> pma.blocks == old(pma.blocks))
        invariant i > 0 ==> !Exhausted(old(pma.blocks))
      {
        assert UsedPage(page + i);
        PartsDiffer();
        r := BackPage(Add64(addr, i * 4096), page + i);
        if !r.Backed? {
          Forget(was, page, i);
          backing := was;
          return;
        }
      }
    }

    /** `backing` is `was` with entries for the pages [page, page + n) added. */
    ghost predicate Grown(was: map<nat, nat>, page: nat, n: nat)
      reads this`backing
    {
      && (forall q {:trigger q in backing} {:trigger q in was} :: q in backing <==> q in was || page <= q < page + n)
      && (forall q {:trigger backing[q]} {:trigger was[q]} :: q in was ==> q in backing && backing[q] == was[q])
    }

    ghost method Forget(was: map<nat, nat>, page: nat, n: nat)
      requires Sane() && Grown(was, page, n)
      modifies this`backing
      ensures backing == was && Sane()
    {
      hide InUse, OnFrame, Placed, OnlySmallPages, SlotOf;
      forall q | q in was
        ensures BackedAt(q) && was[q] == backing[q]
      {
        assert BackedAt(q);
      }
      backing := was;
    }

    lemma PartsDiffer()
      requires Sane()
      ensures this !in vma.pool.repr && pma !in vma.pool.repr && mapper !in vma.pool.repr && !vma.locked
      ensures Placed() && NormalForm(vma.view) && Tiles(vma.view, vma.totalPages)
    {
    }

    lemma LivePagesUsed()
      requires Sane()
      ensures forall q {:trigger backing[q]} :: q in backing ==> InUse(vma.view, q)
    {
      hide InUse;
      forall q | q in backing
        ensures InUse(vma.view, q)
      {
        assert BackedAt(q);
      }
    }

    /** Note a successful call in the history. */
    ghost method Record(was: map<nat, nat>, r: Range)
      requires Grown(was, r.page, r.n) && (forall q :: r.page <= q < r.page + r.n ==> q !in was)
      requires Separated(log) && Consecutive(log, heapPage, topPage) && (!initialized ==> NoSbrk(log) && !r.fromSbrk)
      requires (forall q: nat {:trigger Covered(log, q)} :: Covered(log, q) <==> q in was)
      requires r.fromSbrk ==> r.page == topPage
      modifies this`log, this`topPage
      ensures HistoryOk() && log == old(log) + [r] && topPage == if r.fromSbrk then old(topPage) + r.n else old(topPage)
    {
      hide Covered, Separated, Consecutive;
      LogAppend(log, r, heapPage, topPage);
      log := log + [r];
      if r.fromSbrk {
        topPage := topPage + r.n;
      }
    }

    // ---------- What callers get ----------

    /** Byte x lies on a live page. */
    ghost predicate LiveByte(x: nat)
      reads this`backing, vma`base
    {
      x < TWO64 && vma.base <= x && (x - vma.base) / 4096 in backing
    }

    /** The page tables take a live byte to the frame of its page: present (bit 0), writable (bit 1), for the kernel
        alone (bit 2), cached as usual (bits 3 and 4), and not to be executed (bit 63). */
    lemma {:induction false} LiveBytesAreMapped(x: nat)
      requires Sane() && LiveByte(x)
      ensures var q, leaf := (x - vma.base) / 4096, Walk(mapper.ram, mapper.cr3, VPage(x));
        && leaf.Some? && leaf.value.frame == backing[q] && leaf.value.level == 1
        && BitAt(leaf.value.flags, 0) && BitAt(leaf.value.flags, 1) && !BitAt(leaf.value.flags, 2)
        && !BitAt(leaf.value.flags, 3) && !BitAt(leaf.value.flags, 4) && BitAt(leaf.value.flags, 63)
        && backing[q] !in mapper.forest.level && FrameSafe(pma.blocks, mapper.slide, backing[q])
    {
      hide Parts, Injective, OnlySmallPages, BitAt;
      var q := (x - vma.base) / 4096;
      assert BackedAt(q);
      PageOfLiveByte(vma.base, x);
      LeafBits(READ_WRITE);
    }

    /** Nor do the tables above take anything back, unless those found at boot do. */
    lemma {:induction false} TablesGrantWriting(x: nat, l: nat)
      requires Sane() && LiveByte(x) && open && 2 <= l <= 4
      ensures var t := TableAt(mapper.ram, mapper.cr3, VPage(x), l);
        t.Some? && BitAt(Entry(mapper.ram, t.value, Index(VPage(x), l)), 1)
    {
      LiveBytesAreMapped(x);
      hide Injective, OnlySmallPages, AllBacked, Placed, BitAt, FrameSafe;
      SmallWay(mapper.ram, mapper.cr3, VPage(x), l - 1);
      OpenWay(mapper.ram, mapper.forest, mapper.cr3, VPage(x), l);
    }

    static lemma {:induction false} PageOfLiveByte(b: nat, x: u64)
      requires b % 4096 == 0 && b <= x
      ensures VPage(x) == SlotOf(b, (x - b) / 4096)
    {
      var q, r := (x - b) / 4096, (x - b) % 4096;
      assert x - b == 4096 * q + r;
      assert b == 4096 * (b / 4096);
      DivModUnique(x, 4096, b / 4096 + q, r);
      DivModUnique(b + q * 4096, 4096, b / 4096 + q, 0);
    }

    /** Where the processor finds byte x. */
    ghost function Physical(x: nat): int
      requires x < TWO64
      reads mapper
    {
      match Walk(mapper.ram, mapper.cr3, VPage(x))
      case Some(leaf) => leaf.frame + x % 4096
      case None => -1
    }

    /** Different bytes of live pages are different bytes of physical memory, and none is free memory or part
        of a page table. */
    lemma {:induction false} DistinctBytesDistinctMemory(x: nat, y: nat)
      requires Sane() && LiveByte(x) && LiveByte(y)
      ensures Physical(x) == Physical(y) ==> x == y
      ensures forall t {:trigger t in mapper.forest.level} :: t in mapper.forest.level && t % 4096 == 0 ==> !(t <= Physical(x) < t + 4096)
    {
      hide Parts, OnlySmallPages, AllBacked, Placed, Injective;
      LiveBytesAreMapped(x);
      LiveBytesAreMapped(y);
      var p, q := (x - vma.base) / 4096, (y - vma.base) / 4096;
      FramesAreAligned(mapper.ram, 4, mapper.cr3, VPage(x));
      FramesAreAligned(mapper.ram, 4, mapper.cr3, VPage(y));
      SameFrame(backing[p], x % 4096, backing[q], y % 4096);
      FramesDiffer(p, q);
      SameOffset(vma.base, x, y);
      forall t | t in mapper.forest.level && t % 4096 == 0
        ensures !(t <= Physical(x) < t + 4096)
      {
        if t <= Physical(x) < t + 4096 {
          SameFrame(backing[p], x % 4096, t, Physical(x) - t);
        }
      }
    }

    lemma FramesDiffer(p: nat, q: nat)
      requires Injective() && p in backing && q in backing
      ensures backing[p] == backing[q] ==> p == q
    {
    }

    static lemma SameOffset(b: nat, x: nat, y: nat)
      requires b <= x && b <= y
      ensures (x - b) / 4096 == (y - b) / 4096 && x % 4096 == y % 4096 ==> x == y
    {
    }

    static lemma {:induction false} SameFrame(f: nat, i: nat, g: nat, j: nat)
      requires f % 4096 == 0 && g % 4096 == 0 && i < 4096 && j < 4096
      ensures f + i == g + j ==> f == g && i == j
    {
      if f + i == g + j {
        RemainderUnique(4096, f / 4096, g / 4096, i, j);
      }
    }

    static lemma {:induction false} FramesAreAligned(ram: Ram, l: nat, table: nat, p: nat)
      requires 1 <= l <= 4
      ensures WalkFrom(ram, l, table, p).Some? ==> WalkFrom(ram, l, table, p).value.frame % 4096 == 0
      decreases l
    {
      var e := Entry(ram, table, Index(p, l));
      if Present(e) && PointsToTable(e, l) {
        FramesAreAligned(ram, l - 1, Frame(e), p);
      }
    }

    // ---------- init_heap ----------

    /** `init_heap`, called once at boot: reserve 32 MiB of addresses, or stop. */
    method InitHeap() returns (ok: bool)
      requires Valid() && !initialized
      modifies this, vma, vma.pool.repr
      ensures Valid() && fresh(vma.pool.repr - old(vma.pool.repr)) && initialized == ok && !topKnown
      ensures backing == old(backing) && log == old(log)
      ensures ok ==> RunTaken(old(vma.view), vma.view, heapPage, HEAP_PAGES, 1) && heapBase == At(heapPage)
      ensures !ok ==> vma.view == old(vma.view)
    {
      hide Sane, InUse, RunTaken;
      PartsDiffer();
      var address;
      ghost var hit, page;
      address, hit, page := Reserve(HEAP_BYTES / 4096);
      if address.None? {
        return false;
      }
      heapSize := HEAP_BYTES;
      heapBase := address.value;
      initialized := true;
      heapPage, topPage := page, page;
      NoSbrkAnywhere(log, page);
      ok := true;
    }

    /** `allocate_virtual_memory`: addresses of n free pages.  Live pages stay live. */
    method Reserve(n: u64) returns (r: Option<u64>, ghost hit: nat, ghost page: nat)
      requires Sane()
      modifies vma, vma.pool.repr
      ensures Sane() && fresh(vma.pool.repr - old(vma.pool.repr)) && vma.Same()
      ensures r.None? ==> vma.view == old(vma.view) && (old(vma.pool.top) >= 2 && n > 0 ==> NoFit(vma.view, n, 1))
      ensures r.Some? ==> 0 < n && page + n <= vma.totalPages && r.value == At(page) && AllUsed(page, n)
      ensures r.Some? ==> RunTaken(old(vma.view), vma.view, page, n, 1) && CarvedAt(old(vma.view), vma.view, hit, page, n)
      ensures r.Some? ==> !NoFit(old(vma.view), n, 1)
      ensures forall q: nat {:trigger InUse(vma.view, q)} {:trigger InUse(old(vma.view), q)} ::
        InUse(vma.view, q) <==> InUse(old(vma.view), q) || (r.Some? && page <= q < page + n)
      ensures forall q: nat {:trigger InUse(old(vma.view), q)} :: r.Some? && page <= q < page + n ==> !InUse(old(vma.view), q)
      ensures forall q: nat {:trigger q in backing} :: r.Some? && page <= q < page + n ==> q !in backing
    {
      hide OnFrame, SlotOf, CarveAt, FrameSafe, InUse, RunTaken, NoFit;
      r, hit, page := vma.AllocPages(n, 1);
      if r.Some? {
        TakenPages(old(vma.view), vma.view, vma.totalPages, page, n);
        CarvedNormal(old(vma.view), vma.totalPages, hit, page - old(vma.view)[hit].start, n);
        CarvedFits(old(vma.view), vma.view, hit, page, n);
      }
      forall q | q in backing
        ensures BackedAt(q)
      {
        assert old(BackedAt(q)) && InUse(old(vma.view), q);
      }
    }

    /** `deallocate_virtual_memory` right after `allocate_virtual_memory`: the list is as it was. */
    method Unreserve(addr: u64, n: u64, ghost page: nat, ghost was: seq<Seg>, ghost hit: nat)
      requires Sane() && addr == At(page) && page + n <= vma.totalPages && Tiles(was, vma.totalPages) && NormalForm(was)
      requires CarvedAt(was, vma.view, hit, page, n) && forall q {:trigger backing[q]} :: q in backing ==> InUse(was, q)
      modifies vma, vma.pool.repr
      ensures Sane() && fresh(vma.pool.repr - old(vma.pool.repr)) && vma.Same() && vma.view == was
    {
      hide OnFrame, SlotOf, CarveAt, FrameSafe, InUse, FreeWith, CarvedAt;
      PartsDiffer();
      vma.PageOfVAddr(page);
      label Before:
      var ok := vma.Free(addr, n);
      FreeUndoesCarve(was, old(vma.view), vma.totalPages, hit, page, n, vma.Supply@Before());
      forall q | q in backing
        ensures BackedAt(q)
      {
        assert old(BackedAt(q));
      }
    }

    ghost predicate HeapPagesInUse(s: seq<Seg>)
      reads this`initialized, this`heapPage
    {
      initialized ==> forall q: nat {:trigger InUse(s, q)} :: heapPage <= q < heapPage + HEAP_PAGES ==> InUse(s, q)
    }

    lemma HeapInUse()
      requires Valid()
      ensures HeapPagesInUse(vma.view)
    {
      hide Sane, InUse;
      forall q: nat | initialized && heapPage <= q < heapPage + HEAP_PAGES
        ensures InUse(vma.view, q)
      {
        assert UsedPage(q);
      }
    }

    /** The rest of `mmap`, after the addresses are reserved; `was` is the list before that. */
    method Populate(addr: u64, n: u64, ghost page: nat, ghost was: seq<Seg>, ghost hit: nat) returns (r: PageResult)
      requires Valid() && addr == At(page) && 0 < n && page + n <= vma.totalPages && AllUsed(page, n)
      requires Tiles(was, vma.totalPages) && NormalForm(was) && CarvedAt(was, vma.view, hit, page, n)
      requires (forall q {:trigger backing[q]} :: q in backing ==> InUse(was, q)) && HeapPagesInUse(was)
      requires forall q: nat {:trigger InUse(was, q)} :: page <= q < page + n ==> !InUse(was, q)
      modifies this`backing, this`log, this`topPage, pma, mapper, vma, vma.pool.repr
      ensures Valid() && fresh(vma.pool.repr - old(vma.pool.repr)) && vma.Same() && topPage == old(topPage)
      ensures r.Backed? ==> vma.view == old(vma.view) && Grown(old(backing), page, n)
      ensures r.Backed? ==> log == old(log) + [Range(page, n, false)]
      ensures !r.Backed? ==> backing == old(backing) && log == old(log) && Exhausted(pma.blocks)
      ensures !r.Backed? ==> vma.view == if r.NoFrame? then was else old(vma.view)
      ensures Exhausted(old(pma.blocks)) ==> !r.Backed?
    {
      hide Sane, InUse, CarvedAt, Covered, Separated, Consecutive, Exhausted;
      PartsDiffer();
      HeapInUse();
      assert forall q {:trigger q in backing} :: page <= q < page + n ==> q !in backing;
      r := BackPages(addr, n, page);
      if r.NoFrame? {
        Unreserve(addr, n, page, was, hit);
      }
      if r.Backed? {
        Record(old(backing), Range(page, n, false));
        forall q: nat | initialized && topPage <= q < heapPage + HEAP_PAGES
          ensures q !in backing
        {
          assert InUse(was, q);
        }
      }
    }

    /** `mmap`.  -1 for a call it does not support, without addresses, without frames, or without memory
        for tables; only the last leaves something behind: the range stays reserved. */
    method Mmap(length: u64, isPrivate: bool, anonymous: bool) returns (r: MmapResult, ghost page: nat)
      requires Valid()
      modifies this`backing, this`log, this`topPage, pma, mapper, vma, vma.pool.repr
      ensures Valid() && fresh(vma.pool.repr - old(vma.pool.repr)) && vma.Same() && topPage == old(topPage)
      ensures r.BadCall? <==> !isPrivate || !anonymous || length == 0
      ensures length + 4095 >= TWO64 ==> r.BadCall? || r.NoRange?
      ensures r.NoRange? && length + 4095 < TWO64 && old(vma.pool.top) >= 2 ==>
        NoFit(vma.view, PageCount(AlignUp(length, PAGE_SIZE)), 1)
      ensures r.Mapped? ==> !NoFit(old(vma.view), PageCount(AlignUp(length, PAGE_SIZE)), 1)
      ensures r.OutOfFrames? || r.MapFailed? ==> Exhausted(pma.blocks)
      ensures Exhausted(old(pma.blocks)) ==> !r.Mapped? && Exhausted(pma.blocks)
      ensures var n := PageCount(AlignUp(length, PAGE_SIZE));
        && (r.Mapped? ==>
              && r.addr == At(page) && r.addr % 4096 == 0 && length <= n * 4096 < length + 4096
              && page + n <= vma.totalPages
              && RunTaken(old(vma.view), vma.view, page, n, 1)
              && Grown(old(backing), page, n) && (forall q :: page <= q < page + n ==> q !in old(backing))
              && log == old(log) + [Range(page, n, false)])
        && (!r.Mapped? ==> backing == old(backing) && log == old(log))
        && (if r.MapFailed? then RunTaken(old(vma.view), vma.view, page, n, 1)
            else r.Mapped? || vma.view == old(vma.view))
    {
      hide Sane, InUse, RunTaken, CarvedAt, Covered, Separated, Consecutive, NoFit, Exhausted;
      PartsDiffer();
      page := 0;
      if !isPrivate || !anonymous {
        return BadCall, page;
      }
      if length == 0 {
        return BadCall, page;
      }
      LivePagesUsed();
      HeapInUse();
      PageAlignUp(length);
      var aligned := AlignUp(length, PAGE_SIZE);
      var n := PageCount(aligned);
      ghost var hit;
      var base;
      base, hit, page := Reserve(n);
      if base.None? {
        return NoRange, page;
      }
      var result := Populate(base.value, n, page, old(vma.view), hit);
      r := match result case Backed => Mapped(base.value) case NoFrame => OutOfFrames case NoTable => MapFailed;
    }

    // ---------- sbrk ----------

    /** Page and address of the break, also before the first call sets the static local. */
    ghost function Top(): nat
      reads this`topPage, vma`base
    {
      At(topPage)
    }

    /** The second half of `sbrk`: back the pages up to the new break, then move it. */
    method Extend(n: nat) returns (r: SbrkResult)
      requires Valid() && topKnown && n > 0 && topPage + n <= heapPage + HEAP_PAGES
      modifies this`backing, this`log, this`topPage, this`heapTop, pma, mapper
      ensures Valid() && (r.Break? || r.Zero?)
      ensures r.Zero? ==> backing == old(backing) && log == old(log) && topPage == old(topPage) && Exhausted(pma.blocks)
      ensures r.Break? ==> r.addr == old(Top()) && Handed(old(backing), old(log), old(topPage), n)
      ensures Exhausted(old(pma.blocks)) ==> r.Zero?
    {
      hide Sane, InUse, Covered, Separated, Consecutive, Exhausted;
      PartsDiffer();
      var result := BackPages(heapTop, n, topPage);
      if !result.Backed? {
        return Zero;
      }
      r := Break(heapTop);
      heapTop := Add64(heapTop, n * 4096);
      Record(old(backing), Range(topPage, n, true));
    }

    /** A successful call moved the break from page `top` by n pages, which were not live before. */
    ghost predicate Handed(was: map<nat, nat>, oldLog: seq<Range>, top: nat, n: nat)
      reads this
    {
      && topPage == top + n && Grown(was, top, n) && (forall q :: top <= q < topPage ==> q !in was)
      && log == oldLog + (if n == 0 then [] else [Range(top, n, true)])
    }

    static lemma WholePages(increment: u64)
      requires increment < 0x8000_0000_0000_0000
      ensures AlignUp(increment, PAGE_SIZE) == (increment + 4095) / 4096 * 4096
      ensures PageCount(AlignUp(increment, PAGE_SIZE)) == (increment + 4095) / 4096
    {
      PageAlignUp(increment);
    }

    /** `sbrk`.  A successful call hands out the pages between the old and the new break. */
    method Sbrk(increment: int) returns (r: SbrkResult)
      requires Valid() && -0x8000_0000_0000_0000 <= increment < 0x8000_0000_0000_0000
      modifies this`backing, this`log, this`topPage, this`topKnown, this`heapTop, pma, mapper
      ensures Valid()
      ensures r.Zero? || r.Halted? || r.Escaped? ==> backing == old(backing) && log == old(log) && topPage == old(topPage)
      ensures !initialized ==> r.Zero?
      ensures r.Halted? <==> initialized && increment < 0
      ensures initialized && increment == 0 ==> r.Break?
      ensures r.Break? ==> increment >= 0 && r.addr == old(Top()) && Top() <= heapBase + heapSize
      ensures r.Break? ==> Handed(old(backing), old(log), old(topPage), (increment + 4095) / 4096)
      ensures initialized && increment >= 0 && old(Top()) + increment > heapBase + heapSize ==> r.Zero? || r.Escaped?
      ensures initialized && r.Zero? ==> old(Top()) + increment > heapBase + heapSize || Exhausted(pma.blocks)
      ensures Exhausted(old(pma.blocks)) ==> (increment > 0 ==> !r.Break?) && Exhausted(pma.blocks)
      ensures r.Escaped? <==> initialized && increment >= 0 && old(Top()) + (increment + 4095) / 4096 * 4096 >= TWO64
    {
      hide Sane, UsedPage, HistoryOk, Exhausted, AlignUp, PageCount;
      PartsDiffer();
      if !initialized {
        return Zero;
      }
      if !topKnown {
        topKnown, heapTop := true, heapBase;
      }
      if increment == 0 {
        return Break(heapTop);
      }
      if increment < 0 {
        return Halted;
      }
      WholePages(increment);
      var aligned := AlignUp(increment, PAGE_SIZE);
      var n := PageCount(aligned);
      if !LimitCheckPasses(heapTop, aligned, heapBase, heapSize) {
        return Zero;
      }
      if heapTop + aligned >= TWO64 {
        return Escaped;
      }
      r := Extend(n);
    }
  }
}
