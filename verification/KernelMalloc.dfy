/** `malloc`, `free`, `realloc`, `memalign` and `independent_alloc` over one arena that grows through
    `sbrk`.  Every call keeps the tags, lists and bins in order and changes the set of chunks in callers'
    hands by exactly what it returns or takes back. */
module KernelMallocs {
  import opened Machine
  import opened HeapSizes
  import opened HeapChunks
  import HC = HeapChunks
  import opened BinContents
  import opened ArenaGaps
  import opened BoundaryTagHeap
  import opened FreedRuns
  import KH = KernelHeaps
  import PM = PhysicalMemory
  import SL = SegmentLaws
  import SG = Segments

  const MMAP_THRESHOLD: int := 0x4_0000
  const MMAP_MAX: int := 65536
  const LONG_MAX: int := 0x7FFF_FFFF_FFFF_FFFF

  /** What a caller gets: memory in the arena, a region mapped for it alone, or the null pointer.  The other
      four name requests on which the code goes on with memory it does not have: `sbrk` failed with 0,
      which is taken for an address; `sbrk` let a request through that wraps; a bin chunk that is too
      small is split; a sum of sizes wrapped, and the memory got for it is too small.  `Hangs` is a request
      that is never answered. */
  datatype Given = Allocated(mem: nat) | Direct(mem: nat) | Null | TopAtNull | HeapEscaped | Overrun | Wrapped | Hangs

  /** The arena when `memalign` gives back the leader of its chunk p, and when it gives back the spare end. */
  datatype Cuts = Cuts(p: nat, mid: Chunks, rest: Chunks)

  /** What callers hold at these two points: one chunk at p, and its end from q on. */
  ghost predicate CutsOf(c: Cuts, was: map<nat, nat>, q: nat) {
    && c.p <= q && c.p !in was && c.p in Owned(c.mid) && Owned(c.mid) == was[c.p := Owned(c.mid)[c.p]] && c.p in c.mid
    && q in Owned(c.rest) && Owned(c.rest) == was[q := Owned(c.rest)[q]] && q in c.rest
    && q + Owned(c.rest)[q] == c.p + Owned(c.mid)[c.p]
  }

  /** Giving back the leader or the spare end makes the heap ask for less memory. */
  ghost predicate CutsTrim(c: Cuts, end: nat, q: nat, nb: nat) {
    && c.p <= q && c.p in c.mid && q in c.rest
    && (FrontTrims(c.mid, end, c.p, q - c.p) || RestTrims(c.rest, end, q, q + c.rest[q].size, nb))
  }

  /** Of the chunk at q only nb bytes are kept, if more than a minimal chunk is spare. */
  ghost predicate SpareGone(c: Cuts, now: map<nat, nat>, q: nat, nb: nat) {
    q in Owned(c.rest) && q in now && now[q] == if nb + MINSIZE < Owned(c.rest)[q] then nb else Owned(c.rest)[q]
  }

  /** The first multiple of a from mem on that is mem itself or leaves a chunk in front of it. */
  ghost predicate FirstSpot(mem: nat, spot: nat, a: nat) {
    && a > 0 && spot % a == 0 && (spot == mem || mem + MINSIZE <= spot < mem + MINSIZE + a)
    && (mem % a == 0 ==> spot == mem)
  }

  /** Who may hold memory: the caller of a chunk, or of a range that was mapped for it, entry i of the history
      of the kernel heap. */
  datatype Holder = Payload(p: nat) | Region(i: nat)

  /** How `realloc` stays in place: the chunk shrinks, or grows into the top chunk, or into the free chunk behind. */
  datatype Way = Shrink | IntoTop | IntoNext | Move

  ghost function WayOf(cs: Chunks, p: nat, nb: nat): Way
    requires p in cs
  {
    var n := p + cs[p].size;
    if nb <= cs[p].size then Shrink
    else if n in cs && cs[n].use.Top? && cs[p].size + cs[n].size >= nb + MINSIZE then IntoTop
    else if n in cs && HC.Free(cs[n].use) && cs[p].size + cs[n].size >= nb then IntoNext
    else Move
  }

  /** Chunk p can have nb bytes where it is: no more than it has, or all of them, and a minimal chunk behind them,
      lie in the arena and in front of the next chunk that is in use or on a fastbin. */
  ghost predicate FitsInPlace(cs: Chunks, end: nat, p: nat, nb: nat)
    requires p in cs
  {
    || nb <= cs[p].size
    || (p + nb + MINSIZE <= end
        && forall q {:trigger cs[q]} :: q in cs && q > p && (cs[q].use.InUse? || cs[q].use.Fast?) ==> p + nb <= q)
  }

  lemma {:induction false} StaysIff(cs: Chunks, base: nat, end: nat, head: map<nat, nat>, foot: map<nat, nat>, p: nat, nb: nat)
    requires Tiled(cs, base, end) && Tagged(cs, base, head, foot) && p in cs && cs[p].use.InUse?
    ensures !WayOf(cs, p, nb).Move? <==> FitsInPlace(cs, end, p, nb)
  {
    var n := p + cs[p].size;
    assert ChunkOk(cs, base, end, p) && TagAt(cs, base, head, foot, p);
    assert n in cs && ChunkOk(cs, base, end, n) && TagAt(cs, base, head, foot, n);
    var m := n + cs[n].size;
    forall q | q in cs && q > p
      ensures n <= q && (q == n || m <= q)
    {
      assert Before(cs, p, q);
      assert q > n ==> Before(cs, n, q);
    }
    if HC.Free(cs[n].use) {
      assert m in cs && ChunkOk(cs, base, end, m);
    }
  }

  /** The free chunk behind is as large as what is missing: 32 bytes in use, 96 free, and a chunk in use. */
  lemma {:induction false} ExactFitStays()
    ensures var cs := map[0x1000 := Chunk(32, InUse), 0x1020 := Chunk(96, Sorted), 0x1080 := Chunk(32, InUse),
                          0x10A0 := Chunk(32, Top)];
      && Request2Size(120) == 128 && WayOf(cs, 0x1000, 128) == IntoNext && WayOf(cs, 0x1000, 144) == Move
      && FitsInPlace(cs, 0x10C0, 0x1000, 128) && !FitsInPlace(cs, 0x10C0, 0x1000, 144)
  {
    var cs := map[0x1000 := Chunk(32, InUse), 0x1020 := Chunk(96, Sorted), 0x1080 := Chunk(32, InUse), 0x10A0 := Chunk(32, Top)];
    assert cs[0x1080].use.InUse?;
  }

  /** What is left over where it stays in place goes back, and makes the heap ask for less memory. */
  ghost predicate InPlaceTrims(cs: Chunks, end: nat, p: nat, nb: nat)
    requires p in cs
  {
    var n := p + cs[p].size;
    match WayOf(cs, p, nb)
    case Shrink => RestTrims(cs, end, p, n, nb)
    case IntoNext => n in cs && RestTrims(cs, end, p, n + cs[n].size, nb)
    case _ => false
  }

  /** `realloc` got new memory r for chunk p in the arena cs: freeing p, or what is left over if the new chunk lies
      right behind p, makes the heap ask for less memory. */
  ghost predicate MoveTrims(cs: Chunks, base: nat, end: nat, p: nat, nb: nat, r: Given)
    requires p in cs
  {
    var q := p + cs[p].size;
    if r == Allocated(p + 16) then q in cs && RestTrims(cs, end, p, q + cs[q].size, nb)
    else FreeTrims(cs, base, end, p)
  }

  /** What callers hold between getting the new memory and giving back the old. */
  ghost predicate HeldBetween(was: map<nat, nat>, mid: map<nat, nat>, p: nat, nb: nat, r: Given)
    requires p in was
  {
    if r.Allocated? then r.mem >= 16 && HasNew(was, mid, if r.mem == p + 16 then p + was[p] else r.mem - 16, nb)
    else mid == was
  }

  /** The words in front of a chunk that was mapped for one request: how far into its region it begins, and its
      size. */
  datatype MapTag = MapTag(offset: nat, size: nat)

  /** Chunk p reaches to the end of region i, and begins as far into it as its tag says. */
  ghost predicate InRegion(p: nat, tag: MapTag, log: seq<KH.Range>, base: nat, i: nat) {
    && i < |log| && !log[i].fromSbrk && base + log[i].page * 4096 + tag.offset == p
    && tag.offset + tag.size == log[i].n * 4096
  }

  ghost predicate TagOk(p: nat, tag: MapTag, log: seq<KH.Range>, base: nat) {
    tag.size > MAX_FAST && exists i: nat {:trigger InRegion(p, tag, log, base, i)} :: InRegion(p, tag, log, base, i)
  }

  /** The tags of mapped chunks tell the regions they are in, so that whole regions would be given back; and
      none of them is small enough for a fastbin, where `free` would put it otherwise. */
  ghost predicate TagsOk(mapped: map<nat, MapTag>, log: seq<KH.Range>, base: nat) {
    forall p {:trigger TagOk(p, mapped[p], log, base)} :: p in mapped ==> TagOk(p, mapped[p], log, base)
  }

  lemma TagsStay(mapped: map<nat, MapTag>, log: seq<KH.Range>, log': seq<KH.Range>, base: nat)
    requires TagsOk(mapped, log, base) && log <= log'
    ensures TagsOk(mapped, log', base)
  {
    forall p | p in mapped
      ensures TagOk(p, mapped[p], log', base)
    {
      assert TagOk(p, mapped[p], log, base);
      var i: nat :| InRegion(p, mapped[p], log, base, i);
      assert InRegion(p, mapped[p], log', base, i);
    }
  }

  /** The chunk from `offset` to the end of the region mapped last. */
  lemma {:induction false} TagAdded(mapped: map<nat, MapTag>, log: seq<KH.Range>, base: nat, g: KH.Range, offset: nat)
    requires TagsOk(mapped, log, base) && !g.fromSbrk && offset + MAX_FAST < g.n * 4096 && KH.Separated(log + [g])
    ensures var p := base + g.page * 4096 + offset;
      p !in mapped && TagsOk(mapped[p := MapTag(offset, g.n * 4096 - offset)], log + [g], base)
  {
    var p, tag := base + g.page * 4096 + offset, MapTag(offset, g.n * 4096 - offset);
    TagsStay(mapped, log, log + [g], base);
    assert InRegion(p, tag, log + [g], base, |log|);
    if p in mapped {
      assert TagOk(p, mapped[p], log, base);
      var i: nat :| InRegion(p, mapped[p], log, base, i);
      var q := (p - base) / 4096;
      assert (log + [g])[i].Has(q) && (log + [g])[|log|].Has(q);
      assert false;
    }
    var now := mapped[p := tag];
    forall q | q in now
      ensures TagOk(q, now[q], log + [g], base)
    {
      assert q in mapped ==> TagOk(q, mapped[q], log + [g], base);
    }
  }

  /** A mapped chunk of at least nb + 8 bytes is new in callers' hands if the result says so; the others are as
      they were. */
  ghost predicate MappedNew(was: map<nat, MapTag>, now: map<nat, MapTag>, r: Given, nb: nat) {
    if r.Direct? then
      && r.mem > 16 && r.mem - 16 in now && r.mem - 16 !in was && now == was[r.mem - 16 := now[r.mem - 16]]
      && now[r.mem - 16].size >= nb + SIZE_SZ
    else now == was
  }

  /** The arena as callers see it; empty before the first extension. */
  datatype ArenaView = ArenaView(owned: map<nat, nat>, base: nat, end: nat)

  /** What `sbrk` goes by: is there a heap, where is the break, and how far may it move? */
  datatype BreakView = BreakView(initialized: bool, brk: nat, limit: nat)

  /** The bytes `sbrk` is asked for: enough for nb and a minimal chunk beyond the old top, in whole pages;
      0 and values that are negative as a signed number mean that it is not asked. */
  function MoreSize(nb: u64, oldSize: nat): u64
    requires ChunkSize(nb) && nb + MINSIZE < TWO64 && oldSize < nb + MINSIZE
  {
    AlignUp(nb + MINSIZE - oldSize, PAGE_SIZE)
  }

  /** What comes of asking for more memory; `Allocated` stands for success.  A failure of `sbrk` is 0, and
      taken for an address; its limit check adds in 64 bits and lets a sum through that wraps. */
  ghost predicate SystemOutcome(r: Given, size: u64, s: BreakView, exhausted: bool) {
    if size == 0 || size > LONG_MAX then r.Null?
    else if !s.initialized then r.TopAtNull?
    else if s.brk + size >= TWO64 then r.HeapEscaped?
    else if s.brk + size > s.limit then r.TopAtNull?
    else r.Allocated? || (r.TopAtNull? && exhausted)
  }

  /** What mapping a request for itself goes by: is it allowed, which address ranges are free, and are there two
      nodes for their list? */
  datatype MapView = MapView(allowed: bool, segs: seq<SG.Seg>, spare: bool)

  /** The pages of a region for a chunk of nb bytes, as far as 64 bits hold the sum. */
  function RegionPages(nb: nat): nat {
    (nb + SIZE_SZ + MALLOC_ALIGN_MASK + 4095) / 4096
  }

  /** The request is for a region, and there are addresses for it. */
  ghost predicate Mappable(nb: u64, m: MapView) {
    && m.allowed && nb >= MMAP_THRESHOLD && nb + SIZE_SZ + MALLOC_ALIGN_MASK + 4095 < TWO64
    && !SL.NoFit(m.segs, RegionPages(nb), 1)
  }

  /** What comes of a request for a chunk of nb bytes: served where callers' chunks leave room; else misled by
      a bin too late for its low 32 bits; else mapped, if there are addresses and frames; else a matter for the
      system, which has no frames either if it was for want of them that the request was not mapped. */
  ghost predicate MallocOutcome(r: Given, nb: u64, v: ArenaView, s: BreakView, m: MapView, exhausted: bool)
    requires ChunkSize(nb) && nb + MINSIZE < TWO64
  {
    if RoomFor(v.owned, v.base, v.end, nb) then r.Allocated?
    else if nb >= TWO32 && LaterGap(v.owned, v.base, nb) then r.Overrun?
    else if r.Direct? then Mappable(nb, m)
    else
      && (Mappable(nb, m) && m.spare ==> exhausted && !r.Allocated?)
      && forall t: nat {:trigger Tail(v.owned, v.base, v.end, t)} ::
           Tail(v.owned, v.base, v.end, t) && t < nb + MINSIZE ==> SystemOutcome(r, MoreSize(nb, t), s, exhausted)
  }

  /** What comes of a request for nb bytes whose size is not what is needed: memory got for it is too small. */
  ghost predicate WrappedOutcome(r: Given, nb: u64, v: ArenaView, s: BreakView, m: MapView, exhausted: bool)
    requires ChunkSize(nb) && nb + MINSIZE < TWO64
  {
    if r.Wrapped? then exists i: Given {:trigger Serves(i)} :: Serves(i) && MallocOutcome(i, nb, v, s, m, exhausted)
    else !Serves(r) && MallocOutcome(r, nb, v, s, m, exhausted)
  }

  predicate Serves(r: Given) {
    r.Allocated? || r.Direct?
  }

  /** What comes of asking for `bytes` in place of a size that may have wrapped on the way. */
  ghost predicate RequestOutcome(r: Given, wraps: bool, bytes: u64, v: ArenaView, s: BreakView, m: MapView, exhausted: bool) {
    if OutOfRange(bytes) then r.Null?
    else
      RequestFits(bytes);
      if wraps then WrappedOutcome(r, Request2Size(bytes), v, s, m, exhausted)
      else MallocOutcome(r, Request2Size(bytes), v, s, m, exhausted)
  }

  /** Before the heap is initialised a request for 64 bytes is given memory at address 0. */
  lemma {:induction false} NoHeapServesNull(r: Given, brk: nat, limit: nat, m: MapView, exhausted: bool)
    requires ChunkSize(80) && MallocOutcome(r, 80, ArenaView(map[], 0, 0), BreakView(false, brk, limit), m, exhausted)
    ensures Request2Size(64) == 80 && r.TopAtNull?
  {
    assert BeginsGap(map[], 0, 0) && Tail(map[], 0, 0, 0);
    PageAlignUp(112);
    assert MoreSize(80, 0) == 4096;
  }

  /** A tail of 4000 bytes counts: with it one page is enough for a request of 4072, with a break one page below
      its limit; at the limit the request is given memory at address 0. */
  lemma {:induction false} TailCounts(r: Given, limit: nat, m: MapView)
    requires ChunkSize(4080)
    requires MallocOutcome(r, 4080, ArenaView(map[0x1000 := 96], 0x1000, 0x2000), BreakView(true, 0x2000, limit), m, false)
    ensures Request2Size(4072) == 4080
    ensures limit == 0x3000 ==> r.Allocated?
    ensures limit == 0x2000 ==> r.TopAtNull?
  {
    var o := map[0x1000 := 96];
    assert Ends(o, 0x1000, 0x1060) && Tail(o, 0x1000, 0x2000, 4000);
    assert !RoomFor(o, 0x1000, 0x2000, 4080);
    PageAlignUp(112);
    assert MoreSize(4080, 4000) == 4096;
  }

  /** So is one for 64 MiB of the 32 MiB heap, if there are no addresses to map it at; and if the break is less
      than 64 MiB below 2^64, the request even passes for one inside the heap.  With addresses, nodes and frames
      it is mapped. */
  lemma {:induction false} LargeRequestServesNull(r: Given, brk: nat, limit: nat, m: MapView, exhausted: bool)
    requires ChunkSize(0x400_0010)
    requires MallocOutcome(r, 0x400_0010, ArenaView(map[], 0, 0), BreakView(true, brk, limit), m, exhausted)
    ensures Request2Size(0x400_0000) == 0x400_0010
    ensures SL.NoFit(m.segs, 0x4001, 1) && brk + 0x400_1000 < TWO64 && limit <= brk + 0x200_0000 ==> r.TopAtNull?
    ensures SL.NoFit(m.segs, 0x4001, 1) && brk + 0x400_1000 >= TWO64 ==> r.HeapEscaped?
    ensures !SL.NoFit(m.segs, 0x4001, 1) && m.allowed && m.spare && !exhausted ==> r.Direct?
  {
    hide SL.NoFit;
    assert BeginsGap(map[], 0, 0) && Tail(map[], 0, 0, 0);
    PageAlignUp(0x400_0030);
    assert MoreSize(0x400_0010, 0) == 0x400_1000 && RegionPages(0x400_0010) == 0x4001;
  }

  /** What finds no room in the arena is mapped from 256 KiB on. */
  lemma {:induction false} MappedFrom(r: Given, nb: u64, v: ArenaView, s: BreakView, m: MapView)
    requires ChunkSize(nb) && nb < TWO32 && MallocOutcome(r, nb, v, s, m, false) && !RoomFor(v.owned, v.base, v.end, nb)
    requires m.allowed && m.spare && !SL.NoFit(m.segs, RegionPages(nb), 1)
    ensures r.Direct? <==> nb >= 0x4_0000
  {
    hide SL.NoFit, RegionPages, RoomFor;
  }

  /** A request for 4 GiB and a bit more is misled by a gap of 1 KiB. */
  lemma {:induction false} HugeRequestOverruns(r: Given, s: BreakView, m: MapView, exhausted: bool)
    requires ChunkSize(0x1_0000_0100)
    requires MallocOutcome(r, 0x1_0000_0100, ArenaView(map[0x1400 := 32], 0x1000, 0x2000), s, m, exhausted)
    ensures Request2Size(0x1_0000_00F8) == 0x1_0000_0100 && r.Overrun?
  {
    hide BinIndex;
    FourGibTakenForSmall();
    assert BeginsGap(map[0x1400 := 32], 0x1000, 0x1000) && Gap(map[0x1400 := 32], 0x1000, 0x1000, 0x400);
  }

  ghost predicate FitsBest(v: ArenaView, mem: nat, nb: nat) {
    SomeGapFits(v.owned, v.base, nb) ==> mem > 16 && BestGap(v.owned, v.base, mem - 16, nb)
  }

  /** Which memory serves a small request: the first chunk of its fastbin; else, if nothing fits better, the last
      remainder; else the smallest free chunk that holds it. */
  ghost predicate FitsSmall(cs: Chunks, fast: nat, remaindered: bool, last: nat, mem: nat, nb: nat) {
    && mem > 16
    && if fast != 0 then mem - 16 == fast else if remaindered then mem - 16 == last
       else NoneFits(cs, nb) || BestFit(cs, mem - 16, nb)
  }

  /** Exactly one chunk, of nb to nb + 31 bytes, was handed out, and only if the result says so. */
  ghost predicate Served(was: map<nat, nat>, now: map<nat, nat>, r: Given, nb: nat) {
    if r.Allocated? then r.mem > 16 && HasNew(was, now, r.mem - 16, nb) else now == was
  }

  function Word(m: map<nat, nat>, a: nat): nat {
    if a in m then m[a] else 0
  }

  ghost predicate MovedWord(m: map<nat, nat>, m': map<nat, nat>, d: nat, s: nat, k: nat) {
    Word(m', d + 8 * k) == Word(m, s + 8 * k)
  }

  /** The n words at d are those that were at s; words outside [d, d + 8n) are as they were. */
  ghost predicate Copied(m: map<nat, nat>, m': map<nat, nat>, d: nat, s: nat, n: nat) {
    && (forall k: nat {:trigger MovedWord(m, m', d, s, k)} :: k < n ==> MovedWord(m, m', d, s, k))
    && (forall a: nat {:trigger Word(m', a)} :: !(d <= a < d + 8 * n) ==> Word(m', a) == Word(m, a))
  }

  class KernelMalloc {
    const av: MallocState
    const kernel: KH.KernelHeap
    var nMmaps: nat
    var nMmapsMax: nat
    /** The chunks in callers' hands that were mapped for one request. */
    var mapped: map<nat, MapTag>
    /** The words callers have stored, by address; words never stored read as 0.  It says nothing of the words
        that hold tags or links. */
    var data: map<nat, nat>

    /** The arena is the part of the kernel heap below the break. */
    ghost predicate Joined()
      reads av, kernel, kernel.vma`base
    {
      && (av.top == 0 ==> kernel.topPage == kernel.heapPage)
      && (av.top != 0 ==> kernel.initialized && av.base == kernel.At(kernel.heapPage) && av.end == kernel.At(kernel.topPage))
    }

    ghost predicate Valid()
      reads this`mapped, this`nMmaps, av, kernel, kernel.vma, kernel.vma.pool, kernel.vma.pool.freeStack, kernel.vma.pool.live
      reads kernel.vma.spine, kernel.pma, kernel.mapper
    {
      && av.Valid() && kernel.Valid() && Joined() && TagsOk(mapped, kernel.log, kernel.vma.base) && nMmaps == |mapped|
      && this !in kernel.vma.pool.repr && av !in kernel.vma.pool.repr
    }

    constructor (kernel: KH.KernelHeap)
      requires kernel.Valid() && kernel.topPage == kernel.heapPage
      ensures Valid() && this.kernel == kernel && Owned(av.cs) == map[] && mapped == map[]
      ensures nMmapsMax == 65536
    {
      this.kernel := kernel;
      av := new MallocState();
      nMmaps, nMmapsMax, mapped, data := 0, MMAP_MAX, map[], map[];
    }

    // ---------- Memory from the system ----------

    /** `chunksize(av->top)`, 0 for the initial top. */
    function TopSize(): nat
      requires av.top != 0 ==> av.top in av.head
      reads av
    {
      if av.top == 0 then 0 else SizeBits(av.head[av.top])
    }

    lemma TopReads()
      requires Valid()
      ensures av.top != 0 ==> av.top in av.cs && av.top in av.head && av.cs[av.top] == Chunk(TopSize(), Top) && av.top + TopSize() == av.end
      ensures TopSize() % 16 == 0 && av.top % 16 == 0 && TopSize() <= 0x200_0000 && (av.top == 0 ==> av.cs == map[])
    {
      if av.top != 0 {
        av.TopThere();
      }
    }

    ghost function View(): ArenaView
      reads av
    {
      if av.top == 0 then ArenaView(map[], 0, 0) else ArenaView(Owned(av.cs), av.base, av.end)
    }

    ghost function Break(): BreakView
      reads kernel`initialized, kernel`topPage, kernel`heapPage, kernel.vma`base
    {
      BreakView(kernel.initialized, kernel.At(kernel.topPage), kernel.At(kernel.heapPage) + 0x200_0000)
    }

    ghost function Maps(): MapView
      reads this`nMmaps, this`nMmapsMax, kernel.vma`view, kernel.vma.pool`top
    {
      MapView(nMmaps < nMmapsMax, kernel.vma.view, kernel.vma.pool.top >= 2)
    }

    /** The top chunk is split if nb bytes and another minimal chunk fit into it. */
    method UseTop(nb: u64) returns (p: nat)
      requires Valid() && ChunkSize(nb) && nb + MINSIZE < TWO64
      modifies av
      ensures Valid() && av.fastChunks == old(av.fastChunks)
      ensures p != 0 ==> RoomFor(old(View()).owned, old(View()).base, old(View()).end, nb)
      ensures if p != 0 then HasNew(Owned(old(av.cs)), Owned(av.cs), p, nb) && av.FollowsUse(p)
              else unchanged(av) && (av.top != 0 ==> av.top in av.head) && TopSize() < nb + MINSIZE
    {
      hide Owned, KH.KernelHeap.Valid, MallocState.ListsOk, Arena, Cut;
      TopReads();
      p := 0;
      if TopSize() >= nb + MINSIZE {
        ghost var was := av.cs;
        p := av.SplitTop(nb);
        OwnedHandedOut(was, av.cs, p, nb);
        WasRoom(old(View()), p, nb);
      }
    }

    // ---------- sYSMALLOc ----------

    /** `MORECORE`.  The break moves by whole pages, and every page below it is backed. */
    method Morecore(increment: u64) returns (r: KH.SbrkResult)
      requires kernel.Valid() && increment <= LONG_MAX && increment % 4096 == 0
      modifies kernel`backing, kernel`log, kernel`topPage, kernel`topKnown, kernel`heapTop, kernel.pma, kernel.mapper
      ensures kernel.Valid() && kernel.heapPage == old(kernel.heapPage) && kernel.initialized == old(kernel.initialized)
      ensures old(kernel.log) <= kernel.log
      ensures r.Break? ==>
        && kernel.initialized && r.addr == old(kernel.At(kernel.topPage)) && kernel.At(kernel.topPage) == r.addr + increment
        && kernel.At(kernel.topPage) <= kernel.At(kernel.heapPage) + 0x200_0000 && kernel.At(kernel.topPage) < TWO64
        && r.addr % 4096 == 0 && KH.UPPER_HALF <= kernel.At(kernel.heapPage) && kernel.heapPage <= kernel.topPage
      ensures !r.Break? ==> kernel.topPage == old(kernel.topPage)
      ensures !r.Halted? && (increment == 0 && kernel.initialized ==> r.Break?)
      ensures PM.Exhausted(old(kernel.pma.blocks)) ==> (increment > 0 ==> !r.Break?) && PM.Exhausted(kernel.pma.blocks)
      ensures increment > 0 ==> SystemOutcome(FromBreak(r), increment, old(Break()), PM.Exhausted(kernel.pma.blocks))
    {
      hide KH.KernelHeap.Sane, KH.KernelHeap.HistoryOk, PM.Exhausted;
      kernel.PartsDiffer();
      r := kernel.Sbrk(increment);
    }

    /** What `malloc` makes of an answer of `sbrk`. */
    static function FromBreak(r: KH.SbrkResult): Given {
      match r
      case Break(_) => Allocated(0)
      case Zero => TopAtNull
      case Halted => Null
      case Escaped => HeapEscaped
    }

    /** With the old top, the pages asked for are just enough; `sbrk` is asked unless 2^63 bytes or more are
        missing, rounded up to pages. */
    static lemma {:induction false} MoreSizeIs(nb: u64, oldSize: nat)
      requires ChunkSize(nb) && nb + MINSIZE < TWO64 && oldSize < nb + MINSIZE && oldSize % 16 == 0
      ensures var size := MoreSize(nb, oldSize);
        && (0 < size <= LONG_MAX ==> size % 4096 == 0 && Aligned(size) && nb + MINSIZE <= oldSize + size < nb + MINSIZE + 4096)
        && (0 < size <= LONG_MAX <==> nb + MINSIZE - oldSize <= LONG_MAX - 4095)
    {
      var v := nb + MINSIZE - oldSize;
      PageAlignUp(v);
      var q := (v + 4095) / 4096;
      DivModUnique(4096 * q, 4096, q, 0);
      DivModUnique(4096 * q, 16, 256 * q, 0);
    }

    /** Extend or create the top chunk so that nb bytes and a minimal chunk fit.  `Allocated` stands for
        success here. */
    method Grow(nb: u64) returns (r: Given)
      requires Valid() && ChunkSize(nb) && nb + MINSIZE < TWO64
      requires (av.top != 0 ==> av.top in av.head) && TopSize() < nb + MINSIZE
      modifies av, kernel`backing, kernel`log, kernel`topPage, kernel`topKnown, kernel`heapTop, kernel.pma, kernel.mapper
      ensures Valid() && Owned(av.cs) == Owned(old(av.cs)) && av.fastChunks == old(av.fastChunks)
      ensures r == Allocated(0) || r.Null? || r.TopAtNull? || r.HeapEscaped?
      ensures r.Allocated? ==> av.top != 0 && av.top in av.head && nb + MINSIZE <= TopSize() < nb + MINSIZE + 4096
      ensures r.Null? ==> nb > LONG_MAX - 8192 && unchanged(av)
      ensures SystemOutcome(r, MoreSize(nb, old(TopSize())), old(Break()), PM.Exhausted(kernel.pma.blocks))
      ensures PM.Exhausted(old(kernel.pma.blocks)) ==> !r.Allocated? && PM.Exhausted(kernel.pma.blocks)
    {
      hide Owned, KH.KernelHeap.Valid, MallocState.ListsOk, Arena, Cut, PM.Exhausted, KH.KernelHeap.HeapOk, Extend, TagsOk;
      TopReads();
      var oldSize := TopSize();
      MoreSizeIs(nb, oldSize);
      var size := MoreSize(nb, oldSize);
      if size == 0 || size > LONG_MAX {
        return Null;
      }
      var brk := Morecore(size);
      TagsStay(mapped, old(kernel.log), kernel.log, kernel.vma.base);
      if brk.Zero? {
        return TopAtNull;
      }
      if brk.Escaped? {
        return HeapEscaped;
      }
      if av.top != 0 {
        Enlarge(size);
      } else {
        ghost var log := kernel.log;
        Begin(brk.addr, size);
        TagsStay(mapped, log, kernel.log, kernel.vma.base);
      }
      r := Allocated(0);
    }

    /** Contiguous memory behind the old top. */
    method Enlarge(size: u64)
      requires av.Valid() && av.top != 0 && Aligned(size) && av.end + size <= av.base + 0x200_0000 && av.end + size < TWO64
      modifies av
      ensures av.Valid() && av.end == old(av.end) + size && av.base == old(av.base) && av.top == old(av.top)
      ensures Owned(av.cs) == Owned(old(av.cs)) && av.fastChunks == old(av.fastChunks)
      ensures old(av.top in av.head) && av.top in av.head && TopSize() == old(TopSize()) + size
    {
      hide Owned, MallocState.ListsOk, Arena, Extend;
      av.TopThere();
      ghost var was := av.cs;
      av.GrowTop(size);
      av.TopThere();
      OwnedExtend(was, av.top, size);
    }

    /** The first memory: a second call of `sbrk` finds its end. */
    method Begin(addr: u64, size: u64)
      requires av.Valid() && av.top == 0 && kernel.Valid() && kernel.initialized && av !in kernel.vma.pool.repr
      requires addr == kernel.At(kernel.heapPage) && kernel.At(kernel.topPage) == addr + size
      requires 0 < addr && addr % 4096 == 0 && Aligned(size) && 32 <= size <= 0x200_0000 && addr + size < TWO64
      modifies av, kernel`backing, kernel`log, kernel`topPage, kernel`topKnown, kernel`heapTop, kernel.pma, kernel.mapper
      ensures av.Valid() && kernel.Valid() && kernel.heapPage == old(kernel.heapPage) && kernel.topPage == old(kernel.topPage)
      ensures old(kernel.log) <= kernel.log
      ensures av.top == av.base == addr && av.end == addr + size
      ensures Owned(av.cs) == Owned(old(av.cs)) && av.fastChunks == old(av.fastChunks)
      ensures av.top in av.head && TopSize() == size
    {
      hide Owned, KH.KernelHeap.Valid, MallocState.Valid, PM.Exhausted;
      var snd := Morecore(0);
      MakeTop(addr, snd.addr - addr);
    }

    method MakeTop(addr: u64, size: nat)
      requires av.Valid() && av.top == 0 && 0 < addr && addr % 4096 == 0 && Aligned(size) && 32 <= size <= 0x200_0000
      requires addr + size < TWO64
      modifies av
      ensures av.Valid() && av.top == av.base == addr && av.end == addr + size
      ensures Owned(av.cs) == Owned(old(av.cs)) && av.fastChunks == old(av.fastChunks)
      ensures av.top in av.head && TopSize() == size
    {
      hide Owned, MallocState.ListsOk;
      PageIsAligned(addr);
      hide Arena, Aligned;
      NoChunks();
      FirstOwned(addr, size);
      av.FirstTop(addr, size);
      av.TopThere();
    }

    lemma NoChunks()
      requires av.Valid() && av.top == 0
      ensures av.cs == map[]
    {
    }

    static lemma {:induction false} PageIsAligned(addr: nat)
      requires addr % 4096 == 0
      ensures Aligned(addr)
    {
      DivModUnique(addr, 16, addr / 4096 * 256, 0);
    }

    static lemma OwnedExtend(cs: Chunks, top: nat, k: nat)
      requires top in cs && cs[top].use.Top?
      ensures Owned(Extend(cs, top, k)) == Owned(cs)
    {
    }

    static lemma FirstOwned(b: nat, k: nat)
      ensures Owned(map[b := Chunk(k, Top)]) == Owned(map[])
    {
    }

    /** The last range of the kernel heap's history was mapped for `mem` alone and holds nb bytes. */
    ghost predicate MappedFor(mem: nat, nb: nat, was: seq<KH.Range>)
      reads this`mapped, kernel`log, kernel.vma`base
    {
      && |kernel.log| == |was| + 1 && kernel.log[..|was|] == was
      && var g := kernel.log[|was|];
         (!g.fromSbrk && kernel.At(g.page) + 16 == mem && nb + SIZE_SZ <= g.n * 4096
          && kernel.At(g.page) in mapped && mapped[kernel.At(g.page)] == MapTag(0, g.n * 4096))
    }

    /** The n bytes at mem are in the range mapped last. */
    ghost predicate InMapped(mem: nat, n: nat, was: seq<KH.Range>)
      reads kernel`log, kernel.vma`base
    {
      && |kernel.log| == |was| + 1 && kernel.log[..|was|] == was
      && var g := kernel.log[|was|]; !g.fromSbrk && kernel.At(g.page) + 16 <= mem && mem + n <= kernel.At(g.page + g.n)
    }

    /** A region mapped for one large request; refused if rounding up wraps or no range or frame is left, and with
        two nodes for the list of ranges only then. */
    method MapDirect(nb: u64) returns (r: Given)
      requires Valid() && ChunkSize(nb) && nb + MINSIZE < TWO64 && nb >= MMAP_THRESHOLD && nMmaps < nMmapsMax
      modifies this`nMmaps, this`mapped
      modifies kernel`backing, kernel`log, kernel`topPage, kernel.pma, kernel.mapper, kernel.vma, kernel.vma.pool.repr
      ensures Valid() && fresh(kernel.vma.pool.repr - old(kernel.vma.pool.repr)) && (r.Direct? || r.Null?)
      ensures kernel.vma.base == old(kernel.vma.base)
      ensures r.Direct? ==> r.mem % 16 == 0 && MappedFor(r.mem, nb, old(kernel.log)) && kernel.log != old(kernel.log)
      ensures MappedNew(old(mapped), mapped, r, nb)
      ensures r.Null? ==> kernel.log == old(kernel.log) && Break() == old(Break())
      ensures r.Direct? ==> Mappable(nb, old(Maps())) && |kernel.log| > 0 && kernel.log[|kernel.log| - 1].n == RegionPages(nb)
      ensures r.Null? && Mappable(nb, old(Maps())) && old(Maps()).spare ==> PM.Exhausted(kernel.pma.blocks)
    {
      hide KH.KernelHeap.Sane, KH.KernelHeap.HistoryOk, KH.KernelHeap.HeapOk, KH.KernelHeap.Grown, PM.Exhausted;
      hide MallocState.Valid, SL.RunTaken, SL.NoFit;
      hide AlignUp, TagsOk, RegionPages, PageCount;
      kernel.PartsDiffer();
      DirectSize(nb);
      var size := AlignUp(Add64(nb, SIZE_SZ + MALLOC_ALIGN_MASK), PAGE_SIZE);
      if size <= nb {
        return Null;
      }
      var mm;
      ghost var page;
      mm, page := kernel.Mmap(size, true, true);
      if !mm.Mapped? {
        return Null;
      }
      nMmaps := nMmaps + 1;
      DirectTag(mm.addr, size, page, old(kernel.log));
      mapped := mapped[mm.addr := MapTag(0, size)];
      DirectAligned(mm.addr);
      r := Direct(mm.addr + 16);
    }

    lemma {:induction false} DirectTag(addr: u64, size: u64, page: nat, was: seq<KH.Range>)
      requires kernel.Valid() && TagsOk(mapped, was, kernel.vma.base) && size % 4096 == 0 && size > MAX_FAST
      requires var n := PageCount(AlignUp(size, PAGE_SIZE));
        size <= n * 4096 < size + 4096 && kernel.log == was + [KH.Range(page, n, false)] && addr == kernel.At(page)
      ensures addr !in mapped && TagsOk(mapped[addr := MapTag(0, size)], kernel.log, kernel.vma.base) && addr > 0
    {
      hide KH.KernelHeap.HeapOk, TagsOk, AlignUp;
      var n := PageCount(AlignUp(size, PAGE_SIZE));
      assert size == size / 4096 * 4096;
      TagAdded(mapped, was, kernel.vma.base, KH.Range(page, n, false), 0);
    }

    /** The fewest pages that hold the chunk, its second size word, and 15 bytes for aligning it. */
    static lemma {:induction false} RegionIsLeast(nb: nat, n: nat)
      ensures n == RegionPages(nb) <==> nb + SIZE_SZ + MALLOC_ALIGN_MASK <= n * 4096 < nb + SIZE_SZ + MALLOC_ALIGN_MASK + 4096
    {
    }

    static lemma {:induction false} DirectSize(nb: u64)
      requires nb + MINSIZE < TWO64
      ensures var size := AlignUp(Add64(nb, SIZE_SZ + MALLOC_ALIGN_MASK), PAGE_SIZE);
        && (size > nb <==> nb + SIZE_SZ + MALLOC_ALIGN_MASK + 4095 < TWO64)
        && (size > nb ==> size >= nb + SIZE_SZ && size % 4096 == 0 && size + 4095 < TWO64
                          && PageCount(AlignUp(size, PAGE_SIZE)) == RegionPages(nb))
    {
      var v := nb + SIZE_SZ + MALLOC_ALIGN_MASK;
      PageAlignUp(v);
      if v + 4095 < TWO64 {
        var n := (v + 4095) / 4096;
        assert v <= n * 4096 && Add64(v, 4095) == v + 4095;
        DivModUnique(n * 4096, 4096, n, 0);
        DivModUnique(n * 4096 + 4095, 4096, n, 4095);
        PageAlignUp(n * 4096);
      }
    }

    static lemma {:induction false} DirectAligned(addr: u64)
      requires addr % 4096 == 0
      ensures (addr + 16) % 16 == 0
    {
      assert addr + 16 == 16 * (addr / 4096 * 256 + 1);
    }

    /** `mmap` as a backup when `sbrk` cannot be asked: it never helps, the kernel's range is too small. */
    method MapBackup(nb: u64, size: u64, oldSize: nat) returns (useful: bool)
      requires Valid() && nb > LONG_MAX - 0x300_0000 && oldSize <= 0x200_0000
      modifies kernel`backing, kernel`log, kernel`topPage, kernel.pma, kernel.mapper, kernel.vma, kernel.vma.pool.repr
      ensures Valid() && fresh(kernel.vma.pool.repr - old(kernel.vma.pool.repr)) && !useful
      ensures PM.Exhausted(old(kernel.pma.blocks)) ==> PM.Exhausted(kernel.pma.blocks)
      ensures kernel.vma.base == old(kernel.vma.base)
    {
      hide KH.KernelHeap.Sane, KH.KernelHeap.HistoryOk, KH.KernelHeap.HeapOk, KH.KernelHeap.Grown, PM.Exhausted;
      hide MallocState.Valid, SL.RunTaken, SL.NoFit;
      kernel.PartsDiffer();
      var size' := AlignUp(Add64(size, oldSize), PAGE_SIZE);
      if size' < 0x10_0000 {
        size' := 0x10_0000;
      }
      useful := false;
      if size' > nb {
        var mm;
        ghost var page;
        mm, page := kernel.Mmap(size', true, true);
        kernel.PartsDiffer();
        useful := mm.Mapped?;
      }
    }

    // ---------- malloc ----------

    /** The top chunk, or else the system. */
    method TopOrSystem(nb: u64) returns (r: Given)
      requires Valid() && ChunkSize(nb) && nb + MINSIZE < TWO64 && (av.fastChunks ==> nb < MIN_LARGE_SIZE)
      requires NoneFits(av.cs, nb) && (nb >= TWO32 ==> !LaterGap(View().owned, View().base, nb))
      modifies this`nMmaps, this`mapped, av, kernel, kernel.pma, kernel.mapper, kernel.vma, kernel.vma.pool.repr
      ensures Valid() && fresh(kernel.vma.pool.repr - old(kernel.vma.pool.repr))
      ensures kernel.vma.base == old(kernel.vma.base)
      ensures Served(Owned(old(av.cs)), Owned(av.cs), r, nb) && data == old(data)
      ensures r.Direct? ==> nMmapsMax > 0 && nb >= MMAP_THRESHOLD
      ensures MappedNew(old(mapped), mapped, r, nb)
      ensures r.Allocated? ==> av.FollowsUse(r.mem - 16)
      ensures !r.Wrapped? && !r.Hangs? && (r.Overrun? ==> nb >= TWO32)
      ensures r.Null? ==> nb > LONG_MAX - 8192
      ensures r.Direct? ==> r.mem % 16 == 0 && MappedFor(r.mem, nb, old(kernel.log))
      ensures MallocOutcome(r, nb, old(View()), old(Break()), old(Maps()), PM.Exhausted(kernel.pma.blocks))
      decreases av.fastChunks, 1
    {
      hide Owned, MallocState.Valid, KH.KernelHeap.Valid, PM.Exhausted, MappedFor;
      var p := UseTop(nb);
      if p != 0 {
        return Allocated(p + 16);
      }
      r := SysMalloc(nb);
    }

    /** `sYSMALLOc`: the top chunk is too small. */
    method SysMalloc(nb: u64) returns (r: Given)
      requires Valid() && ChunkSize(nb) && nb + MINSIZE < TWO64 && (av.fastChunks ==> nb < MIN_LARGE_SIZE)
      requires (av.top != 0 ==> av.top in av.head) && TopSize() < nb + MINSIZE
      requires NoneFits(av.cs, nb) && (nb >= TWO32 ==> !LaterGap(View().owned, View().base, nb))
      modifies this`nMmaps, this`mapped, av, kernel, kernel.pma, kernel.mapper, kernel.vma, kernel.vma.pool.repr
      ensures Valid() && fresh(kernel.vma.pool.repr - old(kernel.vma.pool.repr))
      ensures kernel.vma.base == old(kernel.vma.base)
      ensures Served(Owned(old(av.cs)), Owned(av.cs), r, nb) && data == old(data)
      ensures r.Direct? ==> nMmapsMax > 0 && nb >= MMAP_THRESHOLD
      ensures MappedNew(old(mapped), mapped, r, nb)
      ensures r.Allocated? ==> av.FollowsUse(r.mem - 16)
      ensures !r.Wrapped? && !r.Hangs? && (r.Overrun? ==> nb >= TWO32)
      ensures r.Null? ==> nb > LONG_MAX - 8192
      ensures r.Direct? ==> r.mem % 16 == 0 && MappedFor(r.mem, nb, old(kernel.log))
      ensures MallocOutcome(r, nb, old(View()), old(Break()), old(Maps()), PM.Exhausted(kernel.pma.blocks))
      decreases av.fastChunks, 0
    {
      hide Owned, MallocState.Valid, KH.KernelHeap.Valid, PM.Exhausted, MappedFor, MallocOutcome;
      if av.fastChunks {
        // Consolidate and retry from scratch.
        NoFastChunks();
        ConsolidateAll();
        RequestOfSize(nb);
        av.NoFastHead(nb);
        r := Malloc(nb - MALLOC_ALIGN_MASK);
        return;
      }
      r := FromSystem(nb);
    }

    /** The same with empty fastbins. */
    method FromSystem(nb: u64) returns (r: Given)
      requires Valid() && ChunkSize(nb) && nb + MINSIZE < TWO64 && !av.fastChunks
      requires (av.top != 0 ==> av.top in av.head) && TopSize() < nb + MINSIZE
      requires NoneFits(av.cs, nb) && (nb >= TWO32 ==> !LaterGap(View().owned, View().base, nb))
      modifies this`nMmaps, this`mapped, av, kernel, kernel.pma, kernel.mapper, kernel.vma, kernel.vma.pool.repr
      ensures Valid() && fresh(kernel.vma.pool.repr - old(kernel.vma.pool.repr))
      ensures kernel.vma.base == old(kernel.vma.base)
      ensures Served(Owned(old(av.cs)), Owned(av.cs), r, nb) && data == old(data)
      ensures r.Direct? ==> nMmapsMax > 0 && nb >= MMAP_THRESHOLD
      ensures MappedNew(old(mapped), mapped, r, nb)
      ensures r.Allocated? ==> av.FollowsUse(r.mem - 16)
      ensures !r.Wrapped? && !r.Hangs? && (r.Overrun? ==> nb >= TWO32)
      ensures r.Null? ==> nb > LONG_MAX - 8192
      ensures r.Direct? ==> r.mem % 16 == 0 && MappedFor(r.mem, nb, old(kernel.log))
      ensures MallocOutcome(r, nb, old(View()), old(Break()), old(Maps()), PM.Exhausted(kernel.pma.blocks))
    {
      hide Owned, MallocState.Valid, KH.KernelHeap.Valid, PM.Exhausted, MappedFor, RoomFor, Tail, LaterGap, SystemOutcome, SL.NoFit;
      hide NoneFits, TagsOk, Joined, HasNew;
      ghost var v, s, m, t := View(), Break(), Maps(), TopSize();
      NoRoomLeft(nb);
      if nb >= MMAP_THRESHOLD && nMmaps < nMmapsMax {
        r := MapDirect(nb);
        if r.Direct? {
          return;
        }
      }
      r := GrowOrBackup(nb);
      if r.Allocated? {
        var p := UseTop(nb);
        r := Allocated(p + 16);
      }
      OnlyTail(v, t, nb, r, s, m, PM.Exhausted(kernel.pma.blocks));
    }

    /** `malloc`. */
    method Malloc(bytes: u64) returns (r: Given)
      requires Valid()
      modifies this`nMmaps, this`mapped, av, kernel, kernel.pma, kernel.mapper, kernel.vma, kernel.vma.pool.repr
      ensures Valid() && fresh(kernel.vma.pool.repr - old(kernel.vma.pool.repr)) && data == old(data)
      ensures kernel.vma.base == old(kernel.vma.base)
      ensures OutOfRange(bytes) ==> r.Null? && Owned(av.cs) == Owned(old(av.cs))
      ensures !OutOfRange(bytes) ==> Served(Owned(old(av.cs)), Owned(av.cs), r, Request2Size(bytes))
      ensures r.Direct? ==> nMmapsMax > 0 && !OutOfRange(bytes) && Request2Size(bytes) >= MMAP_THRESHOLD
      ensures if OutOfRange(bytes) then mapped == old(mapped) else MappedNew(old(mapped), mapped, r, Request2Size(bytes))
      ensures r.Allocated? ==> !OutOfRange(bytes) && (av.FollowsUse(r.mem - 16) <==> !old(av.Recycled(Request2Size(bytes))))
      // What each failure needs.
      ensures !r.Wrapped? && !r.Hangs? && (r.Overrun? ==> bytes + 8 + 32 >= TWO32)
      ensures r.Null? ==> bytes > LONG_MAX - 9000
      ensures !OutOfRange(bytes) ==>
        ChunkSize(Request2Size(bytes)) && Request2Size(bytes) + MINSIZE < TWO64 &&
        MallocOutcome(r, Request2Size(bytes), old(View()), old(Break()), old(Maps()), PM.Exhausted(kernel.pma.blocks))
      // A small request takes other memory only if no free chunk holds it.
      ensures !OutOfRange(bytes) && Request2Size(bytes) < MIN_LARGE_SIZE && r.Allocated? ==>
        FitsSmall(old(av.cs), old(av.FastHead(Request2Size(bytes))), old(av.Remaindered(Request2Size(bytes))), old(av.lastRemainder),
                  r.mem, Request2Size(bytes))
      // Best fit: a large request takes the smallest gap that holds it, and the top chunk only if none does.
      ensures !OutOfRange(bytes) && Request2Size(bytes) >= MIN_LARGE_SIZE && r.Allocated? ==>
        FitsBest(old(View()), r.mem, Request2Size(bytes))
      ensures !OutOfRange(bytes) && r.Direct? ==> r.mem % 16 == 0 && MappedFor(r.mem, Request2Size(bytes), old(kernel.log))
      decreases av.fastChunks, 2
    {
      hide Owned, MallocState.Valid, KH.KernelHeap.Valid, NoneFits, BestGap, SomeGapFits, LaterGap, RoomFor, MappedFor;
      hide PM.Exhausted, HasNew, SystemOutcome, BestFit;
      if OutOfRange(bytes) {
        return Null;
      }
      RequestFits(bytes);
      var nb := Request2Size(bytes);
      if !av.anyChunks {
        NoFastChunks();
        NoChunksNoGaps(nb);
        av.NoFastHead(nb);
        r := TopOrSystem(nb);
        return;
      }
      NoHugeRoom(nb);
      var found := Search(nb);
      match found
      case Victim(p) => r := Allocated(p + 16);
      case TooSmall => r := Overrun;
      case Nothing => r := TopOrSystem(nb);
    }

    lemma NoFastChunks()
      requires av.Valid()
      ensures av.fastChunks ==> av.anyChunks
    {
    }

    /** What was handed out was room between callers' chunks. */
    lemma {:induction false} WasRoom(v: ArenaView, p: nat, nb: nat)
      requires av.Valid() && av.top != 0 && HasNew(v.owned, Owned(av.cs), p, nb) && v.base == av.base && v.end == av.end
      ensures RoomFor(v.owned, v.base, v.end, nb)
    {
      hide Owned, Tiled, Tagged;
      NewWasRoom(v.owned, av.cs, av.head, av.foot, av.top, av.base, av.end, p, nb);
    }

    /** When the lists are empty there are no gaps. */
    lemma {:induction false} NoChunksNoGaps(nb: u64)
      requires av.Valid() && !av.anyChunks
      ensures NoneFits(av.cs, nb) && !SomeGapFits(View().owned, View().base, nb) && !LaterGap(View().owned, View().base, nb)
      ensures !av.Remaindered(nb)
    {
      hide SomeGapFits, LaterGap, Arena, Tiled, Tagged;
      av.NoneListed();
      av.FlagTells();
      av.GapsAreChunks(nb);
      NoGaps(0, nb);
    }

    static lemma NoGaps(base: nat, nb: u64)
      ensures !SomeGapFits(map[], base, nb) && !LaterGap(map[], base, nb)
    {
    }

    /** No arena has room for 4 GiB. */
    lemma NoHugeRoom(nb: u64)
      requires av.Valid()
      ensures nb >= TWO32 ==> !RoomFor(View().owned, View().base, View().end, nb)
    {
    }

    /** With nothing on the fastbins, no free chunk large enough and a top chunk too small, callers' chunks
        leave no room, and the top chunk is the tail behind them. */
    lemma {:induction false} NoRoomLeft(nb: u64)
      requires av.Valid() && !av.fastChunks && ChunkSize(nb) && NoneFits(av.cs, nb)
      requires (av.top != 0 ==> av.top in av.head) && TopSize() < nb + MINSIZE
      ensures !RoomFor(View().owned, View().base, View().end, nb) && Tail(View().owned, View().base, View().end, TopSize())
      ensures forall t: nat {:trigger Tail(View().owned, View().base, View().end, t)} ::
        Tail(View().owned, View().base, View().end, t) ==> t == TopSize()
    {
      hide Owned, Tiled, Tagged, RoomFor, Tail;
      av.FlagTells();
      if av.top != 0 {
        av.TopThere();
        NothingFitsNoRoom(av.cs, av.head, av.foot, av.top, av.base, av.end, nb);
        TopIsTail(av.cs, av.head, av.foot, av.top, av.base, av.end);
        forall t: nat | Tail(View().owned, View().base, View().end, t)
          ensures t == TopSize()
        {
          OwnedInArena();
          TailIsOne(Owned(av.cs), av.base, av.end, t, TopSize());
        }
      } else {
        NoRoomAtAll(nb);
      }
    }

    /** Every arena has one tail. */
    lemma {:induction false} TheTail() returns (t: nat)
      requires av.Valid()
      ensures Tail(View().owned, View().base, View().end, t)
      ensures forall u: nat {:trigger Tail(View().owned, View().base, View().end, u)} ::
        Tail(View().owned, View().base, View().end, u) ==> u == t
    {
      hide Owned, Tiled, Tagged, Tail;
      if av.top == 0 {
        NoRoomAtAll(32);
        return 0;
      }
      t := TailExists(av.cs, av.head, av.foot, av.top, av.base, av.end);
      forall u: nat | Tail(View().owned, View().base, View().end, u)
        ensures u == t
      {
        OwnedInArena();
        TailIsOne(Owned(av.cs), av.base, av.end, u, t);
      }
    }

    static lemma NoRoomAtAll(nb: nat)
      ensures !RoomFor(map[], 0, 0, nb) && forall t: nat {:trigger Tail(map[], 0, 0, t)} :: Tail(map[], 0, 0, t) <==> t == 0
    {
    }

    lemma OwnedInArena()
      requires av.Valid() && av.top != 0
      ensures forall q {:trigger Owned(av.cs)[q]} :: q in Owned(av.cs) ==>
        av.base <= q && q + Owned(av.cs)[q] <= av.end && Owned(av.cs)[q] > 0
    {
      forall q | q in Owned(av.cs)
        ensures av.base <= q && q + Owned(av.cs)[q] <= av.end && Owned(av.cs)[q] > 0
      {
        av.ReadTags(av.cs, q);
      }
    }

    /** The outcome for the one tail there is. */
    static lemma OnlyTail(v: ArenaView, t: nat, nb: u64, r: Given, s: BreakView, m: MapView, exhausted: bool)
      requires ChunkSize(nb) && nb + MINSIZE < TWO64 && t < nb + MINSIZE && !RoomFor(v.owned, v.base, v.end, nb)
      requires nb >= TWO32 ==> !LaterGap(v.owned, v.base, nb)
      requires forall u: nat {:trigger Tail(v.owned, v.base, v.end, u)} :: Tail(v.owned, v.base, v.end, u) ==> u == t
      requires !r.Direct? ==> SystemOutcome(if r.Allocated? then Allocated(0) else r, MoreSize(nb, t), s, exhausted)
      requires r.Direct? ==> Mappable(nb, m)
      requires Mappable(nb, m) && m.spare && !r.Direct? ==> exhausted && !r.Allocated?
      ensures MallocOutcome(r, nb, v, s, m, exhausted)
    {
    }

    /** The search through the free chunks leaves the kernel alone. */
    method Search(nb: u64) returns (r: Search)
      requires Valid() && av.anyChunks && ChunkSize(nb) && nb + MINSIZE < TWO64
      modifies av
      ensures Valid() && (av.fastChunks ==> old(av.fastChunks))
      ensures r.Victim? ==> HasNew(Owned(old(av.cs)), Owned(av.cs), r.p, nb) && r.p != 0 && (av.FollowsUse(r.p) <==> !old(av.Recycled(nb)))
      ensures r.Nothing? ==> old(av.FastHead(nb)) == 0
      ensures !r.Victim? ==> Owned(av.cs) == Owned(old(av.cs))
      ensures r.Nothing? ==> NoneFits(av.cs, nb) && (av.fastChunks ==> nb < MIN_LARGE_SIZE)
      ensures r.TooSmall? ==> nb >= TWO32
      ensures if r.Victim? then RoomFor(old(View()).owned, old(View()).base, old(View()).end, nb) else View() == old(View())
      ensures nb < MIN_LARGE_SIZE ==>
        (if old(av.FastHead(nb)) != 0 then r == Victim(old(av.FastHead(nb)))
         else if old(av.Remaindered(nb)) then r == Victim(old(av.lastRemainder))
         else r.Victim? ==> BestFit(old(av.cs), r.p, nb))
      ensures nb < MIN_LARGE_SIZE && r.Nothing? ==> NoneFits(old(av.cs), nb)
      ensures nb >= MIN_LARGE_SIZE && r.Victim? ==> BestGap(old(View()).owned, old(View()).base, r.p, nb)
      ensures nb >= MIN_LARGE_SIZE && r.Nothing? ==> !SomeGapFits(old(View()).owned, old(View()).base, nb)
      ensures nb >= TWO32 ==> !r.Victim? && (r.TooSmall? <==> LaterGap(old(View()).owned, old(View()).base, nb))
    {
      hide Owned, KH.KernelHeap.Valid, NoneFits, BestGap, SomeGapFits, LaterGap, MallocState.ListsOk, Tiled, Tagged;
      ghost var none := av.top == 0;
      r := av.FromBins(nb);
      if none {
        NothingOwned();
        NoGaps(av.base, nb);
        NoGaps(0, nb);
      } else if r.Victim? {
        WasRoom(old(View()), r.p, nb);
      }
    }

    lemma NothingOwned()
      requires av.Valid() && av.top == 0
      ensures Owned(av.cs) == map[] && NoneFits(av.cs, 1)
    {
    }

    method ConsolidateAll()
      requires Valid() && av.anyChunks
      modifies av
      ensures Valid() && !av.fastChunks && Owned(av.cs) == Owned(old(av.cs)) && (av.top == 0 <==> old(av.top) == 0)
      ensures av.base == old(av.base) && av.end == old(av.end)
    {
      hide Owned, MallocState.Valid, KH.KernelHeap.Valid;
      av.Consolidate();
    }

    method GrowOrBackup(nb: u64) returns (r: Given)
      requires Valid() && ChunkSize(nb) && nb + MINSIZE < TWO64
      requires (av.top != 0 ==> av.top in av.head) && TopSize() < nb + MINSIZE
      modifies av, kernel, kernel.pma, kernel.mapper, kernel.vma, kernel.vma.pool.repr
      ensures Valid() && fresh(kernel.vma.pool.repr - old(kernel.vma.pool.repr))
      ensures kernel.vma.base == old(kernel.vma.base)
      ensures Owned(av.cs) == Owned(old(av.cs)) && av.fastChunks == old(av.fastChunks)
      ensures r == Allocated(0) || r.Null? || r.TopAtNull? || r.HeapEscaped?
      ensures r.Allocated? ==> av.top != 0 && av.top in av.head && TopSize() >= nb + MINSIZE
      ensures r.Null? ==> nb > LONG_MAX - 8192
      ensures SystemOutcome(r, MoreSize(nb, old(TopSize())), old(Break()), PM.Exhausted(kernel.pma.blocks))
      ensures PM.Exhausted(old(kernel.pma.blocks)) ==> !r.Allocated? && PM.Exhausted(kernel.pma.blocks)
    {
      hide Owned, MallocState.Valid, KH.KernelHeap.Valid;
      TopReads();
      var oldSize := TopSize();
      r := Grow(nb);
      if r.Null? {
        var useful := MapBackup(nb, MoreSize(nb, oldSize), oldSize);
      }
    }

    // ---------- free ----------

    lemma OwnedIs(p: nat)
      requires av.Valid() && p in Owned(av.cs)
      ensures p in av.cs && av.cs[p] == Chunk(Owned(av.cs)[p], InUse) && av.top != 0
      ensures p in av.head && SizeBits(av.head[p]) == av.cs[p].size && ChunkSize(av.cs[p].size)
      ensures p % 16 == 0 && p > 0 && p + av.cs[p].size < TWO64
    {
      av.ReadTags(av.cs, p);
    }

    /** A chunk goes back: to its fastbin if it is small, else consolidated.  The size is that of the
        consolidated chunk, 0 for a fastbin chunk. */
    method Release(p: nat) returns (size: nat)
      requires Valid() && p in Owned(av.cs)
      modifies av
      ensures Valid() && Owned(av.cs) == Owned(old(av.cs)) - {p} && av.top != 0
      ensures av.anyChunks && av.base == old(av.base) && av.end == old(av.end) && p in old(av.cs)
      ensures size == if old(av.cs)[p].size <= MAX_FAST then 0 else FreedRun(old(av.cs), p)
      ensures old(av.cs)[p].size <= MAX_FAST ==> av.FastHead(old(av.cs)[p].size) == p
    {
      OwnedIs(p);
      hide Owned, TagsOk, MallocState.ListsOk, KH.KernelHeap.Valid, Arena, Merged, MallocState.FastHead;
      size := SizeBits(av.head[p]);
      ghost var was := av.cs;
      if size <= MAX_FAST {
        av.FreeFast(p, size);
        OwnedReleased(was, p, Fast);
        size := 0;
      } else {
        size := ReleaseLarge(p);
      }
    }

    method ReleaseLarge(p: nat) returns (size: nat)
      requires Valid() && p in Owned(av.cs) && p in av.cs && av.cs[p].use.InUse? && av.top != 0
      modifies av
      ensures Valid() && Owned(av.cs) == Owned(old(av.cs)) - {p} && av.top != 0 && av.anyChunks
      ensures av.base == old(av.base) && av.end == old(av.end) && size == FreedRun(old(av.cs), p)
    {
      hide Owned, MallocState.ListsOk, KH.KernelHeap.Valid, Merged, FreedRun, Tiled, Tagged;
      ghost var was, head, foot := av.cs, av.head, av.foot;
      MarkAny();
      var a;
      size, a := av.Coalesce(p);
      OwnedMerged(was, av.cs, av.end, p, a, size);
      MergedIsFreedRun(was, av.cs, av.base, av.end, head, foot, av.head, av.foot, p, a, size);
    }

    static lemma OwnedReleased(cs: Chunks, p: nat, u: Use)
      requires p in cs && cs[p].use.InUse? && !u.InUse?
      ensures Owned(cs[p := Chunk(cs[p].size, u)]) == Owned(cs) - {p}
    {
    }

    /** `set_anychunks`. */
    method MarkAny()
      requires av.Valid()
      modifies av`anyChunks
      ensures av.Valid() && av.anyChunks
    {
      av.anyChunks := true;
    }

    /** `sYSTRIm`: the end of memory is where the arena ends, so `sbrk` is asked to give memory back. */
    method Trim() returns (halted: bool)
      requires Valid() && av.top != 0 && av.top in av.head && TopSize() >= TRIM_THRESHOLD
      modifies kernel`backing, kernel`log, kernel`topPage, kernel`topKnown, kernel`heapTop, kernel.pma, kernel.mapper
      ensures Valid() && halted && kernel.log == old(kernel.log)
    {
      hide MallocState.Valid, KH.KernelHeap.Sane, KH.KernelHeap.HistoryOk, PM.Exhausted, TagsOk;
      kernel.PartsDiffer();
      var size := TopSize();
      TopReads();
      var extra := ((size - MINSIZE + 4095) / 4096 - 1) * 4096;
      halted := false;
      if extra > 0 {
        var current := kernel.Sbrk(0);
        if current.Break? && current.addr == av.top + size {
          kernel.PartsDiffer();
          var shrunk := kernel.Sbrk(-extra);
          halted := shrunk.Halted?;
        }
      }
      assert kernel.log == old(kernel.log);
    }

    /** `free` of a chunk of the arena.  It halts the machine exactly if the chunk is none for a fastbin, makes
        128 KiB or more of free memory in one piece, and nothing else is in use in the last 256 KiB of the arena:
        then it would give memory back, and the kernel's `sbrk` cannot shrink. */
    method FreeChunk(mem: nat) returns (halted: bool)
      requires Valid() && (mem != 0 ==> mem > 16 && mem - 16 in Owned(av.cs))
      modifies av, kernel, kernel.pma, kernel.mapper, kernel.vma, kernel.vma.pool.repr
      ensures Valid() && kernel.log == old(kernel.log) && kernel.vma.pool.repr == old(kernel.vma.pool.repr) && data == old(data)
      ensures Owned(av.cs) == if mem == 0 then Owned(old(av.cs)) else Owned(old(av.cs)) - {mem - 16}
      ensures mem != 0 ==> av.top != 0 && av.top in av.head
      ensures av.base == old(av.base) && av.end == old(av.end)
      ensures halted <==> mem != 0 && FreeTrims(old(av.cs), old(av.base), old(av.end), mem - 16)
      ensures mem != 0 && Owned(old(av.cs))[mem - 16] <= MAX_FAST ==> av.FastHead(Owned(old(av.cs))[mem - 16]) == mem - 16
    {
      hide MallocState.FastHead;
      hide Owned, MallocState.Valid, KH.KernelHeap.Valid, Arena, FreedRun, LastBytesUnused;
      halted := false;
      if mem == 0 {
        return;
      }
      var p := mem - 16;
      OwnedIs(p);
      var size := Release(p);
      TopReads();
      if size >= CONSOLIDATION_THRESHOLD {
        if av.fastChunks {
          ConsolidateAll();
          TopReads();
        }
        TopSizeIs(old(av.cs), p);
        if TopSize() >= TRIM_THRESHOLD {
          halted := Trim();
        }
      }
    }

    /** `free` of anything a caller holds.  A region mapped for one request always halts the machine: `munmap`
        is not implemented. */
    method Free(mem: nat) returns (halted: bool)
      requires Valid() && (mem != 0 ==> mem > 16 && (mem - 16 in Owned(av.cs) || mem - 16 in mapped))
      modifies av, kernel, kernel.pma, kernel.mapper, kernel.vma, kernel.vma.pool.repr
      ensures Valid() && kernel.log == old(kernel.log) && kernel.vma.pool.repr == old(kernel.vma.pool.repr)
      ensures Owned(av.cs) == if mem == 0 then Owned(old(av.cs)) else Owned(old(av.cs)) - {mem - 16}
      ensures halted <==> mem != 0 && (mem - 16 in mapped || FreeTrims(old(av.cs), old(av.base), old(av.end), mem - 16))
      // A small chunk is what the next small request of its size gets.
      ensures mem != 0 && mem - 16 in Owned(old(av.cs)) && Owned(old(av.cs))[mem - 16] <= MAX_FAST ==>
        av.FastHead(Owned(old(av.cs))[mem - 16]) == mem - 16
    {
      hide MallocState.Valid, KH.KernelHeap.Valid, Arena, FreeTrims, TagsOk;
      if mem != 0 && mem - 16 in mapped {
        // The size is none for a fastbin; the tag says that the chunk is mapped.
        MappedNotOwned(mem - 16);
        return true;
      }
      halted := FreeChunk(mem);
    }

    /** The chunks mapped for one request are none of the arena's. */
    lemma {:induction false} MappedNotOwned(p: nat)
      requires Valid() && p in mapped
      ensures p !in Owned(av.cs) && mapped[p].size > MAX_FAST && TagOk(p, mapped[p], kernel.log, kernel.vma.base)
    {
      hide MallocState.Valid, KH.KernelHeap.Valid, Owned;
      assert TagOk(p, mapped[p], kernel.log, kernel.vma.base);
      var i: nat :| InRegion(p, mapped[p], kernel.log, kernel.vma.base, i);
      if p in Owned(av.cs) {
        OwnedIs(p);
        HeldBytesDiffer(Payload(p), Region(i), p + 16, p + 16);
        assert false;
      }
    }

    /** With empty fastbins, the size of the top chunk after chunk p was released. */
    lemma {:induction false} TopSizeIs(was: Chunks, p: nat)
      requires av.Valid() && av.top != 0 && av.top in av.head && !av.fastChunks && p in was && Owned(av.cs) == Owned(was) - {p}
      ensures TopSize() >= TRIM_THRESHOLD <==> LastBytesUnused(was, av.base, av.end, p, TRIM_THRESHOLD)
    {
      hide Owned, LastBytesUnused, Tiled, Tagged;
      av.ReadTags(av.cs, av.top);
      av.FlagTells();
      SameUseSameLastBytes(was, av.cs, av.base, av.end, p, TRIM_THRESHOLD);
      TopFollowsUse(av.cs, av.base, av.end, av.head, av.foot, av.top, p, TRIM_THRESHOLD);
    }

    // ---------- realloc ----------

    /** Copy the words at s to d: unrolled for up to 9 words, `memcpy` for more.  A chunk of 16j bytes has
        2j - 1 words of contents, an odd number from 3 up, so the unrolled form, too, copies all of them. */
    method CopyWords(d: nat, s: nat, copysize: nat)
      requires copysize % 16 == 8 && copysize >= 24 && (d + copysize <= s || s + copysize <= d)
      modifies this`data
      ensures Copied(old(data), data, d, s, copysize / 8)
    {
      var n := copysize / 8;
      OddWords(copysize);
      ghost var was := data;
      if n > 9 {
        CopyAll(d, s, n);
      } else {
        CopyWord(d, s, 0, was);
        CopyWord(d, s, 1, was);
        CopyWord(d, s, 2, was);
        if n > 4 {
          CopyWord(d, s, 3, was);
          CopyWord(d, s, 4, was);
          if n > 6 {
            CopyWord(d, s, 5, was);
            CopyWord(d, s, 6, was);
            if n > 8 {
              CopyWord(d, s, 7, was);
              CopyWord(d, s, 8, was);
            }
          }
        }
      }
    }

    /** `memcpy` of n words. */
    method CopyAll(d: nat, s: nat, n: nat)
      requires d + 8 * n <= s || s + 8 * n <= d
      modifies this`data
      ensures Copied(old(data), data, d, s, n)
    {
      ghost var was := data;
      for k := 0 to n
        invariant Copied(was, data, d, s, k)
      {
        CopyWord(d, s, k, was);
      }
    }

    static lemma {:induction false} OddWords(copysize: nat)
      requires copysize % 16 == 8
      ensures copysize / 8 % 2 == 1 && copysize == 8 * (copysize / 8)
    {
      var q := copysize / 16;
      assert copysize == 8 * (2 * q + 1);
    }

    method CopyWord(d: nat, s: nat, k: nat, ghost was: map<nat, nat>)
      requires Copied(was, data, d, s, k) && (d + 8 * k + 8 <= s || s + 8 * k + 8 <= d)
      modifies this`data
      ensures Copied(was, data, d, s, k + 1)
    {
      ghost var m := data;
      data := data[d + 8 * k := Word(data, s + 8 * k)];
      forall j: nat | j < k + 1
        ensures MovedWord(was, data, d, s, j)
      {
        assert j < k ==> MovedWord(was, m, d, s, j);
      }
      forall a: nat | !(d <= a < d + 8 * (k + 1))
        ensures Word(data, a) == Word(was, a)
      {
        assert Word(m, a) == Word(was, a);
      }
    }

    /** The chunks that begin in [p, e). */
    static ghost function Run(cs: Chunks, p: nat, e: nat): set<nat> {
      set q | q in cs && p <= q < e
    }

    /** State in the middle of `realloc`: the run [p, p + size) is held, the arena is as in `was`. */
    ghost predicate Holding(was: Chunks, p: nat, size: nat)
      reads this`mapped, this`nMmaps, av, kernel, kernel.vma, kernel.vma.pool, kernel.vma.pool.freeStack, kernel.vma.pool.live
      reads kernel.vma.spine, kernel.pma, kernel.mapper
    {
      && av.ArenaOn(was) && av.ListsOk() && av.top != 0 && p in was && p + size in was && Held(was, av.cs, av.end, p, p + size)
      && kernel.Valid() && Joined() && TagsOk(mapped, kernel.log, kernel.vma.base) && nMmaps == |mapped|
      && this !in kernel.vma.pool.repr && av !in kernel.vma.pool.repr
    }

    method SettleWhole(p: nat, size: nat, ghost was: Chunks)
      requires Holding(was, p, size)
      modifies av
      ensures Valid() && Owned(av.cs) == (Owned(was) - Run(was, p, p + size))[p := size]
      ensures av.base == old(av.base) && av.end == old(av.end)
    {
      hide Owned, MallocState.ListsOk, KH.KernelHeap.Valid, Arena, Fuse;
      assert size > 0;
      OwnedFused(was, p, p + size);
      av.SettleWhole(p, size, was);
    }

    static lemma FuseHead(was: Chunks, p: nat, e: nat)
      requires p <= e
      ensures p in Fuse(was, p, e, InUse) && Fuse(was, p, e, InUse)[p] == Chunk(e - p, InUse)
    {
    }

    static lemma OwnedFused(was: Chunks, p: nat, e: nat)
      requires p in was && p < e
      ensures Owned(Fuse(was, p, e, InUse)) == (Owned(was) - Run(was, p, e))[p := e - p]
    {
    }

    method SettleSplit(p: nat, size: nat, nb: u64, ghost was: Chunks) returns (rest: nat)
      requires Holding(was, p, size) && ChunkSize(nb) && nb + MINSIZE <= size
      modifies av
      ensures Valid() && rest == p + nb && rest > 0 && rest in Owned(av.cs) && p in Owned(av.cs) && Owned(av.cs)[p] == nb
      ensures Owned(av.cs) - {rest} == (Owned(was) - Run(was, p, p + size))[p := nb]
      ensures p in Fuse(was, p, p + size, InUse) && av.cs == Cut(Fuse(was, p, p + size, InUse), p, nb, InUse, InUse)
      ensures av.base == old(av.base) && av.end == old(av.end) && av.top != 0
    {
      hide Owned, MallocState.ListsOk, KH.KernelHeap.Valid, Arena, Held, Fuse, Cut;
      OwnedFused(was, p, p + size);
      FuseHead(was, p, p + size);
      av.SettleSplit(p, size, nb, was);
      OwnedCut(Fuse(was, p, p + size, InUse), p, nb);
      rest := p + nb;
    }

    static lemma OwnedCut(cs: Chunks, p: nat, nb: nat)
      requires p in cs && cs[p].use.InUse? && 0 < nb <= cs[p].size && p + nb !in cs
      ensures var t := Cut(cs, p, nb, InUse, InUse);
        && p in Owned(t) && Owned(t)[p] == nb && p + nb in Owned(t) && Owned(t)[p + nb] == cs[p].size - nb
        && Owned(t) - {p + nb} == Owned(cs)[p := nb]
    {
    }

    /** "If possible, free extra space": the held run becomes one chunk, or one of nb bytes and a free rest. */
    method Settle(p: nat, size: nat, nb: u64, ghost was: Chunks) returns (halted: bool)
      requires Holding(was, p, size) && ChunkSize(nb) && nb <= size
      modifies av, kernel, kernel.pma, kernel.mapper, kernel.vma, kernel.vma.pool.repr
      ensures Valid() && data == old(data) && kernel.vma.pool.repr == old(kernel.vma.pool.repr)
      ensures p in Owned(av.cs) && nb <= Owned(av.cs)[p] < nb + MINSIZE
      ensures Owned(av.cs) == (Owned(was) - Run(was, p, p + size))[p := Owned(av.cs)[p]]
      ensures halted <==> RestTrims(was, old(av.end), p, p + size, nb)
      ensures av.base == old(av.base) && av.end == old(av.end)
    {
      hide Owned, Holding, Run, KH.KernelHeap.Valid, MallocState.Valid, FreeTrims, RestTrims, Fuse, Cut;
      halted := false;
      if size - nb < MINSIZE {
        SettleWhole(p, size, was);
        SmallRestStays(was, av.end, p, p + size, nb);
      } else {
        var rest := SettleSplit(p, size, nb, was);
        RestFreed(p, size, nb, was);
        halted := FreeChunk(rest + 16);
      }
    }

    static lemma SmallRestStays(cs: Chunks, end: nat, p: nat, e: nat, nb: nat)
      requires e < p + nb + MINSIZE
      ensures !RestTrims(cs, end, p, e, nb)
    {
    }

    lemma RestFreed(p: nat, size: nat, nb: nat, was: Chunks)
      requires av.Valid() && av.top != 0 && 0 < nb < size && p in Fuse(was, p, p + size, InUse)
      requires av.cs == Cut(Fuse(was, p, p + size, InUse), p, nb, InUse, InUse)
      ensures p + nb in av.cs && (FreeTrims(av.cs, av.base, av.end, p + nb) <==> RestTrims(was, av.end, p, p + size, nb))
    {
      hide Tiled, Tagged, FreeTrims, RestTrims;
      RestIsFreed(was, av.base, av.end, p, p + size, nb);
    }

    /** A chunk in use can be held by itself, with the free chunk behind it, or with another chunk in use there. */
    lemma HoldSelf(p: nat)
      requires Valid() && p in Owned(av.cs)
      ensures p in av.cs && Holding(av.cs, p, Owned(av.cs)[p]) && Run(av.cs, p, p + Owned(av.cs)[p]) == {p}
    {
      OwnedIs(p);
      av.ReadTags(av.cs, p);
      HoldOne(av.cs, av.base, av.end, p);
      RunOfOne(p);
    }

    lemma RunOfOne(p: nat)
      requires av.Valid() && av.top != 0 && p in av.cs
      ensures Run(av.cs, p, p + av.cs[p].size) == {p}
    {
      assert ChunkOk(av.cs, av.base, av.end, p);
      forall q | q in av.cs && p < q
        ensures p + av.cs[p].size <= q
      {
        assert Before(av.cs, p, q);
      }
    }

    lemma RunOfTwo(p: nat, n: nat)
      requires av.Valid() && av.top != 0 && p in av.cs && n in av.cs && n == p + av.cs[p].size
      ensures Run(av.cs, p, n + av.cs[n].size) == {p, n}
    {
      RunOfOne(p);
      RunOfOne(n);
      assert forall q :: q in Run(av.cs, p, n + av.cs[n].size) <==> q in Run(av.cs, p, n) || q in Run(av.cs, n, n + av.cs[n].size);
    }

    static lemma OwnedWithout(was: Chunks, p: nat, next: nat)
      requires next in was && !was[next].use.InUse?
      ensures Owned(was) - {p, next} == Owned(was) - {p}
    {
    }

    /** Grow into the free chunk behind. */
    method JoinBehind(p: nat, next: nat, ghost was: Chunks)
      requires Valid() && p in Owned(av.cs) && was == av.cs && next == p + Owned(av.cs)[p] && next in was && HC.Free(was[next].use)
      modifies av
      ensures next in was && Holding(was, p, next + was[next].size - p)
      ensures Owned(was) - Run(was, p, next + was[next].size) == Owned(was) - {p}
      ensures av.base == old(av.base) && av.end == old(av.end)
    {
      hide Owned, Run, MallocState.ListsOk, KH.KernelHeap.Valid, Arena;
      OwnedIs(p);
      RunOfTwo(p, next);
      av.ReadTags(was, next);
      OwnedWithout(was, p, next);
      av.HoldBehind(p, next, was);
    }

    /** What `realloc` of the chunk p0 did to the callers' chunks: p0 became a chunk of nb to nb + 31 bytes, there or
        elsewhere; it was exchanged for a mapped region; or nothing happened. */
    static ghost predicate Exchanged(was: map<nat, nat>, now: map<nat, nat>, r: Given, p0: nat, nb: nat) {
      if r.Allocated? then
        var q := r.mem - 16;
        r.mem > 16 && q % 16 == 0 && (q == p0 || q !in was) && q in now && nb <= now[q] < nb + MINSIZE && now == (was - {p0})[q := now[q]]
      else if r.Direct? then now == was - {p0}
      else now == was
    }

    static lemma InPlace(was: map<nat, nat>, now: map<nat, nat>, p: nat, nb: nat)
      requires p % 16 == 0 && p > 0 && p in now && nb <= now[p] < nb + MINSIZE && now == (was - {p})[p := now[p]]
      ensures Exchanged(was, now, Allocated(p + 16), p, nb)
    {
    }

    /** Growing or shrinking without moving.  `done` is false if the chunk cannot grow where it is. */
    method ReallocInPlace(p: nat, nb: u64) returns (done: bool, halted: bool)
      requires Valid() && p in Owned(av.cs) && ChunkSize(nb) && nb + MINSIZE < TWO64
      modifies av, kernel, kernel.pma, kernel.mapper, kernel.vma, kernel.vma.pool.repr
      ensures Valid() && data == old(data) && kernel.vma.pool.repr == old(kernel.vma.pool.repr)
      ensures done ==> Exchanged(Owned(old(av.cs)), Owned(av.cs), Allocated(p + 16), p, nb)
      ensures !done ==> !halted && av.cs == old(av.cs) && nb > Owned(old(av.cs))[p] && kernel.log == old(kernel.log)
      ensures p in old(av.cs) && (done <==> !WayOf(old(av.cs), p, nb).Move?)
      ensures done <==> FitsInPlace(old(av.cs), old(av.end), p, nb)
      ensures halted <==> InPlaceTrims(old(av.cs), old(av.end), p, nb)
      ensures !done ==> View() == old(View()) && Break() == old(Break()) && Maps() == old(Maps())
    {
      hide Owned, Holding, Run, KH.KernelHeap.Valid, MallocState.Valid, MallocState.ListsOk, Arena, Exchanged, Joined, RestTrims, FitsInPlace;
      InPlaceIff(p, nb);
      OwnedIs(p);
      HoldSelf(p);
      TopReads();
      halted := false;
      done := true;
      ghost var was := av.cs;
      var oldsize := SizeBits(av.head[p]);
      if oldsize >= nb {
        halted := Settle(p, oldsize, nb, was);
        InPlace(Owned(was), Owned(av.cs), p, nb);
        return;
      }
      var next := p + oldsize;
      if next == av.top {
        if oldsize + TopSize() >= nb + MINSIZE {
          GrowIntoTop(p, nb);
        } else {
          done := false;
        }
      } else {
        done, halted := GrowIntoNext(p, next, nb, was);
      }
    }

    lemma InPlaceIff(p: nat, nb: nat)
      requires av.Valid() && p in Owned(av.cs)
      ensures p in av.cs && (!WayOf(av.cs, p, nb).Move? <==> FitsInPlace(av.cs, av.end, p, nb))
    {
      hide Tiled, Tagged, WayOf, FitsInPlace;
      OwnedIs(p);
      StaysIff(av.cs, av.base, av.end, av.head, av.foot, p, nb);
    }

    method GrowIntoTop(p: nat, nb: u64)
      requires Valid() && p in Owned(av.cs) && av.top != 0 && av.top == p + Owned(av.cs)[p] && ChunkSize(nb)
      requires Owned(av.cs)[p] < nb && av.top in av.head && Owned(av.cs)[p] + TopSize() >= nb + MINSIZE
      modifies av
      ensures Valid() && Exchanged(Owned(old(av.cs)), Owned(av.cs), Allocated(p + 16), p, nb)
    {
      hide Owned, MallocState.ListsOk, KH.KernelHeap.Valid, Arena, MoveTop;
      OwnedIs(p);
      TopReads();
      OwnedMoved(p, nb);
      av.GrowOverTop(p, nb);
    }

    lemma OwnedMoved(p: nat, nb: nat)
      requires av.Valid() && p in Owned(av.cs) && av.top in av.cs && av.cs[av.top].use.Top? && p + nb <= av.end
      requires Owned(av.cs)[p] < nb && av.top == p + Owned(av.cs)[p]
      ensures Owned(MoveTop(av.cs, p, av.top, nb, av.end)) == Owned(av.cs)[p := nb]
    {
      TopIsLast(av.cs, av.base, av.end, av.top);
    }

    /** What the words say of the chunk behind p, if that is not the top chunk. */
    lemma ReadNext(p: nat, next: nat)
      requires av.Valid() && p in Owned(av.cs) && next == p + Owned(av.cs)[p] && next != av.top
      ensures next in av.cs && next in av.head && SizeBits(av.head[next]) == av.cs[next].size > 0 && p % 16 == 0 && p > 0
      ensures var n := next + av.cs[next].size; n in av.head && (PrevInUse(av.head[n]) <==> !HC.Free(av.cs[next].use))
      ensures !av.cs[next].use.Top? && av.cs[p].size == Owned(av.cs)[p]
    {
      OwnedIs(p);
      av.ReadTags(av.cs, p);
      av.ReadTags(av.cs, next);
      av.ReadTags(av.cs, next + av.cs[next].size);
    }

    method GrowIntoNext(p: nat, next: nat, nb: u64, ghost was: Chunks) returns (done: bool, halted: bool)
      requires Valid() && p in Owned(av.cs) && was == av.cs && next == p + Owned(av.cs)[p] && next != av.top && ChunkSize(nb)
      requires nb > Owned(av.cs)[p]
      modifies av, kernel, kernel.pma, kernel.mapper, kernel.vma, kernel.vma.pool.repr
      ensures Valid() && data == old(data) && kernel.vma.pool.repr == old(kernel.vma.pool.repr)
      ensures done ==> Exchanged(Owned(was), Owned(av.cs), Allocated(p + 16), p, nb)
      ensures !done ==> !halted && av.cs == was && kernel.log == old(kernel.log)
      ensures p in was && (done <==> !WayOf(was, p, nb).Move?) && (halted <==> InPlaceTrims(was, old(av.end), p, nb))
      ensures !done ==> View() == old(View()) && Break() == old(Break()) && Maps() == old(Maps())
    {
      ReadNext(p, next);
      hide Owned, Holding, Run, KH.KernelHeap.Valid, MallocState.Valid, MallocState.ListsOk, Arena, Exchanged, Joined, RestTrims;
      done, halted := false, false;
      var nextsize := SizeBits(av.head[next]);
      if !PrevInUse(av.head[next + nextsize]) && next - p + nextsize >= nb {
        halted := AbsorbNext(p, next, next - p + nextsize, nb, was);
        done := true;
      }
    }

    method AbsorbNext(p: nat, next: nat, size: nat, nb: u64, ghost was: Chunks) returns (halted: bool)
      requires Valid() && p in Owned(av.cs) && was == av.cs && next == p + Owned(av.cs)[p] && next in was && HC.Free(was[next].use)
      requires size == next + was[next].size - p && ChunkSize(nb) && nb <= size && p > 0 && p % 16 == 0
      modifies av, kernel, kernel.pma, kernel.mapper, kernel.vma, kernel.vma.pool.repr
      ensures Valid() && data == old(data) && kernel.vma.pool.repr == old(kernel.vma.pool.repr)
      ensures Exchanged(Owned(was), Owned(av.cs), Allocated(p + 16), p, nb)
      ensures halted <==> RestTrims(was, old(av.end), p, p + size, nb)
    {
      hide Owned, Holding, Run, KH.KernelHeap.Valid, MallocState.Valid, MallocState.ListsOk, Arena, Exchanged;
      JoinBehind(p, next, was);
      halted := Settle(p, size, nb, was);
      InPlace(Owned(was), Owned(av.cs), p, nb);
    }

    /** The first n words of the caller's data are at d now. */
    static ghost predicate ContentsKept(m: map<nat, nat>, m': map<nat, nat>, d: nat, s: nat, n: nat) {
      forall k: nat {:trigger MovedWord(m, m', d, s, k)} :: k < n ==> MovedWord(m, m', d, s, k)
    }

    /** Two chunks in use do not overlap, so the contents of the smaller fit beside each other. */
    lemma {:induction false} ChunksApart(p: nat, q: nat)
      requires av.Valid() && p in Owned(av.cs) && q in Owned(av.cs) && p != q && Owned(av.cs)[p] < Owned(av.cs)[q]
      ensures Owned(av.cs)[p] >= 32 && var n: nat := Owned(av.cs)[p] - 8; n % 16 == 8 && (q + 16 + n <= p + 16 || p + 16 + n <= q + 16)
    {
      OwnedIs(p);
      OwnedIs(q);
      assert p < q ==> Before(av.cs, p, q);
      assert q < p ==> Before(av.cs, q, p);
      var a, b := av.cs[p].size, av.cs[q].size;
      assert a == 16 * (a / 16) && b == 16 * (b / 16);
      DivModUnique(a - 8, 16, a / 16 - 1, 8);
    }

    /** A region mapped for one request lies outside the arena. */
    lemma {:induction false} RegionApart(p: nat, mem: nat, nb: nat, was: seq<KH.Range>)
      requires Valid() && p in Owned(av.cs) && MappedFor(mem, nb, was) && Owned(av.cs)[p] < nb
      ensures Owned(av.cs)[p] >= 32 && var n: nat := Owned(av.cs)[p] - 8; n % 16 == 8 && (mem + n <= p + 16 || p + 16 + n <= mem)
    {
      OwnedIs(p);
      av.ReadTags(av.cs, p);
      var a := av.cs[p].size;
      assert a == 16 * (a / 16);
      DivModUnique(a - 8, 16, a / 16 - 1, 8);
      RegionBesideHeap(mem, nb, was);
    }

    static lemma LaterIsElsewhere(log: seq<KH.Range>, i: nat, j: nat, q: nat)
      requires KH.Separated(log) && i < j < |log| && log[i].Has(q)
      ensures !log[j].Has(q)
    {
    }

    lemma {:induction false} RegionBesideHeap(mem: nat, nb: nat, was: seq<KH.Range>)
      requires Valid() && av.top != 0 && MappedFor(mem, nb, was)
      ensures mem + nb - 8 <= av.base || av.end <= mem - 16
    {
      var k := |was|;
      var g := kernel.log[k];
      var lo, hi := kernel.heapPage, kernel.topPage;
      assert kernel.log[..k] == was && kernel.log[..|kernel.log| - 1] == was;
      if lo < g.page + g.n && g.page < hi {
        var q := if lo < g.page then g.page else lo;
        KH.ConsecutiveCovers(was, lo, hi, q);
        var i :| 0 <= i < |was| && was[i].Has(q);
        LaterIsElsewhere(kernel.log, i, k, q);
        assert false;
      }
    }

    /** "Allocate, copy, free", unless the new chunk turns out to lie right behind the old one.  `mid` is the arena
        in between. */
    method ReallocMove(p: nat, nb: u64) returns (r: Given, halted: bool, ghost mid: Chunks)
      requires Valid() && p in Owned(av.cs) && ChunkSize(nb) && nb + MINSIZE < TWO64 && Owned(av.cs)[p] < nb
      modifies this`nMmaps, this`mapped, this`data, av, kernel, kernel.pma, kernel.mapper, kernel.vma, kernel.vma.pool.repr
      ensures Valid() && fresh(kernel.vma.pool.repr - old(kernel.vma.pool.repr))
      ensures Exchanged(Owned(old(av.cs)), Owned(av.cs), r, p, nb)
      ensures MappedNew(old(mapped), mapped, r, nb)
      ensures r.Allocated? || r.Direct? ==>
        Owned(old(av.cs))[p] >= 8 && ContentsKept(old(data), data, r.mem, p + 16, (Owned(old(av.cs))[p] - 8) / 8)
      ensures RequestOutcome(r, false, nb - MALLOC_ALIGN_MASK, old(View()), old(Break()), old(Maps()), PM.Exhausted(kernel.pma.blocks))
      ensures HeldBetween(Owned(old(av.cs)), Owned(mid), p, nb, r)
      ensures p in mid && (halted <==> Serves(r) && MoveTrims(mid, av.base, av.end, p, nb, r))
    {
      hide Owned, Holding, Run, KH.KernelHeap.Valid, MallocState.Valid, MallocState.ListsOk, Arena, Copied, MappedFor;
      hide MallocOutcome, FreeTrims, RestTrims, PM.Exhausted, TagsOk;
      halted := false;
      ghost var was0, v, s, m := Owned(av.cs), View(), Break(), Maps();
      r := AskAgain(nb);
      mid := av.cs;
      OwnedIs(p);
      ghost var i, full := r, PM.Exhausted(kernel.pma.blocks);
      if r.Direct? {
        RegionApart(p, r.mem, nb, old(kernel.log));
        halted := CopyAndFree(p, r.mem);
        StillServed(r, i, nb - MALLOC_ALIGN_MASK, v, s, m, full, PM.Exhausted(kernel.pma.blocks));
        return;
      }
      if !r.Allocated? {
        return;
      }
      var q := r.mem - 16;
      OwnedIs(q);
      var oldsize, newsize := SizeBits(av.head[p]), SizeBits(av.head[q]);
      if q == p + oldsize {
        halted := JoinNew(p, q, oldsize + newsize, nb, was0);
        r := Allocated(p + 16);
      } else {
        ChunksApart(p, q);
        halted := CopyAndFree(p, r.mem);
      }
      StillServed(r, i, nb - MALLOC_ALIGN_MASK, v, s, m, full, PM.Exhausted(kernel.pma.blocks));
    }

    /** What was served stays so, wherever the memory is, and whatever frames are left by now. */
    static lemma StillServed(r: Given, i: Given, bytes: u64, v: ArenaView, s: BreakView, m: MapView, e: bool, exhausted: bool)
      requires RequestOutcome(i, false, bytes, v, s, m, e)
      requires (i.Allocated? && r.Allocated?) || (i.Direct? && r.Direct?)
      ensures RequestOutcome(r, false, bytes, v, s, m, exhausted)
    {
    }

    /** The nested `malloc` asks for a chunk of the same normalised size. */
    method AskAgain(nb: u64) returns (r: Given)
      requires Valid() && ChunkSize(nb) && nb + MINSIZE < TWO64
      modifies this`nMmaps, this`mapped, av, kernel, kernel.pma, kernel.mapper, kernel.vma, kernel.vma.pool.repr
      ensures Valid() && fresh(kernel.vma.pool.repr - old(kernel.vma.pool.repr)) && data == old(data)
      ensures kernel.vma.base == old(kernel.vma.base)
      ensures Served(Owned(old(av.cs)), Owned(av.cs), r, nb)
      ensures MappedNew(old(mapped), mapped, r, nb)
      ensures r.Direct? ==> r.mem % 16 == 0 && MappedFor(r.mem, nb, old(kernel.log))
      ensures RequestOutcome(r, false, nb - MALLOC_ALIGN_MASK, old(View()), old(Break()), old(Maps()), PM.Exhausted(kernel.pma.blocks))
      ensures !r.Wrapped?
    {
      hide Owned, KH.KernelHeap.Valid, MallocState.Valid, MappedFor, PM.Exhausted;
      if nb < TWO64 - 48 {
        RequestOfSize(nb);
      } else {
        assert OutOfRange(nb - MALLOC_ALIGN_MASK);
      }
      r := Malloc(nb - MALLOC_ALIGN_MASK);
    }

    static lemma CopiedIsKept(m: map<nat, nat>, m': map<nat, nat>, d: nat, s: nat, n: nat)
      requires Copied(m, m', d, s, n)
      ensures ContentsKept(m, m', d, s, n)
    {
    }

    method CopyAndFree(p: nat, mem: nat) returns (halted: bool)
      requires Valid() && p in Owned(av.cs) && p > 0 && Owned(av.cs)[p] >= 32
      requires var n: nat := Owned(av.cs)[p] - 8; n % 16 == 8 && (mem + n <= p + 16 || p + 16 + n <= mem)
      modifies this`data, av, kernel, kernel.pma, kernel.mapper, kernel.vma, kernel.vma.pool.repr
      ensures Valid() && kernel.vma.pool.repr == old(kernel.vma.pool.repr)
      ensures Owned(av.cs) == Owned(old(av.cs)) - {p}
      ensures ContentsKept(old(data), data, mem, p + 16, (Owned(old(av.cs))[p] - 8) / 8)
      ensures p in old(av.cs) && (halted <==> FreeTrims(old(av.cs), av.base, av.end, p))
    {
      OwnedIs(p);
      hide Owned, KH.KernelHeap.Valid, MallocState.Valid, Valid, FreeTrims, Copied, ContentsKept;
      CopyWords(mem, p + 16, SizeBits(av.head[p]) - SIZE_SZ);
      CopiedIsKept(old(data), data, mem, p + 16, (SizeBits(av.head[p]) - SIZE_SZ) / 8);
      halted := FreeChunk(p + 16);
    }

    /** The new chunk q lies right behind p: together they are the grown chunk, and nothing is copied. */
    method JoinNew(p: nat, q: nat, size: nat, nb: u64, ghost was0: map<nat, nat>) returns (halted: bool)
      requires Valid() && p in was0 && HasNew(was0, Owned(av.cs), q, nb) && p in Owned(av.cs) && ChunkSize(nb)
      requires q == p + Owned(av.cs)[p] && size == Owned(av.cs)[p] + Owned(av.cs)[q]
      modifies av, kernel, kernel.pma, kernel.mapper, kernel.vma, kernel.vma.pool.repr
      ensures Valid() && data == old(data) && kernel.vma.pool.repr == old(kernel.vma.pool.repr)
      ensures Exchanged(was0, Owned(av.cs), Allocated(p + 16), p, nb)
      ensures q in old(av.cs) && (halted <==> RestTrims(old(av.cs), av.end, p, q + old(av.cs)[q].size, nb))
      ensures av.base == old(av.base) && av.end == old(av.end)
    {
      hide Owned, Holding, Run, KH.KernelHeap.Valid, MallocState.Valid, MallocState.ListsOk, Arena, Joined, Exchanged;
      ghost var was := av.cs;
      OwnedIs(p);
      OwnedIs(q);
      RunOfTwo(p, q);
      HoldTwo(p, q);
      halted := Settle(p, size, nb, was);
      assert Owned(was) - {p, q} == was0 - {p};
      InPlace(was0, Owned(av.cs), p, nb);
    }

    lemma HoldTwo(p: nat, q: nat)
      requires Valid() && p in Owned(av.cs) && q in Owned(av.cs) && q == p + Owned(av.cs)[p]
      ensures Holding(av.cs, p, Owned(av.cs)[p] + Owned(av.cs)[q])
    {
      OwnedIs(p);
      OwnedIs(q);
      HoldSelf(p);
      av.ReadTags(av.cs, q);
      HoldNext(av.cs, av.cs, av.base, av.end, p, q);
      assert av.cs[q := Chunk(av.cs[q].size, InUse)] == av.cs;
    }

    /** `realloc` of a region mapped for one request: it stays if the request fits.  Otherwise it is copied and
        freed, and that halts the machine. */
    method ReallocMapped(p: nat, nb: u64) returns (r: Given, halted: bool)
      requires Valid() && p > 0 && p in mapped && ChunkSize(nb) && nb + MINSIZE < TWO64
      modifies this`nMmaps, this`mapped, this`data, av, kernel, kernel.pma, kernel.mapper, kernel.vma, kernel.vma.pool.repr
      ensures Valid() && fresh(kernel.vma.pool.repr - old(kernel.vma.pool.repr))
      ensures nb + SIZE_SZ <= old(mapped)[p].size ==> r == Direct(p + 16) && !halted
      ensures nb + SIZE_SZ <= old(mapped)[p].size ==> mapped == old(mapped) && data == old(data) && Owned(av.cs) == Owned(old(av.cs))
      ensures old(mapped)[p].size < nb + SIZE_SZ ==>
        (halted <==> Serves(r)) && Served(Owned(old(av.cs)), Owned(av.cs), r, nb) && MappedNew(old(mapped), mapped, r, nb)
      ensures halted ==> old(mapped)[p].size >= 16 && ContentsKept(old(data), data, r.mem, p + 16, (old(mapped)[p].size - 16) / 8)
      ensures old(mapped)[p].size < nb + SIZE_SZ ==>
        RequestOutcome(r, false, nb - MALLOC_ALIGN_MASK, old(View()), old(Break()), old(Maps()), PM.Exhausted(kernel.pma.blocks))
    {
      hide MallocState.Valid, KH.KernelHeap.Valid, Owned, TagsOk, MappedFor, Joined, HasNew, MallocOutcome, PM.Exhausted;
      MappedNotOwned(p);
      var oldsize := mapped[p].size;
      if oldsize >= nb + SIZE_SZ {
        return Direct(p + 16), false;
      }
      halted := false;
      ghost var v, s, m := View(), Break(), Maps();
      r := AskAgain(nb);
      if Serves(r) {
        MappedNotOwned(p);
        assert Owned(av.cs) - {p} == Owned(av.cs);
        TargetApart(p, old(mapped), r, nb, old(kernel.log), Owned(old(av.cs)));
        ghost var full := PM.Exhausted(kernel.pma.blocks);
        CopyAll(r.mem, p + 16, (oldsize - 2 * SIZE_SZ) / 8);
        halted := Free(p + 16);
        StillServed(r, r, nb - MALLOC_ALIGN_MASK, v, s, m, full, PM.Exhausted(kernel.pma.blocks));
      }
    }

    /** What was just handed out lies beside the mapped chunk p. */
    lemma {:induction false} TargetApart(p: nat, was: map<nat, MapTag>, r: Given, nb: nat, log: seq<KH.Range>, owned: map<nat, nat>)
      requires Valid() && p in was && Serves(r) && was[p].size < nb + SIZE_SZ && TagOk(p, was[p], log, kernel.vma.base)
      requires was[p].size > MAX_FAST && Served(owned, Owned(av.cs), r, nb) && p in mapped && mapped[p] == was[p]
      requires r.Direct? ==> MappedFor(r.mem, nb, log)
      ensures var n := was[p].size - 16; r.mem + n <= p + 16 || p + 16 + n <= r.mem
    {
      hide MallocState.Valid, KH.KernelHeap.Valid, Owned, Joined;
      assert TagOk(p, mapped[p], kernel.log, kernel.vma.base);
      var i: nat :| InRegion(p, was[p], if r.Direct? then log else kernel.log, kernel.vma.base, i);
      assert InRegion(p, was[p], kernel.log, kernel.vma.base, i);
      var n: nat := was[p].size - 16;
      HoldersApart(if r.Allocated? then Payload(r.mem - 16) else Region(|log|), Region(i), r.mem, p + 16, n);
    }

    lemma {:induction false} HoldersApart(h: Holder, g: Holder, a: nat, b: nat, n: nat)
      requires Valid() && h != g && n > 0
      requires (forall x: nat {:trigger HoldsByte(h, x)} :: a <= x < a + n ==> HoldsByte(h, x))
      requires (forall x: nat {:trigger HoldsByte(g, x)} :: b <= x < b + n ==> HoldsByte(g, x))
      ensures a + n <= b || b + n <= a
    {
      hide Valid, HoldsByte;
      if a < b + n && b < a + n {
        var x := if a < b then b else a;
        HeldBytesDiffer(h, g, x, x);
        assert false;
      }
    }

    /** `realloc`.  `mid` is the arena between getting new memory and giving back the old. */
    method Realloc(oldmem: nat, bytes: u64) returns (r: Given, halted: bool, ghost mid: Chunks)
      requires Valid() && (oldmem != 0 ==> oldmem > 16 && (oldmem - 16 in Owned(av.cs) || oldmem - 16 in mapped))
      modifies this`nMmaps, this`mapped, this`data, av, kernel, kernel.pma, kernel.mapper, kernel.vma, kernel.vma.pool.repr
      ensures Valid() && fresh(kernel.vma.pool.repr - old(kernel.vma.pool.repr))
      ensures OutOfRange(bytes) ==> r.Null? && !halted && Owned(av.cs) == Owned(old(av.cs)) && mapped == old(mapped)
      ensures !OutOfRange(bytes) && oldmem == 0 ==>
        && Served(Owned(old(av.cs)), Owned(av.cs), r, Request2Size(bytes)) && MappedNew(old(mapped), mapped, r, Request2Size(bytes))
        && RequestOutcome(r, false, bytes, old(View()), old(Break()), old(Maps()), PM.Exhausted(kernel.pma.blocks)) && !halted
      // A chunk of the arena: the contents come along, all of them when it grows, and none moves when it shrinks.
      ensures !OutOfRange(bytes) && oldmem != 0 && oldmem - 16 !in old(mapped) ==>
        && Exchanged(Owned(old(av.cs)), Owned(av.cs), r, oldmem - 16, Request2Size(bytes))
        && MappedNew(old(mapped), mapped, r, Request2Size(bytes))
      ensures oldmem != 0 && oldmem - 16 !in old(mapped) && Serves(r) ==>
        Owned(old(av.cs))[oldmem - 16] >= 8
        && ContentsKept(old(data), data, r.mem, oldmem, (Owned(old(av.cs))[oldmem - 16] - 8) / 8)
      // It stays in place if it can; else the outcome is that of asking for new memory.
      ensures !OutOfRange(bytes) && oldmem != 0 && oldmem - 16 !in old(mapped) ==>
        var p, nb: u64 := oldmem - 16, Request2Size(bytes);
        p in old(av.cs) && p in mid && nb > MALLOC_ALIGN_MASK &&
        if !FitsInPlace(old(av.cs), old(av.end), p, nb) then
          && RequestOutcome(r, false, nb - MALLOC_ALIGN_MASK, old(View()), old(Break()), old(Maps()), PM.Exhausted(kernel.pma.blocks))
          && HeldBetween(Owned(old(av.cs)), Owned(mid), p, nb, r)
          && (halted <==> Serves(r) && MoveTrims(mid, av.base, av.end, p, nb, r))
        else r == Allocated(oldmem) && (halted <==> InPlaceTrims(old(av.cs), old(av.end), p, nb))
      // A chunk mapped for one request stays if the request fits, and halts the machine if it is moved.
      ensures !OutOfRange(bytes) && oldmem != 0 && oldmem - 16 in old(mapped) ==>
        var p, nb: u64 := oldmem - 16, Request2Size(bytes);
        nb > MALLOC_ALIGN_MASK &&
        if nb + SIZE_SZ <= old(mapped)[p].size then
          r == Direct(oldmem) && !halted && mapped == old(mapped) && data == old(data) && Owned(av.cs) == Owned(old(av.cs))
        else
          && RequestOutcome(r, false, nb - MALLOC_ALIGN_MASK, old(View()), old(Break()), old(Maps()), PM.Exhausted(kernel.pma.blocks))
          && (halted <==> Serves(r)) && Served(Owned(old(av.cs)), Owned(av.cs), r, nb)
          && (halted ==> old(mapped)[p].size >= 16
                         && ContentsKept(old(data), data, r.mem, oldmem, (old(mapped)[p].size - 16) / 8))
    {
      hide Owned, KH.KernelHeap.Valid, MallocState.Valid, Exchanged, MappedFor, PM.Exhausted, TagsOk, MallocOutcome, WayOf, FitsInPlace;
      hide MoveTrims, InPlaceTrims, HeldBetween, FitsBest, Served;
      halted, mid := false, av.cs;
      if oldmem == 0 {
        r := Malloc(bytes);
        return;
      }
      if OutOfRange(bytes) {
        return Null, halted, mid;
      }
      RequestFits(bytes);
      var nb := Request2Size(bytes);
      var p := oldmem - 16;
      if p in mapped {
        MappedNotOwned(p);
        r, halted := ReallocMapped(p, nb);
        return;
      }
      OwnedIs(p);
      var done;
      done, halted := ReallocInPlace(p, nb);
      if done {
        r := Allocated(oldmem);
        return;
      }
      r, halted, mid := ReallocMove(p, nb);
    }

    // ---------- memalign ----------

    /** At least MINSIZE, and a power of two: doubled from 32 until it is large enough.  Beyond 2^63 the doubling
        comes to 0 and goes on for ever. */
    static method RoundAlignment(alignment: u64) returns (ends: bool, a: u64)
      requires alignment > 16
      ensures ends <==> exists k: nat {:trigger Doubled(k)} :: Doubled(k) >= alignment
      ensures ends ==> IsPowerOfTwo(a) && 32 <= a <= 0x8000_0000_0000_0000 && alignment <= a
      ensures ends ==> forall c: nat {:trigger IsPowerOfTwo(c)} :: IsPowerOfTwo(c) && c >= 32 && c >= alignment ==> a <= c
      ensures IsPowerOfTwo(alignment) && alignment >= 32 ==> ends && a == alignment
    {
      ends, a := true, if alignment < MINSIZE then MINSIZE else alignment;
      PowerOfTwoTest(a);
      RoundingEndsIff(alignment);
      if And(a, a - 1) == 0 {
        SL.PowersAreAlignments(a);
      } else if a > 0x8000_0000_0000_0000 {
        ends := false;
      } else {
        var b := 32;
        assert IsPowerOfTwo(32);
        while b < a
          invariant IsPowerOfTwo(b) && 32 <= b <= 0x8000_0000_0000_0000 && (b > 32 ==> b < 2 * a)
          decreases 0x1_0000_0000_0000_0000 - b
        {
          DoubleBelow(b, a);
          b := 2 * b;
        }
        forall c: nat | IsPowerOfTwo(c) && c >= 32 && c >= alignment
          ensures b <= c
        {
          PowersApart(c, b);
        }
        a := b;
      }
    }

    /** The value of the rounding loop's variable after k turns. */
    static function Doubled(k: nat): u64 {
      if k == 0 then 32 else Add64(Doubled(k - 1), Doubled(k - 1))
    }

    /** The loop gets to an alignment above 32 exactly if that is at most 2^63; else it goes on for ever. */
    static lemma {:induction false} RoundingEndsIff(alignment: u64)
      ensures (exists k: nat {:trigger Doubled(k)} :: Doubled(k) >= alignment) <==> alignment <= 0x8000_0000_0000_0000
    {
      if k: nat :| Doubled(k) >= alignment {
        DoubledIsPower(k);
      }
      Pow2Values();
      DoubledIs(58);
    }

    static lemma {:induction false} DoubledIsPower(k: nat)
      ensures Doubled(k) == 0 || (IsPowerOfTwo(Doubled(k)) && 32 <= Doubled(k) <= 0x8000_0000_0000_0000)
    {
      if k == 0 {
        assert IsPowerOfTwo(32);
      } else {
        DoubledIsPower(k - 1);
        if 0 < Doubled(k - 1) < 0x8000_0000_0000_0000 {
          DoubleBelow(Doubled(k - 1), 0x8000_0000_0000_0000);
        }
      }
    }

    static lemma {:induction false} DoubledIs(k: nat)
      requires k <= 58
      ensures Doubled(k) == Pow2(k + 5) <= Pow2(63)
    {
      Pow2Monotone(k + 5, 63);
      Pow2Values();
      if k == 0 {
        assert Pow2(4) == 16;
      } else {
        DoubledIs(k - 1);
      }
    }

    /** Of two powers of two the larger is at least twice the smaller. */
    static lemma {:induction false} PowersApart(c: nat, b: nat)
      requires IsPowerOfTwo(c) && IsPowerOfTwo(b)
      ensures c < b ==> 2 * c <= b
    {
      var i := PowerOfTwoExponent(c);
      var j := PowerOfTwoExponent(b);
      if i < j {
        Pow2Monotone(i + 1, j);
      } else {
        Pow2Monotone(j, i);
      }
    }

    /** A power of two below a number of at most 2^63 can be doubled without passing 2^63. */
    static lemma {:induction false} DoubleBelow(b: nat, a: nat)
      requires IsPowerOfTwo(b) && 32 <= b < a <= 0x8000_0000_0000_0000
      ensures IsPowerOfTwo(2 * b) && 2 * b <= 0x8000_0000_0000_0000
    {
      var k := PowerOfTwoExponent(b);
      Pow2Values();
      if k >= 63 {
        Pow2Monotone(63, k);
      } else {
        Pow2Monotone(k + 1, 63);
      }
    }

    static lemma {:induction false} PowerIsSixteens(a: nat)
      requires IsPowerOfTwo(a) && a >= 16
      ensures a % 16 == 0
    {
      var k := PowerOfTwoExponent(a);
      SmallPowers();
      if k < 4 {
        Pow2Monotone(k, 3);
      } else {
        Pow2Add(4, k - 4);
        DivModUnique(a, 16, Pow2(k - 4), 0);
      }
    }

    /** Where the aligned chunk begins: the leader in front of it is a chunk, too, and enough is left. */
    static function AlignedSpot(mem: u64, a: u64): nat
      requires a >= 1
    {
      var up := AlignUp(mem, a);
      if up - mem < MINSIZE then up + a else up
    }

    static lemma {:induction false} AlignedSpotFits(mem: u64, size: nat, nb: nat, a: u64)
      requires mem % 16 == 0 && IsPowerOfTwo(a) && a >= 32 && size % 16 == 0 && ChunkSize(nb)
      requires size >= nb + a + 48 && mem + size < TWO64 + 16 && mem % a != 0
      ensures var brk := AlignedSpot(mem, a);
        && brk > mem && FirstSpot(mem, brk, a) && ChunkSize(brk - mem) && nb <= size - (brk - mem) && brk - mem + 32 <= size
        && (size - (brk - mem)) % 16 == 0
    {
      hide AlignUp;
      PowerIsSixteens(a);
      AlignUpIsCeiling(mem, a);
      var up := AlignUp(mem, a);
      MultipleOfSixteen(up, a);
      NextMultiple(up, a);
      LeaderFits(mem, up, a, size, nb);
    }

    static lemma {:induction false} LeaderFits(mem: nat, up: nat, a: nat, size: nat, nb: nat)
      requires mem % 16 == 0 && up % 16 == 0 && a % 16 == 0 && size % 16 == 0 && ChunkSize(nb)
      requires mem < up < mem + a && a >= 32 && size >= nb + a + 48
      ensures var brk := if up - mem < 32 then up + a else up;
        && ChunkSize(brk - mem) && nb <= size - (brk - mem) && brk - mem + 32 <= size && (size - (brk - mem)) % 16 == 0
    {
      var m, u, c, z, n := mem / 16, up / 16, a / 16, size / 16, nb / 16;
      var brk := if up - mem < 32 then up + a else up;
      var b := if up - mem < 32 then u + c else u;
      assert mem == 16 * m && up == 16 * u && a == 16 * c && size == 16 * z && nb == 16 * n;
      DivModUnique(brk - mem, 16, b - m, 0);
      DivModUnique(size - (brk - mem), 16, z - (b - m), 0);
    }

    static lemma {:induction false} MultipleOfSixteen(x: nat, a: nat)
      requires a > 0 && a % 16 == 0 && x % a == 0
      ensures x % 16 == 0
    {
      var k, c := x / a, a / 16;
      assert x == a * k && a == 16 * c;
      Reassociate(c, k);
      DivModUnique(x, 16, c * k, 0);
    }

    static lemma Reassociate(c: nat, k: nat)
      ensures (16 * c) * k == 16 * (c * k)
    {
    }

    static lemma {:induction false} NextMultiple(x: nat, a: nat)
      requires a > 0 && x % a == 0
      ensures (x + a) % a == 0
    {
      assert x == a * (x / a);
      Distribute(a, x / a, -1);
      DivModUnique(x + a, a, x / a + 1, 0);
    }

    /** The nested `malloc` of a worst-case size returns room for the alignment. */
    static lemma {:induction false} PaddedRequest(nb: u64, a: u64, size: nat)
      requires ChunkSize(nb) && IsPowerOfTwo(a) && a >= 32 && nb + a + 32 < TWO64 && !OutOfRange(nb + a + 32)
      requires size % 16 == 0 && size >= Request2Size(nb + a + 32)
      ensures size >= nb + a + 48
    {
      PowerIsSixteens(a);
      RequestFits(nb + a + 32);
      WholeSixteens(nb, a);
      WholeSixteens(nb + a, 32);
      WholeSixteens(nb + a + 32, size);
    }

    /** Cut a chunk in use in two. */
    method CutChunk(p: nat, n: nat)
      requires Valid() && p in Owned(av.cs) && ChunkSize(n) && n + MINSIZE <= Owned(av.cs)[p]
      modifies av
      ensures Valid() && p + n !in Owned(old(av.cs))
      ensures Owned(av.cs) == Owned(old(av.cs))[p := n][p + n := Owned(old(av.cs))[p] - n]
      ensures forall x: nat {:trigger av.FollowsUse(x)} :: x in Owned(old(av.cs)) ==> (av.FollowsUse(x) <==> old(av.FollowsUse(x)))
      ensures p in old(av.cs) && av.cs == Cut(old(av.cs), p, n, InUse, InUse) && n < old(av.cs)[p].size
      ensures av.base == old(av.base) && av.end == old(av.end) && av.top == old(av.top)
    {
      hide Owned, MallocState.ListsOk, KH.KernelHeap.Valid, Arena, Cut;
      OwnedIs(p);
      OwnedHalves(av.cs, p, n);
      av.CutInUse(p, n);
      NotOwned(old(av.cs), p + n);
      OwnedAreChunks(old(av.cs));
    }

    static lemma OwnedAreChunks(cs: Chunks)
      ensures forall x {:trigger x in Owned(cs)} :: x in Owned(cs) ==> x in cs
    {
    }

    static lemma NotOwned(cs: Chunks, p: nat)
      ensures p !in cs ==> p !in Owned(cs)
    {
    }

    static lemma OwnedHalves(cs: Chunks, p: nat, nb: nat)
      requires p in cs && cs[p].use.InUse? && 0 < nb <= cs[p].size
      ensures Owned(Cut(cs, p, nb, InUse, InUse)) == Owned(cs)[p := nb][p + nb := cs[p].size - nb]
    {
    }

    /** One chunk at a multiple of a, of nb to nb + 32 bytes, was handed out, and nothing else changed. */
    static ghost predicate AlignedNew(was: map<nat, nat>, now: map<nat, nat>, mem: nat, nb: nat, a: nat) {
      a > 0 && mem > 16 && mem % a == 0
      && var p: nat := mem - 16; p !in was && p in now && nb <= now[p] <= nb + MINSIZE && now == was[p := now[p]]
    }

    /** Give back the leader in front of the first aligned spot that leaves a chunk before it. */
    method CutLeader(p: nat, nb: u64, a: u64, ghost was: map<nat, nat>) returns (q: nat, halted: bool)
      requires Valid() && p > 0 && p in Owned(av.cs) && p !in was && Owned(av.cs) == was[p := Owned(av.cs)[p]]
      requires ChunkSize(nb) && IsPowerOfTwo(a) && a >= 32 && Owned(av.cs)[p] >= nb + a + 48
      modifies av, kernel, kernel.pma, kernel.mapper, kernel.vma, kernel.vma.pool.repr
      ensures Valid() && data == old(data) && kernel.vma.pool.repr == old(kernel.vma.pool.repr)
      ensures q > 0 && q !in was && q in Owned(av.cs) && Owned(av.cs) == was[q := Owned(av.cs)[q]]
      ensures FirstSpot(p + 16, q + 16, a) && (q + 16) % a == 0 && Owned(av.cs)[q] >= nb
      ensures p <= q && q + Owned(av.cs)[q] == p + Owned(old(av.cs))[p] && p in old(av.cs)
      ensures halted <==> FrontTrims(old(av.cs), old(av.end), p, q - p)
      ensures av.base == old(av.base) && av.end == old(av.end)
    {
      hide Owned, KH.KernelHeap.Valid, MallocState.Valid, Joined, AlignedSpot, IsPowerOfTwo, FreeTrims, Cut;
      halted := false;
      q := p;
      OwnedIs(p);
      MemOfChunk(p);
      var mem := p + 16;
      if mem % a != 0 {
        var size := SizeBits(av.head[p]);
        AlignedSpotFits(mem, size, nb, a);
        var lead := AlignedSpot(mem, a) - mem;
        FrontFreed(p, lead);
        CutChunk(p, lead);
        halted := FreeChunk(p + 16);
        q := p + lead;
      }
    }

    lemma FrontFreed(p: nat, n: nat)
      requires av.Valid() && p in Owned(av.cs) && 0 < n < Owned(av.cs)[p]
      ensures p in av.cs && n < av.cs[p].size
      ensures FreeTrims(Cut(av.cs, p, n, InUse, InUse), av.base, av.end, p) <==> FrontTrims(av.cs, av.end, p, n)
    {
      hide Tiled, Tagged, FreeTrims, FrontTrims;
      FrontIsFreed(av.cs, av.base, av.end, p, n);
    }

    lemma EndFreed(p: nat, n: nat)
      requires av.Valid() && p in Owned(av.cs) && 0 < n < Owned(av.cs)[p]
      ensures p in av.cs && n < av.cs[p].size
      ensures Tiled(Cut(av.cs, p, n, InUse, InUse), av.base, av.end) ==>
        (FreeTrims(Cut(av.cs, p, n, InUse, InUse), av.base, av.end, p + n) <==>
         RestTrims(av.cs, av.end, p, p + av.cs[p].size, n))
    {
      hide Tiled, Tagged, FreeTrims, RestTrims;
      FuseOne(av.cs, av.base, av.end, p);
      if Tiled(Cut(av.cs, p, n, InUse, InUse), av.base, av.end) {
        RestIsFreed(av.cs, av.base, av.end, p, p + av.cs[p].size, n);
      }
    }

    static lemma {:induction false} FuseOne(cs: Chunks, base: nat, end: nat, p: nat)
      requires Tiled(cs, base, end) && p in cs && cs[p].use.InUse?
      ensures Fuse(cs, p, p + cs[p].size, InUse) == cs
    {
      forall q | q in cs && p < q
        ensures p + cs[p].size <= q
      {
        assert Before(cs, p, q);
      }
    }

    lemma StillTiled()
      requires av.Valid() && av.top != 0
      ensures Tiled(av.cs, av.base, av.end)
    {
    }

    static lemma MemOfChunk(p: nat)
      requires p % 16 == 0
      ensures (p + 16) % 16 == 0
    {
    }

    /** "Also give back spare room at the end." */
    method CutTail(p: nat, nb: u64, ghost was: map<nat, nat>) returns (halted: bool)
      requires Valid() && p > 0 && p in Owned(av.cs) && p !in was && Owned(av.cs) == was[p := Owned(av.cs)[p]]
      requires ChunkSize(nb) && Owned(av.cs)[p] >= nb
      modifies av, kernel, kernel.pma, kernel.mapper, kernel.vma, kernel.vma.pool.repr
      ensures Valid() && data == old(data) && kernel.vma.pool.repr == old(kernel.vma.pool.repr)
      ensures p in Owned(av.cs) && Owned(av.cs) == was[p := Owned(av.cs)[p]] && nb <= Owned(av.cs)[p] <= nb + MINSIZE
      ensures Owned(av.cs)[p] == if nb + MINSIZE < Owned(old(av.cs))[p] then nb else Owned(old(av.cs))[p]
      ensures p in old(av.cs) && (halted <==> RestTrims(old(av.cs), old(av.end), p, p + old(av.cs)[p].size, nb))
      ensures av.base == old(av.base) && av.end == old(av.end)
    {
      hide Owned, KH.KernelHeap.Valid, MallocState.Valid, Joined, FreeTrims, Cut;
      halted := false;
      OwnedIs(p);
      var size := SizeBits(av.head[p]);
      if size > nb + MINSIZE {
        EndFreed(p, nb);
        CutChunk(p, nb);
        StillTiled();
        halted := FreeChunk(p + nb + 16);
      }
    }

    /** `memalign`.  `a` is the alignment used: the one asked for if that is a power of two from 32 up.  `cuts`
        are the arenas in which the leader and the spare end go back. */
    method Memalign(alignment: u64, bytes: u64) returns (r: Given, halted: bool, a: u64, ghost cuts: Cuts)
      requires Valid()
      modifies this`nMmaps, this`mapped, av, kernel, kernel.pma, kernel.mapper, kernel.vma, kernel.vma.pool.repr
      ensures Valid() && fresh(kernel.vma.pool.repr - old(kernel.vma.pool.repr)) && data == old(data)
      // Above 2^63 no power of two is found.
      ensures r.Hangs? <==> alignment > 0x8000_0000_0000_0000
      ensures OutOfRange(bytes) ==> (r.Null? || r.Hangs?) && !halted && Owned(av.cs) == Owned(old(av.cs))
      ensures alignment <= 16 && !OutOfRange(bytes) ==> Served(Owned(old(av.cs)), Owned(av.cs), r, Request2Size(bytes)) && !halted
      // The least power of two from 32 up that is large enough.
      ensures alignment > 16 && !r.Hangs? ==> IsPowerOfTwo(a) && a >= 32 && alignment <= a
      ensures alignment > 16 && !r.Hangs? ==>
        forall c: nat {:trigger IsPowerOfTwo(c)} :: IsPowerOfTwo(c) && c >= 32 && c >= alignment ==> a <= c
      ensures alignment > 16 && !OutOfRange(bytes) && r.Allocated? ==>
        AlignedNew(Owned(old(av.cs)), Owned(av.cs), r.mem, Request2Size(bytes), a)
      ensures alignment > 16 && !OutOfRange(bytes) && r.Direct? ==>
        && a > 0 && r.mem % a == 0 && InMapped(r.mem, Request2Size(bytes) - 8, old(kernel.log))
        && FirstSpot(kernel.At(kernel.log[|old(kernel.log)|].page) + 16, r.mem, a)
      ensures alignment > 16 && !r.Allocated? && !r.Wrapped? ==> Owned(av.cs) == Owned(old(av.cs))
      ensures if OutOfRange(bytes) then mapped == old(mapped)
              else r.Wrapped? || MappedNew(old(mapped), mapped, r, Request2Size(bytes))
      // The padded size is a 64-bit sum.  If it wraps, nothing that holds the request is ever returned, and
      // what the nested `malloc` returns for the rest of the sum is too small.
      ensures alignment > 16 && !OutOfRange(bytes) && !r.Hangs? ==>
        MemalignOutcome(r, Request2Size(bytes), a, old(View()), old(Break()), old(Maps()), PM.Exhausted(kernel.pma.blocks))
      // When giving back what was cut off halts the machine.
      ensures alignment > 16 && !OutOfRange(bytes) && r.Allocated? ==>
        && r.mem >= 16 && CutsOf(cuts, Owned(old(av.cs)), r.mem - 16)
        && (halted <==> CutsTrim(cuts, av.end, r.mem - 16, Request2Size(bytes)))
        && FirstSpot(cuts.p + 16, r.mem, a) && SpareGone(cuts, Owned(av.cs), r.mem - 16, Request2Size(bytes))
      ensures !r.Allocated? ==> !halted
    {
      hide Owned, KH.KernelHeap.Valid, MallocState.Valid, Joined, Served, AlignedNew, MappedFor, PM.Exhausted, IsPowerOfTwo;
      hide MallocOutcome, MemalignOutcome, FitsBest, CutsOf, CutsTrim, FirstSpot, SpareGone;
      halted, cuts := false, Cuts(0, map[], map[]);
      a := 16;
      if alignment <= 16 {
        r := Malloc(bytes);
        return;
      }
      RoundingEndsIff(alignment);
      var ends;
      ends, a := RoundAlignment(alignment);
      if !ends {
        return Hangs, halted, a, cuts;
      }
      if OutOfRange(bytes) {
        return Null, halted, a, cuts;
      }
      RequestFits(bytes);
      r, halted, cuts := MallocAligned(Request2Size(bytes), a);
    }

    static ghost predicate MemalignOutcome(r: Given, nb: u64, a: u64, v: ArenaView, s: BreakView, m: MapView, exhausted: bool) {
      RequestOutcome(r, nb + a + MINSIZE >= TWO64, PaddedSize(nb, a), v, s, m, exhausted)
    }

    /** The worst case of an aligned request, as the code adds it up. */
    static function PaddedSize(nb: u64, a: u64): u64 {
      Add64(Add64(nb, a), MINSIZE)
    }

    /** 2^63 bytes at a multiple of 2^63: the padded size is 48, and an arena with room for that is enough. */
    static lemma {:induction false} HalfOfMemoryAligned(r: Given, v: ArenaView, s: BreakView, m: MapView, exhausted: bool)
      requires MemalignOutcome(r, 0x8000_0000_0000_0010, 0x8000_0000_0000_0000, v, s, m, exhausted)
      requires RoomFor(v.owned, v.base, v.end, 64)
      ensures Request2Size(0x8000_0000_0000_0000) == 0x8000_0000_0000_0010 && r.Wrapped?
    {
      assert PaddedSize(0x8000_0000_0000_0010, 0x8000_0000_0000_0000) == 48 && Request2Size(48) == 64;
    }

    method MallocAligned(nb: u64, a: u64) returns (r: Given, halted: bool, ghost cuts: Cuts)
      requires Valid() && ChunkSize(nb) && IsPowerOfTwo(a) && 32 <= a <= 0x8000_0000_0000_0000
      modifies this`nMmaps, this`mapped, av, kernel, kernel.pma, kernel.mapper, kernel.vma, kernel.vma.pool.repr
      ensures Valid() && fresh(kernel.vma.pool.repr - old(kernel.vma.pool.repr)) && data == old(data)
      ensures r.Allocated? ==> AlignedNew(Owned(old(av.cs)), Owned(av.cs), r.mem, nb, a)
      ensures r.Direct? ==> r.mem % a == 0 && InMapped(r.mem, nb - 8, old(kernel.log))
      ensures r.Direct? ==> FirstSpot(kernel.At(kernel.log[|old(kernel.log)|].page) + 16, r.mem, a)
      ensures !r.Wrapped? ==> MappedNew(old(mapped), mapped, r, nb)
      ensures !r.Allocated? && !r.Wrapped? ==> Owned(av.cs) == Owned(old(av.cs))
      ensures MemalignOutcome(r, nb, a, old(View()), old(Break()), old(Maps()), PM.Exhausted(kernel.pma.blocks))
      ensures r.Allocated? ==> r.mem >= 16 && CutsOf(cuts, Owned(old(av.cs)), r.mem - 16) && (halted <==> CutsTrim(cuts, av.end, r.mem - 16, nb))
      ensures r.Allocated? ==> FirstSpot(cuts.p + 16, r.mem, a) && SpareGone(cuts, Owned(av.cs), r.mem - 16, nb)
      ensures !r.Allocated? ==> !halted
      ensures !r.Hangs?
    {
      hide Owned, KH.KernelHeap.Valid, MallocState.Valid, Joined, PM.Exhausted, IsPowerOfTwo, MallocOutcome, FitsBest;
      hide CutsOf, CutsTrim, AlignedNew, TagsOk, FirstSpot, SpareGone;
      halted, cuts := false, Cuts(0, map[], map[]);
      ghost var was, v, s, m := Owned(av.cs), View(), Break(), Maps();
      r := Malloc(PaddedSize(nb, a));
      ghost var i, full := r, PM.Exhausted(kernel.pma.blocks);
      if nb + a + MINSIZE >= TWO64 {
        // A wrapped sum: what was allocated, if anything, cannot hold nb bytes.
        if r.Allocated? || r.Direct? {
          r := Wrapped;
        }
        WrapsOnce(r, i, PaddedSize(nb, a), v, s, m, full);
        return;
      }
      if r.Direct? {
        DirectRoom(nb, a);
        r := AlignMapped(r.mem, nb, a, Request2Size(PaddedSize(nb, a)), old(mapped), old(kernel.log));
        SameOutcome(r, i, PaddedSize(nb, a), v, s, m, full);
        return;
      }
      SameOutcome(r, i, PaddedSize(nb, a), v, s, m, full);
      if !r.Allocated? {
        return;
      }
      PaddedRequest(nb, a, ChunkBytes(r.mem - 16));
      var mem;
      mem, halted, cuts := CutToSize(r.mem - 16, nb, a, was);
      r := Allocated(mem);
      SameOutcome(r, i, PaddedSize(nb, a), v, s, m, PM.Exhausted(kernel.pma.blocks));
    }

    /** Leader and spare end of the padded chunk p go back. */
    method CutToSize(p: nat, nb: u64, a: u64, ghost was: map<nat, nat>) returns (mem: nat, halted: bool, ghost cuts: Cuts)
      requires Valid() && p > 0 && p in Owned(av.cs) && p !in was && Owned(av.cs) == was[p := Owned(av.cs)[p]]
      requires ChunkSize(nb) && IsPowerOfTwo(a) && a >= 32 && Owned(av.cs)[p] >= nb + a + 48
      modifies av, kernel, kernel.pma, kernel.mapper, kernel.vma, kernel.vma.pool.repr
      ensures Valid() && kernel.vma.pool.repr == old(kernel.vma.pool.repr) && AlignedNew(was, Owned(av.cs), mem, nb, a)
      ensures mem >= 16 && CutsOf(cuts, was, mem - 16) && (halted <==> CutsTrim(cuts, av.end, mem - 16, nb))
      ensures FirstSpot(cuts.p + 16, mem, a) && SpareGone(cuts, Owned(av.cs), mem - 16, nb)
    {
      hide Owned, KH.KernelHeap.Valid, MallocState.Valid, Valid, IsPowerOfTwo, FrontTrims, RestTrims, FirstSpot;
      ghost var mid := av.cs;
      var q;
      q, halted := CutLeader(p, nb, a, was);
      cuts := Cuts(p, mid, av.cs);
      OwnedOfChunk(q);
      var h := CutTail(q, nb, was);
      halted := halted || h;
      mem := q + 16;
    }

    lemma OwnedOfChunk(p: nat)
      requires Valid() && p in Owned(av.cs)
      ensures p in av.cs && av.cs[p].size == Owned(av.cs)[p]
    {
    }

    /** Where the memory is does not matter for what kind of outcome it is; nor, once there is memory, whether
        there are frames left. */
    static lemma SameOutcome(r: Given, i: Given, bytes: u64, v: ArenaView, s: BreakView, m: MapView, exhausted: bool)
      requires OutOfRange(bytes) ==> i.Null?
      requires !OutOfRange(bytes) ==> ChunkSize(Request2Size(bytes)) && Request2Size(bytes) + MINSIZE < TWO64
      requires !OutOfRange(bytes) ==>
        exists e: bool {:trigger MallocOutcome(i, Request2Size(bytes), v, s, m, e)} ::
             MallocOutcome(i, Request2Size(bytes), v, s, m, e) && (e == exhausted || Serves(i))
      requires i == r || (i.Allocated? && r.Allocated?) || (i.Direct? && r.Direct?)
      ensures RequestOutcome(r, false, bytes, v, s, m, exhausted)
    {
    }

    static lemma WrapsOnce(r: Given, i: Given, bytes: u64, v: ArenaView, s: BreakView, m: MapView, exhausted: bool)
      requires OutOfRange(bytes) ==> i.Null?
      requires !OutOfRange(bytes) ==> ChunkSize(Request2Size(bytes)) && Request2Size(bytes) + MINSIZE < TWO64
      requires !OutOfRange(bytes) ==> MallocOutcome(i, Request2Size(bytes), v, s, m, exhausted)
      requires !i.Wrapped? && r == if Serves(i) then Wrapped else i
      ensures RequestOutcome(r, true, bytes, v, s, m, exhausted)
    {
      hide MallocOutcome;
    }

    /** The size of a chunk in use. */
    ghost function ChunkBytes(p: nat): (n: nat)
      requires av.Valid() && p in Owned(av.cs)
      reads av
      ensures n % 16 == 0
    {
      OwnedIs(p);
      Owned(av.cs)[p]
    }

    /** The same spot in a mapped region, which ends below 2^64. */
    static function AlignedAbove(mem: nat, a: nat): int
      requires a > 0
    {
      var up := (mem + a - 1) / a * a;
      if up - mem < MINSIZE then up + a else up
    }

    /** "For mmapped chunks, just adjust offset": the chunk gives up what lies in front of the aligned spot. */
    method AlignMapped(mem: nat, nb: u64, a: u64, padded: u64, ghost was: map<nat, MapTag>, ghost log: seq<KH.Range>) returns (r: Given)
      requires Valid() && ChunkSize(nb) && IsPowerOfTwo(a) && a >= 32 && padded >= MMAP_THRESHOLD && nb + a + 40 <= padded < nb + a + 80
      requires TagsOk(was, log, kernel.vma.base) && MappedFor(mem, padded, log) && MappedNew(was, mapped, Direct(mem), padded)
      modifies this`mapped
      ensures Valid() && r.Direct? && r.mem % a == 0 && mem <= r.mem < mem + a + 32 && MappedNew(was, mapped, r, nb)
      ensures FirstSpot(mem, r.mem, a)
    {
      hide KH.KernelHeap.Valid, MallocState.Valid, Joined, TagsOk, IsPowerOfTwo, AlignedAbove;
      assert mem % a == 0 ==> FirstSpot(mem, mem, a);
      hide FirstSpot;
      if mem % a == 0 {
        return Direct(mem);
      }
      MappedAtPage(mem, padded, log);
      DirectSpot(mem, a);
      var lead := AlignedAbove(mem, a) - mem;
      MappedTail(mem, nb, a, padded, lead, kernel.log[|log|].n);
      GiveUpFront(mem - 16, lead, was, log);
      r := Direct(mem + lead);
    }

    lemma {:induction false} MappedAtPage(mem: nat, nb: nat, was: seq<KH.Range>)
      requires kernel.Valid() && MappedFor(mem, nb, was)
      ensures mem >= 16 && (mem - 16) % 4096 == 0
    {
      hide KH.KernelHeap.HistoryOk, KH.KernelHeap.HeapOk;
      var b, q := kernel.vma.base / 4096, kernel.log[|was|].page;
      assert kernel.vma.base % 4096 == 0;
      DivModUnique(mem - 16, 4096, b + q, 0);
    }

    static lemma OneOther(was: map<nat, MapTag>, now: map<nat, MapTag>, p: nat, q: nat, tag: MapTag)
      requires p !in was && p in now && now == was[p := now[p]] && q !in was
      ensures now - {p} == was && |was[q := tag]| == |now|
    {
      assert now - {p} == was;
    }

    method GiveUpFront(p: nat, lead: nat, ghost was: map<nat, MapTag>, ghost log: seq<KH.Range>)
      requires Valid() && TagsOk(was, log, kernel.vma.base) && MappedFor(p + 16, 0, log) && mapped == was[p := mapped[p]] && p !in was
      requires lead + MAX_FAST < mapped[p].size
      modifies this`mapped
      ensures Valid() && p + lead !in was && mapped == was[p + lead := MapTag(lead, old(mapped)[p].size - lead)]
    {
      hide KH.KernelHeap.Sane, KH.KernelHeap.HeapOk, MallocState.Valid, Joined, TagsOk;
      var tag := mapped[p];
      TagAdded(was, log, kernel.vma.base, kernel.log[|log|], lead);
      assert log + [kernel.log[|log|]] == kernel.log;
      OneOther(was, mapped, p, p + lead, MapTag(tag.offset + lead, tag.size - lead));
      mapped := (mapped - {p})[p + lead := MapTag(tag.offset + lead, tag.size - lead)];
    }

    /** What is left of the region holds the request, and is none for a fastbin: a small request is mapped only
        for the sake of an alignment to whole pages, and then the rest of the last page is left. */
    static lemma {:induction false} MappedTail(mem: nat, nb: u64, a: u64, padded: u64, lead: nat, n: nat)
      requires ChunkSize(nb) && IsPowerOfTwo(a) && a >= 32 && padded >= MMAP_THRESHOLD && nb + a + 40 <= padded < nb + a + 80
      requires mem >= 16 && (mem - 16) % 4096 == 0 && mem + lead == AlignedAbove(mem, a) && padded + 8 <= n * 4096
      ensures lead + MAX_FAST < n * 4096 && lead + nb + 8 <= n * 4096
    {
      hide IsPowerOfTwo;
      DirectSpot(mem, a);
      if nb < 64 {
        PowerIsPages(a);
        PageLead(mem, a, lead);
        assert a / 4096 < n;
      }
    }

    static lemma {:induction false} PageLead(mem: nat, a: nat, lead: nat)
      requires a >= 4096 && a % 4096 == 0 && mem >= 16 && (mem - 16) % 4096 == 0 && mem + lead == AlignedAbove(mem, a)
      ensures lead + 16 <= a
    {
      var k, j, m := (mem + a - 1) / a, a / 4096, (mem - 16) / 4096;
      assert mem + a - 1 == a * k + (mem + a - 1) % a;
      assert a == 4096 * j && mem == 4096 * m + 16;
      assert a * k == 4096 * (j * k);
      assert mem <= a * k < mem + a;
      assert j * k > m;
      assert j * k <= m + j;
    }

    static lemma {:induction false} PowerIsPages(a: nat)
      requires IsPowerOfTwo(a) && a >= 4096
      ensures a % 4096 == 0
    {
      var k := PowerOfTwoExponent(a);
      Pow2Values();
      assert Pow2(12) == 2 * Pow2(11);
      if k < 12 {
        Pow2Monotone(k, 11);
      } else {
        Pow2Add(12, k - 12);
        DivModUnique(a, 4096, Pow2(k - 12), 0);
      }
    }

    static lemma {:induction false} DirectRoom(nb: u64, a: u64)
      requires ChunkSize(nb) && IsPowerOfTwo(a) && a >= 32 && nb + a + 32 < TWO64
      ensures !OutOfRange(nb + a + 32) ==> Request2Size(nb + a + 32) >= nb + a + 32
    {
      if !OutOfRange(nb + a + 32) {
        RequestFits(nb + a + 32);
      }
    }

    static lemma {:induction false} DirectSpot(mem: nat, a: nat)
      requires a > 0
      ensures a >= 32 && mem % a != 0 ==> FirstSpot(mem, AlignedAbove(mem, a), a)
      ensures AlignedAbove(mem, a) % a == 0 && mem <= AlignedAbove(mem, a) < mem + a + 32
    {
      var k := (mem + a - 1) / a;
      assert mem + a - 1 == a * k + (mem + a - 1) % a;
      DivModUnique(k * a, a, k, 0);
      NextMultiple(k * a, a);
    }

    // ---------- independent_alloc ----------

    /** `request2size` without the range check: a sum that wraps gives a minimal chunk. */
    static function RawSize(req: u64): u64 {
      if Add64(req, 23) < 32 then 32 else Add64(req, 23) / 16 * 16
    }

    static lemma {:induction false} RawSizeIs(req: u64)
      ensures !OutOfRange(req) ==> RawSize(req) == Request2Size(req)
      ensures ChunkSize(RawSize(req))
    {
      if Add64(req, 23) >= 32 {
        DivModUnique(Add64(req, 23) / 16 * 16, 16, Add64(req, 23) / 16, 0);
      }
    }

    static function Total(ss: seq<nat>): nat {
      if ss == [] then 0 else Total(ss[..|ss| - 1]) + ss[|ss| - 1]
    }

    /** Adjacent chunks of the given sizes from p on. */
    static ghost function Pieces(p: nat, ss: seq<nat>): map<nat, nat> {
      if ss == [] then map[]
      else var t := ss[..|ss| - 1]; Pieces(p, t)[p + Total(t) := ss[|ss| - 1]]
    }

    static lemma {:induction false} PiecesAppend(p: nat, ss: seq<nat>, x: nat)
      ensures Pieces(p, ss + [x]) == Pieces(p, ss)[p + Total(ss) := x] && Total(ss + [x]) == Total(ss) + x
    {
      assert (ss + [x])[..|ss|] == ss;
    }

    /** All pieces begin below the end. */
    static lemma {:induction false} PiecesBelow(p: nat, ss: seq<nat>)
      requires forall i {:trigger ss[i]} :: 0 <= i < |ss| ==> ss[i] > 0
      ensures forall k {:trigger k in Pieces(p, ss)} :: k in Pieces(p, ss) ==> p <= k < p + Total(ss)
    {
      if ss != [] {
        PiecesBelow(p, ss[..|ss| - 1]);
      }
    }

    static lemma {:induction false} TotalPrefix(ss: seq<nat>, i: nat)
      requires i < |ss| && forall j {:trigger ss[j]} :: 0 <= j < |ss| ==> ss[j] >= 32
      ensures Total(ss[..i + 1]) == Total(ss[..i]) + ss[i]
      ensures i + 1 < |ss| ==> Total(ss[..i + 1]) + 32 <= Total(ss)
      ensures Total(ss[..i + 1]) <= Total(ss)
      decreases |ss| - i
    {
      assert ss[..i + 1][..i] == ss[..i];
      if i + 1 < |ss| {
        TotalPrefix(ss, i + 1);
      } else {
        assert ss[..i + 1] == ss;
      }
    }

    /** The callers' chunks when i pieces have been cut off: they and the rest are new beside `was`. */
    static ghost predicate CutSoFar(owned: map<nat, nat>, was: map<nat, nat>, p: nat, ss: seq<nat>, i: nat, size: nat) {
      && i < |ss| && Total(ss[..i]) + ss[i] <= size
      && owned == was + Pieces(p, ss[..i] + [size - Total(ss[..i])])
      && Pieces(p, ss[..i] + [size - Total(ss[..i])]).Keys !! was.Keys
    }

    static lemma {:induction false} CutFirst(was: map<nat, nat>, p: nat, ss: seq<nat>, size: nat)
      requires |ss| > 0 && Total(ss) <= size && p !in was && forall i {:trigger ss[i]} :: 0 <= i < |ss| ==> ss[i] >= 32
      ensures CutSoFar(was[p := size], was, p, ss, 0, size)
    {
      assert ss[..0] == [];
      PiecesAppend(p, [], size);
      TotalPrefix(ss, 0);
    }

    static lemma {:induction false} CutNext(owned: map<nat, nat>, was: map<nat, nat>, p: nat, ss: seq<nat>, i: nat, size: nat)
      requires CutSoFar(owned, was, p, ss, i, size) && i + 1 < |ss| && Total(ss) <= size
      requires forall j {:trigger ss[j]} :: 0 <= j < |ss| ==> ss[j] >= 32
      ensures var q := p + Total(ss[..i]);
        && Total(ss[..i + 1]) == Total(ss[..i]) + ss[i] && Total(ss[..i + 1]) + 32 <= size
        && q in owned && owned[q] == size - Total(ss[..i])
        && (q + ss[i] !in owned ==>
              CutSoFar(owned[q := ss[i]][q + ss[i] := size - Total(ss[..i + 1])], was, p, ss, i + 1, size))
    {
      hide Pieces, Total;
      var t := ss[..i];
      var q := p + Total(t);
      TotalPrefix(ss, i);
      TotalPrefix(ss, i + 1);
      assert ss[..i + 1] == t + [ss[i]];
      PiecesAppend(p, t, size - Total(t));
      PiecesAppend(p, t, ss[i]);
      PiecesAppend(p, t + [ss[i]], size - Total(t + [ss[i]]));
      assert owned == was + Pieces(p, t)[q := size - Total(t)];
    }

    /** The chunk p of `size` bytes is cut into chunks of the given sizes; the last one takes what is left. */
    method SplitOut(p: nat, size: nat, ss: seq<nat>, ghost was: map<nat, nat>) returns (elems: seq<nat>)
      requires Valid() && p in Owned(av.cs) && p !in was && Owned(av.cs) == was[p := size]
      requires |ss| > 0 && Total(ss) <= size && forall i {:trigger ss[i]} :: 0 <= i < |ss| ==> ChunkSize(ss[i])
      modifies av
      ensures Valid() && |elems| == |ss| && forall i {:trigger elems[i]} :: 0 <= i < |ss| ==> elems[i] == p + Total(ss[..i]) + 16
      ensures CutSoFar(Owned(av.cs), was, p, ss, |ss| - 1, size)
      ensures av.FollowsUse(p) <==> old(av.FollowsUse(p))
    {
      hide Owned, MallocState.Valid, KH.KernelHeap.Valid, Joined, MallocState.FollowsUse, CutSoFar, Total;
      elems := [];
      var q, rest := p, size;
      CutFirst(was, p, ss, size);
      assert ss[..0] == [];
      TotalEmpty();
      for i := 0 to |ss| - 1
        invariant Valid() && q == p + Total(ss[..i]) && rest == size - Total(ss[..i]) && p in Owned(av.cs)
        invariant |elems| == i && forall j {:trigger elems[j]} :: 0 <= j < i ==> elems[j] == p + Total(ss[..j]) + 16
        invariant CutSoFar(Owned(av.cs), was, p, ss, i, size)
        invariant av.FollowsUse(p) <==> old(av.FollowsUse(p))
      {
        elems := elems + [q + 16];
        CutNext(Owned(av.cs), was, p, ss, i, size);
        CutChunk(q, ss[i]);
        q := q + ss[i];
        rest := rest - ss[i];
      }
      elems := elems + [q + 16];
    }

    static lemma TotalEmpty()
      ensures Total([]) == 0
    {
    }

    /** The chunk sizes of the elements. */
    static function ElementSizes(n: nat, sizes: seq<u64>, allSame: bool): (ss: seq<nat>)
      requires if allSame then |sizes| >= 1 else |sizes| == n
      ensures |ss| == n && forall i {:trigger ss[i]} :: 0 <= i < n ==> ss[i] == RawSize(if allSame then sizes[0] else sizes[i])
    {
      seq(n, i requires 0 <= i < n => RawSize(if allSame then sizes[0] else sizes[i]))
    }

    /** The total of the element sizes, computed in 64 bits. */
    static method ContentsSize(n: nat, sizes: seq<u64>, allSame: bool) returns (contents: u64)
      requires if allSame then |sizes| >= 1 else |sizes| == n
      ensures contents == Total(ElementSizes(n, sizes, allSame)) % TWO64
    {
      ghost var ss := ElementSizes(n, sizes, allSame);
      if allSame {
        contents := n * RawSize(sizes[0]) % TWO64;
        EqualTotal(ss, RawSize(sizes[0]));
      } else {
        contents := 0;
        assert ss[..0] == [];
        for i := 0 to n
          invariant contents == Total(ss[..i]) % TWO64
        {
          assert ss[..i + 1][..i] == ss[..i];
          AddModulo(Total(ss[..i]), RawSize(sizes[i]));
          contents := Add64(contents, RawSize(sizes[i]));
        }
        assert ss[..n] == ss;
      }
    }

    static lemma {:induction false} AddModulo(t: nat, x: u64)
      ensures Add64(t % TWO64, x) == (t + x) % TWO64
    {
      var q, r := t / TWO64, t % TWO64;
      assert t == TWO64 * q + r;
      if r + x < TWO64 {
        DivModUnique(t + x, TWO64, q, r + x);
      } else {
        DivModUnique(t + x, TWO64, q + 1, r + x - TWO64);
      }
    }

    static lemma {:induction false} EqualTotal(ss: seq<nat>, x: nat)
      requires forall i {:trigger ss[i]} :: 0 <= i < |ss| ==> ss[i] == x
      ensures Total(ss) == |ss| * x
    {
      if ss != [] {
        EqualTotal(ss[..|ss| - 1], x);
        Distribute(x, |ss|, 1);
      }
    }

    static lemma {:induction false} LegalTotal(ss: seq<nat>)
      requires forall i {:trigger ss[i]} :: 0 <= i < |ss| ==> ChunkSize(ss[i])
      ensures Total(ss) % 16 == 0 && (ss != [] ==> Total(ss) >= 32)
    {
      if ss != [] {
        LegalTotal(ss[..|ss| - 1]);
        WholeSixteens(Total(ss[..|ss| - 1]), ss[|ss| - 1]);
      }
    }

    /** Where the pieces of one aggregate chunk are: from p on, the elements side by side; behind them the
        pointer arraySize, if the caller brought none.  The last piece takes the slop. */
    static ghost predicate Carved(was: map<nat, nat>, now: map<nat, nat>, p: nat, size: nat, ss: seq<nat>, given: bool, arraySize: nat)
    {
      if given then |ss| > 0 && CutSoFar(now, was, p, ss, |ss| - 1, size)
      else
        var a := p + Total(ss);
        && |ss| > 0 && Total(ss) + arraySize <= size && a !in was
        && CutSoFar(now, was[a := size - Total(ss)], p, ss, |ss| - 1, Total(ss))
    }

    method Carve(p: nat, size: nat, ss: seq<nat>, given: bool, arraySize: nat, ghost was: map<nat, nat>) returns (elems: seq<nat>)
      requires Valid() && p in Owned(av.cs) && p !in was && Owned(av.cs) == was[p := size]
      requires |ss| > 0 && Total(ss) + arraySize <= size && forall i {:trigger ss[i]} :: 0 <= i < |ss| ==> ChunkSize(ss[i])
      requires !given ==> ChunkSize(arraySize)
      modifies av
      ensures Valid() && |elems| == |ss| && forall i {:trigger elems[i]} :: 0 <= i < |ss| ==> elems[i] == p + Total(ss[..i]) + 16
      ensures Carved(was, Owned(av.cs), p, size, ss, given, arraySize)
      ensures av.FollowsUse(p) <==> old(av.FollowsUse(p))
    {
      hide Owned, MallocState.Valid, KH.KernelHeap.Valid, Joined, MallocState.FollowsUse, CutSoFar, Total;
      if given {
        elems := SplitOut(p, size, ss, was);
      } else {
        LegalTotal(ss);
        CutChunk(p, Total(ss));
        ghost var was' := was[p + Total(ss) := size - Total(ss)];
        assert Owned(av.cs) == was'[p := Total(ss)];
        elems := SplitOut(p, Total(ss), ss, was');
      }
    }

    /** The code writes PREV_INUSE into the first piece's tag, whatever it was.  That is right only if the
        memory in front is in use. */
    method ForceBit(p: nat)
      requires Valid() && p in Owned(av.cs)
      modifies av
      ensures kernel.Valid() && Owned(av.cs) == Owned(old(av.cs))
      ensures Valid() <==> old(av.FollowsUse(p))
    {
      OwnedIs(p);
      av.ReadTags(av.cs, p);
      hide MallocState.ListsOk, KH.KernelHeap.Valid, Owned;
      if PrevInUse(av.head[p]) {
        assert av.head[p := WithBit(av.head[p])] == av.head;
        av.head := av.head[p := WithBit(av.head[p])];
      } else {
        ghost var b := av.FreeBefore(av.cs, p);
        av.head := av.head[p := WithBit(av.head[p])];
        assert !TagAt(av.cs, av.base, av.head, av.foot, b);
      }
    }

    /** The bytes asked for: all elements and the array, as far as 64 bits hold the sum. */
    static function AggregateBytes(n: nat, sizes: seq<u64>, allSame: bool, given: bool): u64
      requires if allSame then |sizes| >= 1 else |sizes| == n
    {
      Sub64(Add64(Total(ElementSizes(n, sizes, allSame)) % TWO64, ArraySize(n, given)), MALLOC_ALIGN_MASK)
    }

    static function ArraySize(n: nat, given: bool): u64 {
      if given then 0 else RawSize(8 * n % TWO64)
    }

    /** One chunk of `size` bytes at p was cut into adjacent chunks of the given sizes, and one for the array of
        a bytes if the caller brought none; r and the element addresses say where they are. */
    static ghost predicate Independent(was: map<nat, nat>, now: map<nat, nat>, r: Given, elems: seq<nat>, p: nat, size: nat,
                                       ss: seq<nat>, given: bool, a: nat)
    {
      && |elems| == |ss| && (forall i {:trigger elems[i]} :: 0 <= i < |ss| ==> elems[i] == p + Total(ss[..i]) + 16)
      && Total(ss) + a <= size < Total(ss) + a + MINSIZE && p % 16 == 0
      && Carved(was, now, p, size, ss, given, a)
      && r == Allocated(if given then 0 else p + Total(ss) + 16)
    }

    /** Element by element: chunks of their own, side by side, that hold the bytes asked for. */
    static ghost predicate SideBySide(was: map<nat, nat>, now: map<nat, nat>, elems: seq<nat>, bytes: seq<nat>) {
      && |elems| == |bytes|
      && (forall i {:trigger elems[i]} :: 0 <= i < |elems| ==>
            elems[i] >= 16 && elems[i] - 16 in now && elems[i] - 16 !in was && bytes[i] + 8 <= now[elems[i] - 16])
      && (forall i {:trigger Adjacent(now, elems, i)} :: 0 <= i < |elems| - 1 ==> Adjacent(now, elems, i))
    }

    /** Element i + 1 begins where element i ends. */
    static ghost predicate Adjacent(now: map<nat, nat>, elems: seq<nat>, i: nat)
      requires i + 1 < |elems|
    {
      elems[i] >= 16 && elems[i] - 16 in now && elems[i + 1] == elems[i] + now[elems[i] - 16]
    }

    /** The array lies behind the last element, in a chunk of its own with room for all addresses. */
    static ghost predicate ArrayBehind(was: map<nat, nat>, now: map<nat, nat>, elems: seq<nat>, table: nat) {
      && elems != [] && table >= 16 && table - 16 in now && table - 16 !in was && 8 * |elems| + 8 <= now[table - 16]
      && elems[|elems| - 1] >= 16 && elems[|elems| - 1] - 16 in now && table == elems[|elems| - 1] + now[elems[|elems| - 1] - 16]
    }

    /** Every word an element's caller has is 0: the element's chunk, but for its two tags. */
    static ghost predicate ElementsClear(m: map<nat, nat>, now: map<nat, nat>, elems: seq<nat>) {
      forall i: nat, j: nat {:trigger ZeroWord(m, elems[i], j)} ::
        i < |elems| && elems[i] >= 16 && elems[i] - 16 in now && 8 * j + 16 <= now[elems[i] - 16] ==> ZeroWord(m, elems[i], j)
    }

    static ghost predicate Stored(m: map<nat, nat>, d: nat, values: seq<nat>) {
      forall i {:trigger values[i]} :: 0 <= i < |values| ==> Word(m, d + 8 * i) == values[i]
    }

    /** No word changed but those of the array, and in the chunk those that were to be cleared. */
    static ghost predicate WritesWithin(m: map<nat, nat>, m': map<nat, nat>, clear: bool, d: nat, size: nat, table: nat, n: nat) {
      forall a: nat {:trigger Word(m', a)} ::
        !(table <= a < table + 8 * n) && !(clear && d <= a < d + size - 8) ==> Word(m', a) == Word(m, a)
    }

    /** The bytes asked for, element by element. */
    static function Asked(n: nat, sizes: seq<u64>, allSame: bool): (bs: seq<nat>)
      requires if allSame then |sizes| >= 1 else |sizes| == n
      ensures |bs| == n && forall i {:trigger bs[i]} :: 0 <= i < n ==> bs[i] == if allSame then sizes[0] else sizes[i]
    {
      seq(n, i requires 0 <= i < n => if allSame then sizes[0] else sizes[i])
    }

    static lemma {:induction false} PieceAt(p: nat, ss: seq<nat>, i: nat)
      requires i < |ss| && forall j {:trigger ss[j]} :: 0 <= j < |ss| ==> ss[j] >= 32
      ensures p + Total(ss[..i]) in Pieces(p, ss) && Pieces(p, ss)[p + Total(ss[..i])] == ss[i]
    {
      var l := |ss| - 1;
      if i < l {
        var t := ss[..l];
        PieceAt(p, t, i);
        assert t[..i] == ss[..i];
        TotalPrefix(t, i);
        assert t[..i + 1] == ss[..i + 1];
      }
    }

    /** What cutting up comes to, element by element. */
    static lemma {:induction false} ElementsAre(was: map<nat, nat>, now: map<nat, nat>, r: Given, elems: seq<nat>, p: nat, size: nat,
                                                ss: seq<nat>, given: bool, a: nat, i: nat)
      requires Independent(was, now, r, elems, p, size, ss, given, a) && i < |ss|
      requires forall j {:trigger ss[j]} :: 0 <= j < |ss| ==> ss[j] >= 32
      ensures elems[i] >= 16 && elems[i] - 16 in now && elems[i] - 16 !in was && ss[i] <= now[elems[i] - 16]
      ensures i + 1 < |ss| ==> elems[i + 1] == elems[i] + now[elems[i] - 16]
      ensures i + 1 == |ss| ==> p + (if given then size else Total(ss)) + 16 == elems[i] + now[elems[i] - 16]
    {
      var l := |ss| - 1;
      var whole := if given then size else Total(ss);
      var qs := ss[..l] + [whole - Total(ss[..l])];
      TotalPrefix(ss, l);
      assert ss[..l + 1] == ss;
      PieceAt(p, qs, i);
      assert qs[..i] == ss[..i];
      assert p + Total(ss[..i]) in Pieces(p, qs).Keys;
      if i < l {
        TotalPrefix(ss, i);
      }
    }

    static lemma {:induction false} ArrayIs(was: map<nat, nat>, now: map<nat, nat>, r: Given, elems: seq<nat>, p: nat, size: nat,
                                            ss: seq<nat>, a: nat)
      requires Independent(was, now, r, elems, p, size, ss, false, a)
      ensures r == Allocated(p + Total(ss) + 16) && r.mem - 16 in now && r.mem - 16 !in was && a <= now[r.mem - 16]
    {
    }

    static lemma {:induction false} ElementsStand(was: map<nat, nat>, now: map<nat, nat>, r: Given, elems: seq<nat>, p: nat, size: nat,
                                                  n: nat, sizes: seq<u64>, allSame: bool, given: bool)
      requires n > 0 && (if allSame then |sizes| >= 1 else |sizes| == n) && Exact(n, sizes, allSame, given)
      requires Independent(was, now, r, elems, p, size, ElementSizes(n, sizes, allSame), given, ArraySize(n, given))
      ensures SideBySide(was, now, elems, Asked(n, sizes, allSame))
      ensures !given ==> r.Allocated? && ArrayBehind(was, now, elems, r.mem)
    {
      hide Independent, Exact, ArraySize;
      LegalElements(n, sizes, allSame);
      ExactHolds(n, sizes, allSame, given);
      AllStand(was, now, r, elems, p, size, ElementSizes(n, sizes, allSame), Asked(n, sizes, allSame), given, ArraySize(n, given));
      if !given {
        ArrayStands(was, now, r, elems, p, size, ElementSizes(n, sizes, allSame), ArraySize(n, given));
      }
    }

    static lemma {:induction false} AllStand(was: map<nat, nat>, now: map<nat, nat>, r: Given, elems: seq<nat>, p: nat, size: nat,
                                             ss: seq<nat>, bytes: seq<nat>, given: bool, a: nat)
      requires Independent(was, now, r, elems, p, size, ss, given, a) && |bytes| == |ss|
      requires forall j {:trigger ss[j]} :: 0 <= j < |ss| ==> ss[j] >= 32
      requires forall j {:trigger bytes[j]} :: 0 <= j < |ss| ==> bytes[j] + 8 <= ss[j]
      ensures SideBySide(was, now, elems, bytes)
    {
      hide Independent, Total;
      SameLength(was, now, r, elems, p, size, ss, given, a);
      forall i | 0 <= i < |ss|
        ensures elems[i] >= 16 && elems[i] - 16 in now && elems[i] - 16 !in was && bytes[i] + 8 <= now[elems[i] - 16]
        ensures i + 1 < |ss| ==> Adjacent(now, elems, i)
      {
        ElementsAre(was, now, r, elems, p, size, ss, given, a, i);
      }
    }

    static lemma {:induction false} ArrayStands(was: map<nat, nat>, now: map<nat, nat>, r: Given, elems: seq<nat>, p: nat, size: nat,
                                                ss: seq<nat>, a: nat)
      requires Independent(was, now, r, elems, p, size, ss, false, a) && |ss| > 0 && 8 * |ss| + 8 <= a
      requires forall j {:trigger ss[j]} :: 0 <= j < |ss| ==> ss[j] >= 32
      ensures r.Allocated? && ArrayBehind(was, now, elems, r.mem)
    {
      hide Independent, Total;
      SameLength(was, now, r, elems, p, size, ss, false, a);
      ElementsAre(was, now, r, elems, p, size, ss, false, a, |ss| - 1);
      ArrayIs(was, now, r, elems, p, size, ss, a);
    }

    static lemma {:induction false} ExactHolds(n: nat, sizes: seq<u64>, allSame: bool, given: bool)
      requires n > 0 && (if allSame then |sizes| >= 1 else |sizes| == n) && Exact(n, sizes, allSame, given)
      ensures var bytes, ss := Asked(n, sizes, allSame), ElementSizes(n, sizes, allSame);
        forall j {:trigger bytes[j]} :: 0 <= j < n ==> bytes[j] + 8 <= ss[j]
      ensures !given ==> 8 * n + 8 <= ArraySize(n, given)
    {
      hide RawSize, Total;
    }

    static lemma {:induction false} LegalElements(n: nat, sizes: seq<u64>, allSame: bool)
      requires if allSame then |sizes| >= 1 else |sizes| == n
      ensures forall j {:trigger ElementSizes(n, sizes, allSame)[j]} :: 0 <= j < n ==> ElementSizes(n, sizes, allSame)[j] >= 32
    {
      hide RawSize;
      forall j | 0 <= j < n
        ensures ElementSizes(n, sizes, allSame)[j] >= 32
      {
        RawSizeIs(if allSame then sizes[0] else sizes[j]);
      }
    }

    static lemma SameLength(was: map<nat, nat>, now: map<nat, nat>, r: Given, elems: seq<nat>, p: nat, size: nat,
                            ss: seq<nat>, given: bool, a: nat)
      requires Independent(was, now, r, elems, p, size, ss, given, a)
      ensures |elems| == |ss| && Total(ss) + a <= size && r == Allocated(if given then 0 else p + Total(ss) + 16)
    {
    }

    static lemma ElementAt(was: map<nat, nat>, now: map<nat, nat>, r: Given, elems: seq<nat>, p: nat, size: nat,
                           ss: seq<nat>, given: bool, a: nat, i: nat)
      requires Independent(was, now, r, elems, p, size, ss, given, a) && i < |ss|
      ensures i < |elems| && elems[i] == p + Total(ss[..i]) + 16
    {
    }

    static lemma {:induction false} TotalMonotone(ss: seq<nat>, i: nat, j: nat)
      requires i <= j <= |ss| && forall k {:trigger ss[k]} :: 0 <= k < |ss| ==> ss[k] >= 32
      ensures Total(ss[..i]) <= Total(ss[..j])
    {
      if i < j {
        TotalMonotone(ss, i, j - 1);
        TotalPrefix(ss, j - 1);
      }
    }

    static lemma ShownWrites(m: map<nat, nat>, m': map<nat, nat>, d: nat, size: nat, a: nat, clear: bool, e: nat, values: seq<nat>,
                             elems: seq<nat>)
      requires Shown(m, m', d, Cleared(clear, size, a), e, values, elems) && size >= 8
      ensures Stored(m', e, values) && WritesWithin(m, m', clear, d, size, e, |values|)
    {
    }

    /** Word j of element i is one of those that were cleared. */
    static lemma {:induction false} ClearAt(m: map<nat, nat>, m': map<nat, nat>, was: map<nat, nat>, now: map<nat, nat>, r: Given,
                                            elems: seq<nat>, p: nat, size: nat, ss: seq<nat>, given: bool, a: nat, i: nat, j: nat)
      requires Independent(was, now, r, elems, p, size, ss, given, a) && size % 16 == 0 && a % 16 == 0
      requires forall k {:trigger ss[k]} :: 0 <= k < |ss| ==> ChunkSize(ss[k])
      requires given ==> a == 0
      requires Shown(m, m', p + 16, Cleared(true, size, a), r.mem, if given then [] else elems, elems)
      requires i < |elems| && elems[i] >= 16 && elems[i] - 16 in now && 8 * j + 16 <= now[elems[i] - 16]
      ensures ZeroWord(m', elems[i], j)
    {
      hide Independent, Total, ZeroWord, Shown, Cleared;
      SameLength(was, now, r, elems, p, size, ss, given, a);
      ElementAt(was, now, r, elems, p, size, ss, given, a, i);
      ElementsAre(was, now, r, elems, p, size, ss, given, a, i);
      ElementEnds(was, now, r, elems, p, size, ss, given, a, i);
      LegalTotal(ss[..i]);
      var whole := if given then size else Total(ss);
      var w := elems[i] + 8 * j;
      var k := Total(ss[..i]) / 8 + j;
      WordsCleared(Total(ss[..i]), j, whole, size, a);
      forall x | 0 <= x < |elems|
        ensures elems[x] != w + 8
      {
        ElementAt(was, now, r, elems, p, size, ss, given, a, x);
        if x <= i {
          TotalMonotone(ss, x, i);
        } else {
          TotalMonotone(ss, i + 1, x);
          ElementAt(was, now, r, elems, p, size, ss, given, a, i + 1);
        }
      }
      ClearWord(m, m', p + 16, Cleared(true, size, a), r.mem, if given then [] else elems, elems, k);
      assert p + 16 + 8 * k == w;
      SameWord(m', p + 16, k, elems[i], j);
    }

    static lemma ClearWord(m: map<nat, nat>, m': map<nat, nat>, d: nat, n: nat, e: nat, values: seq<nat>, elems: seq<nat>, k: nat)
      requires Shown(m, m', d, n, e, values, elems) && k < n && !(e <= d + 8 * k < e + 8 * |values|)
      requires d + 8 * k + 8 != e && forall x :: 0 <= x < |elems| ==> elems[x] != d + 8 * k + 8
      ensures ZeroWord(m', d, k)
    {
    }

    static lemma SameWord(m: map<nat, nat>, d: nat, k: nat, e: nat, j: nat)
      requires d + 8 * k == e + 8 * j && ZeroWord(m, d, k)
      ensures ZeroWord(m, e, j)
    {
    }

    static lemma {:induction false} WordsCleared(b: nat, j: nat, whole: nat, size: nat, a: nat)
      requires b % 16 == 0 && size % 16 == 0 && a % 16 == 0 && b + 8 * j + 16 <= whole && whole + a <= size
      ensures 8 * (b / 8 + j) == b + 8 * j && b / 8 + j < Cleared(true, size, a)
    {
      var q, x, y := b / 16, size / 16, a / 16;
      assert b == 16 * q && size == 16 * x && a == 16 * y;
      DivModUnique(b, 8, 2 * q, 0);
      DivModUnique(size - a, 8, 2 * (x - y), 0);
    }

    /** The elements end where the array begins, or with the chunk. */
    static lemma {:induction false} ElementEnds(was: map<nat, nat>, now: map<nat, nat>, r: Given, elems: seq<nat>, p: nat, size: nat,
                                                ss: seq<nat>, given: bool, a: nat, i: nat)
      requires Independent(was, now, r, elems, p, size, ss, given, a) && i < |ss|
      requires forall j {:trigger ss[j]} :: 0 <= j < |ss| ==> ss[j] >= 32
      ensures elems[i] >= 16 && elems[i] - 16 in now && elems[i] + now[elems[i] - 16] <= p + (if given then size else Total(ss)) + 16
    {
      ElementsAre(was, now, r, elems, p, size, ss, given, a, i);
      if i + 1 < |ss| {
        TotalMonotone(ss, i + 1, |ss|);
        assert ss[..|ss|] == ss;
      }
    }

    /** What was cleared, element by element. */
    static lemma {:induction false} ShownIsClear(m: map<nat, nat>, m': map<nat, nat>, was: map<nat, nat>, now: map<nat, nat>, r: Given,
                                                 elems: seq<nat>, p: nat, size: nat, ss: seq<nat>, given: bool, a: nat, clear: bool)
      requires Independent(was, now, r, elems, p, size, ss, given, a) && r.Allocated? && size >= 32 && size % 16 == 0 && a % 16 == 0
      requires forall j {:trigger ss[j]} :: 0 <= j < |ss| ==> ChunkSize(ss[j])
      requires given ==> a == 0
      requires Shown(m, m', p + 16, Cleared(clear, size, a), r.mem, if given then [] else elems, elems)
      ensures clear ==> ElementsClear(m', now, elems)
      ensures !given ==> Stored(m', r.mem, elems)
      ensures WritesWithin(m, m', clear, p + 16, size, r.mem, if given then 0 else |elems|)
    {
      hide Independent, Total, Shown, Cleared, ZeroWord;
      ShownWrites(m, m', p + 16, size, a, clear, r.mem, if given then [] else elems, elems);
      if clear {
        forall i: nat, j: nat | i < |elems| && elems[i] >= 16 && elems[i] - 16 in now && 8 * j + 16 <= now[elems[i] - 16]
          ensures ZeroWord(m', elems[i], j)
        {
          ClearAt(m, m', was, now, r, elems, p, size, ss, given, a, i, j);
        }
      }
    }

    /** `independent_calloc` and `independent_comalloc`: one chunk for all elements, and for the array of
        their addresses if the caller brings none, cut into separately freeable chunks.  mmap is switched off
        meanwhile.  `p` and `size` are the aggregate chunk. */
    method IAlloc(n: u64, sizes: seq<u64>, allSame: bool, clear: bool, given: bool)
      returns (r: Given, elems: seq<nat>, ghost p: nat, ghost size: nat)
      requires Valid() && (if allSame then |sizes| >= 1 else |sizes| == n)
      modifies this`nMmaps, this`nMmapsMax, this`mapped, this`data, av, kernel, kernel.pma, kernel.mapper, kernel.vma, kernel.vma.pool.repr
      ensures kernel.Valid() && fresh(kernel.vma.pool.repr - old(kernel.vma.pool.repr))
      ensures nMmapsMax == old(nMmapsMax) && mapped == old(mapped)
      ensures n == 0 ==> Valid() && elems == [] && data == old(data)
      ensures n == 0 && !given ==> Served(Owned(old(av.cs)), Owned(av.cs), r, 32)
      ensures n > 0 && !r.Allocated? ==> Valid() && data == old(data) && (!r.Wrapped? ==> Owned(av.cs) == Owned(old(av.cs)))
      ensures n > 0 && r.Allocated? ==>
        var ss, a := ElementSizes(n, sizes, allSame), ArraySize(n, given);
        && Independent(Owned(old(av.cs)), Owned(av.cs), r, elems, p, size, ss, given, a)
        && SideBySide(Owned(old(av.cs)), Owned(av.cs), elems, Asked(n, sizes, allSame))
        && (!given ==> ArrayBehind(Owned(old(av.cs)), Owned(av.cs), elems, r.mem) && Stored(data, r.mem, elems))
        && (clear ==> ElementsClear(data, Owned(av.cs), elems))
        && WritesWithin(old(data), data, clear, p + 16, size, r.mem, if given then 0 else |elems|)
        // The first tag is right unless the chunk comes from a fastbin and stands behind free memory.
        && (Valid() <==> !old(av.Recycled(Total(ss) + a)))
      // Sums are 64-bit and the element sizes are not checked.
      ensures n > 0 ==>
        RequestOutcome(r, !Exact(n, sizes, allSame, given), AggregateBytes(n, sizes, allSame, given),
                       old(View()), old(Break()), old(Maps()).(allowed := false), PM.Exhausted(kernel.pma.blocks))
    {
      hide Owned, KH.KernelHeap.Valid, MallocState.Valid, Joined, Independent, PM.Exhausted, MappedFor, Exact, Total, MallocOutcome;
      hide SideBySide, ArrayBehind, Stored, WritesWithin, ElementsClear, MallocState.Recycled, RequestOutcome, FitsBest;
      elems, p, size := [], 0, 0;
      if n == 0 {
        if given {
          return Allocated(0), elems, p, size;
        }
        r := Malloc(0);
        return;
      }
      r, elems, p, size := IAllocSome(n, sizes, allSame, clear, given);
    }

    method IAllocSome(n: u64, sizes: seq<u64>, allSame: bool, clear: bool, given: bool)
      returns (r: Given, elems: seq<nat>, ghost p: nat, ghost size: nat)
      requires Valid() && n > 0 && (if allSame then |sizes| >= 1 else |sizes| == n)
      modifies this`nMmaps, this`nMmapsMax, this`mapped, this`data, av, kernel, kernel.pma, kernel.mapper, kernel.vma, kernel.vma.pool.repr
      ensures kernel.Valid() && fresh(kernel.vma.pool.repr - old(kernel.vma.pool.repr))
      ensures nMmapsMax == old(nMmapsMax) && mapped == old(mapped)
      ensures !r.Allocated? ==> Valid() && data == old(data) && (!r.Wrapped? ==> Owned(av.cs) == Owned(old(av.cs)))
      ensures r.Allocated? ==>
        var ss, a := ElementSizes(n, sizes, allSame), ArraySize(n, given);
        && Independent(Owned(old(av.cs)), Owned(av.cs), r, elems, p, size, ss, given, a)
        && SideBySide(Owned(old(av.cs)), Owned(av.cs), elems, Asked(n, sizes, allSame))
        && (!given ==> ArrayBehind(Owned(old(av.cs)), Owned(av.cs), elems, r.mem) && Stored(data, r.mem, elems))
        && (clear ==> ElementsClear(data, Owned(av.cs), elems))
        && WritesWithin(old(data), data, clear, p + 16, size, r.mem, if given then 0 else |elems|)
        && (Valid() <==> !old(av.Recycled(Total(ss) + a)))
      ensures RequestOutcome(r, !Exact(n, sizes, allSame, given), AggregateBytes(n, sizes, allSame, given),
                             old(View()), old(Break()), old(Maps()).(allowed := false), PM.Exhausted(kernel.pma.blocks))
    {
      hide Owned, KH.KernelHeap.Valid, MallocState.Valid, Joined, Independent, PM.Exhausted, MappedFor, Exact, Total, MallocOutcome;
      hide SideBySide, ArrayBehind, Stored, WritesWithin, ElementsClear, MallocState.Recycled, RequestOutcome, HasNew;
      elems, p, size := [], 0, 0;
      ghost var v, s, m := View(), Break(), Maps().(allowed := false);
      var a := ArraySize(n, given);
      var contents := ContentsSize(n, sizes, allSame);
      r := MallocInArena(Sub64(Add64(contents, a), MALLOC_ALIGN_MASK));
      ghost var i := r;
      if !Exact(n, sizes, allSame, given) {
        if r.Allocated? {
          r := Wrapped;
        }
        WrapsOnce(r, i, AggregateBytes(n, sizes, allSame, given), v, s, m, PM.Exhausted(kernel.pma.blocks));
        return;
      }
      AggregateSize(n, sizes, allSame, given, a);
      TotalFits(Total(ElementSizes(n, sizes, allSame)), a);
      if r.Allocated? {
        r, elems, p, size := CarveAndFill(r.mem - 16, ElementSizes(n, sizes, allSame), given, a, clear, Owned(old(av.cs)));
        ElementsStand(Owned(old(av.cs)), Owned(av.cs), r, elems, p, size, n, sizes, allSame, given);
      }
      SameOutcome(r, i, AggregateBytes(n, sizes, allSame, given), v, s, m, PM.Exhausted(kernel.pma.blocks));
    }

    /** The words to clear: those of a chunk of `size` bytes, but for the array of a bytes. */
    static function Cleared(clear: bool, size: nat, a: nat): nat {
      if clear && size >= a + 8 then (size - a) / 8 - 1 else 0
    }

    /** Clear the chunk if asked to, cut it up, and store the addresses. */
    method CarveAndFill(q: nat, ss: seq<nat>, given: bool, a: nat, clear: bool, ghost was: map<nat, nat>)
      returns (r: Given, elems: seq<nat>, ghost p: nat, ghost size: nat)
      requires Valid() && q > 0 && HasNew(was, Owned(av.cs), q, Total(ss) + a)
      requires |ss| > 0 && (forall i {:trigger ss[i]} :: 0 <= i < |ss| ==> ChunkSize(ss[i])) && (if given then a == 0 else ChunkSize(a))
      modifies this`data, av
      ensures kernel.Valid() && r.Allocated? && Independent(was, Owned(av.cs), r, elems, p, size, ss, given, a)
      ensures clear ==> ElementsClear(data, Owned(av.cs), elems)
      ensures !given ==> Stored(data, r.mem, elems)
      ensures WritesWithin(old(data), data, clear, p + 16, size, r.mem, if given then 0 else |elems|)
      ensures Valid() <==> old(av.FollowsUse(q))
    {
      hide Owned, KH.KernelHeap.Valid, MallocState.Valid, Valid, Total, MallocState.FollowsUse, Filled, Shown, Independent, Cleared;
      hide ElementsClear, Stored, WritesWithin;
      var bytes := ChunkLength(q);
      r, elems, p, size := CarveAggregate(q, ss, given, a, was);
      Fill(q + 16, Cleared(clear, bytes, a), r.mem, if given then [] else elems);
      FilledIsShown(old(data), data, q + 16, Cleared(clear, bytes, a), r.mem, if given then [] else elems, elems);
      ShownIsClear(old(data), data, was, Owned(av.cs), r, elems, p, size, ss, given, a, clear);
    }

    static lemma TotalFits(t: nat, a: nat)
      requires t + a < TWO64
      ensures t % TWO64 == t && Add64(t, a) == t + a
    {
      SmallMod(t, TWO64);
    }

    /** `chunksize` of a chunk in use. */
    method ChunkLength(p: nat) returns (n: nat)
      requires Valid() && p in Owned(av.cs)
      ensures n == Owned(av.cs)[p]
      ensures n % 16 == 0 && n >= 32
    {
      OwnedIs(p);
      n := SizeBits(av.head[p]);
    }

    /** What is left in the callers' words: n words of 0 at d, then these values at e; nothing else changed. */
    static ghost predicate Filled(m: map<nat, nat>, m': map<nat, nat>, d: nat, n: nat, e: nat, values: seq<nat>) {
      && (forall i {:trigger values[i]} :: 0 <= i < |values| ==> Word(m', e + 8 * i) == values[i])
      && (forall k: nat {:trigger ZeroWord(m', d, k)} :: k < n && !(e <= d + 8 * k < e + 8 * |values|) ==> ZeroWord(m', d, k))
      && (forall a: nat {:trigger Word(m', a)} ::
            !(d <= a < d + 8 * n) && !(e <= a < e + 8 * |values|) ==> Word(m', a) == Word(m, a))
    }

    /** The same of the words that are callers': the size words of the pieces lie in between. */
    static ghost predicate Shown(m: map<nat, nat>, m': map<nat, nat>, d: nat, n: nat, e: nat, values: seq<nat>, elems: seq<nat>) {
      && (forall i {:trigger values[i]} :: 0 <= i < |values| ==> Word(m', e + 8 * i) == values[i])
      && (forall k: nat {:trigger ZeroWord(m', d, k)} ::
            k < n && !(e <= d + 8 * k < e + 8 * |values|) && !HoldsSize(elems, e, d + 8 * k) ==> ZeroWord(m', d, k))
      && (forall a: nat {:trigger Word(m', a)} ::
            !(d <= a < d + 8 * n) && !(e <= a < e + 8 * |values|) ==> Word(m', a) == Word(m, a))
    }

    /** The word at a is the size word of a piece, or of the array at e. */
    static predicate HoldsSize(elems: seq<nat>, e: nat, a: nat) {
      a + 8 == e || a + 8 in elems
    }

    static lemma FilledIsShown(m: map<nat, nat>, m': map<nat, nat>, d: nat, n: nat, e: nat, values: seq<nat>, elems: seq<nat>)
      requires Filled(m, m', d, n, e, values)
      ensures Shown(m, m', d, n, e, values, elems)
    {
    }

    static predicate ZeroWord(m: map<nat, nat>, d: nat, k: nat) {
      Word(m, d + 8 * k) == 0
    }

    /** Clear n words at d, then store the values at e. */
    method Fill(d: nat, n: nat, e: nat, values: seq<nat>)
      requires values != [] ==> (e - d) % 8 == 0
      modifies this`data
      ensures Filled(old(data), data, d, n, e, values)
    {
      for k := 0 to n
        invariant Filled(old(data), data, d, k, e, [])
      {
        ghost var m := data;
        data := data[d + 8 * k := 0];
        forall j: nat | j < k + 1
          ensures ZeroWord(data, d, j)
        {
          assert j < k ==> ZeroWord(m, d, j);
        }
        forall a: nat | !(d <= a < d + 8 * (k + 1))
          ensures Word(data, a) == Word(old(data), a)
        {
          assert Word(m, a) == Word(old(data), a);
        }
      }
      for i := 0 to |values|
        invariant Filled(old(data), data, d, n, e, values[..i])
      {
        ghost var m := data;
        data := data[e + 8 * i := values[i]];
        StoreOne(old(data), m, data, d, n, e, values, i);
      }
      assert values[..|values|] == values;
    }

    static lemma {:induction false} StoreOne(m0: map<nat, nat>, m: map<nat, nat>, m': map<nat, nat>, d: nat, n: nat, e: nat, values: seq<nat>, i: nat)
      requires i < |values| && Filled(m0, m, d, n, e, values[..i]) && m' == m[e + 8 * i := values[i]]
      ensures Filled(m0, m', d, n, e, values[..i + 1])
    {
      forall j | 0 <= j < i + 1
        ensures Word(m', e + 8 * j) == values[..i + 1][j]
      {
        assert j < i ==> Word(m, e + 8 * j) == values[..i][j];
      }
      forall k: nat | k < n && !(e <= d + 8 * k < e + 8 * (i + 1))
        ensures ZeroWord(m', d, k)
      {
        assert ZeroWord(m, d, k);
      }
      forall a: nat | !(d <= a < d + 8 * n) && !(e <= a < e + 8 * (i + 1))
        ensures Word(m', a) == Word(m0, a)
      {
        assert Word(m, a) == Word(m0, a);
      }
    }

    /** `malloc` with mmap switched off. */
    method MallocInArena(bytes: u64) returns (r: Given)
      requires Valid()
      modifies this`nMmaps, this`nMmapsMax, this`mapped, av, kernel, kernel.pma, kernel.mapper, kernel.vma, kernel.vma.pool.repr
      ensures Valid() && fresh(kernel.vma.pool.repr - old(kernel.vma.pool.repr)) && data == old(data)
      ensures nMmapsMax == old(nMmapsMax) && mapped == old(mapped) && !r.Direct?
      ensures !r.Allocated? ==> Owned(av.cs) == Owned(old(av.cs))
      ensures r.Allocated? ==> !OutOfRange(bytes) && r.mem > 16 && HasNew(Owned(old(av.cs)), Owned(av.cs), r.mem - 16, Request2Size(bytes))
      ensures r.Allocated? ==> (av.FollowsUse(r.mem - 16) <==> !old(av.Recycled(Request2Size(bytes))))
      ensures OutOfRange(bytes) ==> r.Null?
      ensures !OutOfRange(bytes) ==>
        ChunkSize(Request2Size(bytes)) && Request2Size(bytes) + MINSIZE < TWO64 &&
        MallocOutcome(r, Request2Size(bytes), old(View()), old(Break()), old(Maps()).(allowed := false), PM.Exhausted(kernel.pma.blocks))
      ensures !r.Wrapped? && !r.Hangs? && (r.Overrun? ==> bytes + 40 >= TWO32)
    {
      hide Owned, KH.KernelHeap.Valid, MallocState.Valid, PM.Exhausted, MappedFor, HasNew;
      var mmx := nMmapsMax;
      nMmapsMax := 0;
      r := Malloc(bytes);
      nMmapsMax := mmx;
    }

    /** The sizes as computed are enough for the elements and for the array, and their sum does not wrap. */
    static predicate Exact(n: nat, sizes: seq<u64>, allSame: bool, given: bool)
      requires if allSame then |sizes| >= 1 else |sizes| == n
    {
      && (forall i {:trigger sizes[i]} :: 0 <= i < |sizes| && (allSame ==> i == 0) ==> sizes[i] + 8 <= RawSize(sizes[i]))
      && (given || 8 * n + 8 <= RawSize(8 * n % TWO64))
      && Total(ElementSizes(n, sizes, allSame)) + ArraySize(n, given) < TWO64
    }

    /** `request2size` is enough exactly for requests that leave room for a tag and for rounding up. */
    static lemma {:induction false} RawSizeHoldsIff(req: u64)
      ensures req + 8 <= RawSize(req) <==> req + 23 < TWO64
    {
    }

    static lemma {:induction false} AggregateSize(n: nat, sizes: seq<u64>, allSame: bool, given: bool, a: nat)
      requires n > 0 && (if allSame then |sizes| >= 1 else |sizes| == n) && Exact(n, sizes, allSame, given)
      requires a == if given then 0 else RawSize(8 * n % TWO64)
      ensures var t := Total(ElementSizes(n, sizes, allSame)) + a;
        && ChunkSize(t) && t < TWO64 && (!given ==> ChunkSize(a)) && a <= 8 * n + 32
        && (t < TWO64 - 48 ==> !OutOfRange(t - 15) && Request2Size(t - 15) == t)
        && (t >= TWO64 - 48 ==> OutOfRange(t - 15))
      ensures forall i {:trigger ElementSizes(n, sizes, allSame)[i]} :: 0 <= i < n ==> ChunkSize(ElementSizes(n, sizes, allSame)[i])
    {
      var ss := ElementSizes(n, sizes, allSame);
      forall i | 0 <= i < n
        ensures ChunkSize(ss[i])
      {
        RawSizeIs(if allSame then sizes[0] else sizes[i]);
      }
      LegalTotal(ss);
      RawSizeIs(8 * n % TWO64);
      WholeSixteens(Total(ss), a);
      if Total(ss) + a < TWO64 - 48 {
        RequestOfSize(Total(ss) + a);
      }
    }

    /** Cut up the chunk that the nested `malloc` returned, then write its tag as the code does. */
    method CarveAggregate(q: nat, ss: seq<nat>, given: bool, a: nat, ghost was: map<nat, nat>)
      returns (r: Given, elems: seq<nat>, ghost p: nat, ghost size: nat)
      requires Valid() && q > 0 && HasNew(was, Owned(av.cs), q, Total(ss) + a)
      requires |ss| > 0 && (forall i {:trigger ss[i]} :: 0 <= i < |ss| ==> ChunkSize(ss[i])) && (!given ==> ChunkSize(a))
      modifies av
      ensures kernel.Valid() && p == q && size == Owned(old(av.cs))[q]
      ensures r.Allocated? && Independent(was, Owned(av.cs), r, elems, p, size, ss, given, a)
      ensures !given ==> (r.mem - (q + 16)) % 8 == 0
      ensures Valid() <==> old(av.FollowsUse(p))
    {
      hide Owned, KH.KernelHeap.Valid, MallocState.Valid, Joined, Total, MallocState.FollowsUse, CutSoFar, TagsOk, Carved;
      OwnedIs(q);
      p := q;
      size := Owned(av.cs)[q];
      elems := Carve(q, SizeBits(av.head[q]), ss, given, a, was);
      FirstPiece(was, Owned(av.cs), q, size, ss, given, a);
      ForceBit(q);
      r := Allocated(if given then 0 else q + TotalOf(ss) + 16);
      WordsApart(q, ss);
    }

    static lemma {:induction false} WordsApart(q: nat, ss: seq<nat>)
      requires forall i {:trigger ss[i]} :: 0 <= i < |ss| ==> ChunkSize(ss[i])
      ensures (q + Total(ss) + 16 - (q + 16)) % 8 == 0
    {
      LegalTotal(ss);
      DivModUnique(Total(ss), 8, 2 * (Total(ss) / 16), 0);
    }

    static function TotalOf(ss: seq<nat>): nat {
      Total(ss)
    }

    static lemma FirstPiece(was: map<nat, nat>, now: map<nat, nat>, p: nat, size: nat, ss: seq<nat>, given: bool, a: nat)
      requires Carved(was, now, p, size, ss, given, a)
      ensures p in now
    {
      var n := |ss| - 1;
      FirstOfPieces(p, ss[..n] + [(if given then size else Total(ss)) - Total(ss[..n])]);
    }

    static lemma {:induction false} FirstOfPieces(p: nat, ss: seq<nat>)
      requires ss != []
      ensures p in Pieces(p, ss)
    {
      if |ss| > 1 {
        FirstOfPieces(p, ss[..|ss| - 1]);
      }
    }

    // ---------- Who may write where ----------

    /** A caller's payload, from 16 bytes behind its chunk's address to 8 bytes into the next chunk, meets no
        size word, and neither payload, links nor footer of any other chunk. */
    lemma {:induction false} PayloadApart(p: nat, q: nat)
      requires av.Valid() && p in Owned(av.cs) && q in av.cs
      ensures q + 16 <= p + 16 || p + Owned(av.cs)[p] + 8 <= q + 8
      ensures q != p ==> q + av.cs[q].size + 8 <= p + 16 || p + Owned(av.cs)[p] + 8 <= q + 8
    {
      OwnedIs(p);
      assert p < q ==> Before(av.cs, p, q);
      assert q < p ==> Before(av.cs, q, p);
    }

    // ---------- What the memory rests on ----------

    /** Every byte of the arena lies on a live page of the range that `sbrk` handed out. */
    lemma {:induction false} ArenaIsBacked(x: nat)
      requires Valid() && av.top != 0 && av.base <= x < av.end
      ensures kernel.LiveByte(x) && kernel.heapPage <= (x - kernel.vma.base) / 4096 < kernel.topPage
      ensures KH.SbrkCovers(kernel.log, (x - kernel.vma.base) / 4096)
    {
      var q := (x - kernel.vma.base) / 4096;
      KH.ConsecutiveCovers(kernel.log, kernel.heapPage, kernel.topPage, q);
      assert KH.Covered(kernel.log, q);
    }

    /** A caller's bytes are in the arena. */
    lemma {:induction false} PayloadInArena(p: nat, x: nat)
      requires av.Valid() && p in Owned(av.cs) && p + 16 <= x < p + Owned(av.cs)[p] + 8
      ensures av.top != 0 && av.base <= x < av.end
    {
      OwnedIs(p);
      av.ReadTags(av.cs, p);
      av.ReadTags(av.cs, p + av.cs[p].size);
    }

    /** Byte x is in a caller's hands: in a chunk, or in a range that `mmap` returned. */
    ghost predicate HoldsByte(h: Holder, x: nat)
      reads av, kernel`log, kernel.vma`base
    {
      match h
      case Payload(p) => p in Owned(av.cs) && p + 16 <= x < p + Owned(av.cs)[p] + 8
      case Region(i) =>
        i < |kernel.log| && !kernel.log[i].fromSbrk
        && kernel.At(kernel.log[i].page) <= x < kernel.At(kernel.log[i].page + kernel.log[i].n)
    }

    /** The page of a byte that somebody holds: live, and inside what `sbrk` handed out, or inside one range. */
    lemma {:induction false} HeldBytesAreLive(h: Holder, x: nat)
      requires Valid() && HoldsByte(h, x)
      ensures kernel.LiveByte(x)
      ensures h.Payload? ==> KH.SbrkCovers(kernel.log, (x - kernel.vma.base) / 4096)
      ensures h.Region? ==> h.i < |kernel.log| && kernel.log[h.i].Has((x - kernel.vma.base) / 4096)
    {
      hide KH.KernelHeap.Valid, MallocState.Valid, KH.KernelHeap.LiveByte;
      match h
      case Payload(p) =>
        PayloadInArena(p, x);
        ArenaIsBacked(x);
      case Region(i) =>
        RegionIsLive(i, x);
    }

    lemma {:induction false} RegionIsLive(i: nat, x: nat)
      requires Valid() && i < |kernel.log| && kernel.At(kernel.log[i].page) <= x < kernel.At(kernel.log[i].page + kernel.log[i].n)
      ensures kernel.LiveByte(x) && kernel.log[i].Has((x - kernel.vma.base) / 4096)
    {
      hide MallocState.Valid, KH.Consecutive;
      var q := (x - kernel.vma.base) / 4096;
      assert kernel.log[i].Has(q);
      assert KH.Covered(kernel.log, q);
      assert kernel.BackedAt(q);
    }

    /** What two callers hold is never the same byte of physical memory: through chunks, mapped ranges, pages,
        page tables and frames down to what the processor addresses. */
    lemma {:induction false} CallersShareNoMemory(h: Holder, g: Holder, x: nat, y: nat)
      requires Valid() && HoldsByte(h, x) && HoldsByte(g, y) && h != g
      ensures kernel.LiveByte(x) && kernel.LiveByte(y) && kernel.Physical(x) != kernel.Physical(y)
    {
      HeldBytesAreLive(h, x);
      HeldBytesAreLive(g, y);
      HeldBytesDiffer(h, g, x, y);
      hide KH.KernelHeap.LiveByte, KH.KernelHeap.Physical, KH.KernelHeap.Sane, KH.KernelHeap.HistoryOk, MallocState.Valid;
      kernel.DistinctBytesDistinctMemory(x, y);
    }

    lemma {:induction false} HeldBytesDiffer(h: Holder, g: Holder, x: nat, y: nat)
      requires Valid() && HoldsByte(h, x) && HoldsByte(g, y) && h != g
      ensures x != y
    {
      HeldBytesAreLive(h, x);
      HeldBytesAreLive(g, y);
      if h.Payload? && g.Payload? {
        hide KH.KernelHeap.Valid;
        PayloadApart(h.p, g.p);
        OwnedIs(g.p);
      } else {
        hide MallocState.Valid, KH.KernelHeap.Sane, KH.Consecutive;
        RangesDiffer(kernel.log, h, g, (x - kernel.vma.base) / 4096, (y - kernel.vma.base) / 4096);
      }
    }

    static lemma {:induction false} RangesDiffer(log: seq<KH.Range>, h: Holder, g: Holder, q: nat, r: nat)
      requires KH.Separated(log) && h != g && (h.Region? || g.Region?)
      requires h.Payload? ==> KH.SbrkCovers(log, q)
      requires g.Payload? ==> KH.SbrkCovers(log, r)
      requires h.Region? ==> h.i < |log| && log[h.i].Has(q) && !log[h.i].fromSbrk
      requires g.Region? ==> g.i < |log| && log[g.i].Has(r) && !log[g.i].fromSbrk
      ensures q != r
    {
      var i: nat, j: nat;
      match h {
        case Payload(_) => i :| i < |log| && log[i].Has(q) && log[i].fromSbrk;
        case Region(k) => i := k;
      }
      match g {
        case Payload(_) => j :| j < |log| && log[j].Has(r) && log[j].fromSbrk;
        case Region(k) => j := k;
      }
      assert i != j && log[i].Has(q) && log[j].Has(r);
    }
  }
}
