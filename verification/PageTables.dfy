/** Four-level page tables in physical memory, the hardware's walk over them, and why installing an
    empty table or writing one leaf entry changes at most one translation. */
module PageTables {
  import opened Machine

  // ---------- Entries and indices ----------

  /** Bits 12..51 of an entry: the frame it points to. */
  function Frame(entry: nat): nat {
    entry / 4096 % 0x100_0000_0000 * 4096
  }

  predicate Present(entry: nat) {
    entry % 2 == 1
  }

  /** Bit 7: at levels 2 and 3 the entry maps a large page. */
  predicate PageSize(entry: nat) {
    entry / 128 % 2 == 1
  }

  /** All other bits: permissions, caching, no-execute. */
  function Flags(entry: nat): int {
    entry - Frame(entry)
  }

  /** A page-aligned 52-bit address is its own frame. */
  lemma {:induction false} FrameOfFrame(phys: nat)
    requires phys % 4096 == 0 && phys < 0x10_0000_0000_0000
    ensures Frame(phys) == phys
  {
    var q := phys / 4096;
    assert phys == 4096 * q;
    SmallMod(q, 0x100_0000_0000);
  }

  const PPN_MASK: nat := 0x000F_FFFF_FFFF_F000

  /** Masking with `ppn_mask` is taking the frame. */
  lemma {:induction false} FrameIsMask(entry: nat)
    ensures And(entry, PPN_MASK) == Frame(entry)
  {
    hide And;
    Pow2Values();
    AndField(entry, 12, 52);
    FrameArithmetic(entry);
  }

  lemma {:induction false} FrameArithmetic(entry: nat)
    ensures entry % 0x10_0000_0000_0000 - entry % 4096 == Frame(entry)
  {
    var q := entry / 4096;
    var h, p := q / 0x100_0000_0000, q % 0x100_0000_0000;
    assert entry == h * 0x10_0000_0000_0000 + (p * 4096 + entry % 4096);
  }

  /** The number of a page among the 2^36 pages that the four indices distinguish. */
  function VPage(virt: u64): (p: nat)
    ensures p < 0x10_0000_0000
  {
    virt / 4096 % 0x10_0000_0000
  }

  const VPAGES: nat := 0x10_0000_0000

  /** The index of page p into its level-l table. */
  function Index(p: nat, l: nat): (i: nat)
    requires 1 <= l <= 4
    ensures i < 512
  {
    if l == 1 then p % 512
    else if l == 2 then p / 512 % 512
    else if l == 3 then p / 0x4_0000 % 512
    else p / 0x800_0000 % 512
  }

  /** The four indices are the shifted and masked fields of the address. */
  lemma {:induction false} IndexFields(virt: u64)
    ensures Index(VPage(virt), 1) == virt / 0x1000 % 512
    ensures Index(VPage(virt), 2) == virt / 0x20_0000 % 512
    ensures Index(VPage(virt), 3) == virt / 0x4000_0000 % 512
    ensures Index(VPage(virt), 4) == virt / 0x80_0000_0000 % 512
  {
    var q := virt / 4096;
    PtField(q);
    PdField(q);
    PdptField(q);
    Pml4Field(q);
    assert virt / 0x20_0000 == q / 512 && virt / 0x4000_0000 == q / 0x4_0000 && virt / 0x80_0000_0000 == q / 0x800_0000;
  }

  // Reducing modulo 2^36 first does not change a nine-bit field below bit 36.

  lemma PtField(q: nat)
    ensures q % 0x10_0000_0000 % 512 == q % 512
  {
  }

  lemma {:induction false} PdField(q: nat)
    ensures q % 0x10_0000_0000 / 512 % 512 == q / 512 % 512
  {
    var h, p := q / 0x10_0000_0000, q % 0x10_0000_0000;
    var a, b := p / 512, p % 512;
    DivModUnique(q, 512, 0x800_0000 * h + a, b);
    assert 0x800_0000 * h + a == 512 * (0x800_0000 / 512 * h + a / 512) + a % 512;
    DivModUnique(0x800_0000 * h + a, 512, 0x800_0000 / 512 * h + a / 512, a % 512);
  }

  lemma {:induction false} PdptField(q: nat)
    ensures q % 0x10_0000_0000 / 0x4_0000 % 512 == q / 0x4_0000 % 512
  {
    var h, p := q / 0x10_0000_0000, q % 0x10_0000_0000;
    var a, b := p / 0x4_0000, p % 0x4_0000;
    DivModUnique(q, 0x4_0000, 0x4_0000 * h + a, b);
    assert 0x4_0000 * h + a == 512 * (0x4_0000 / 512 * h + a / 512) + a % 512;
    DivModUnique(0x4_0000 * h + a, 512, 0x4_0000 / 512 * h + a / 512, a % 512);
  }

  lemma {:induction false} Pml4Field(q: nat)
    ensures q % 0x10_0000_0000 / 0x800_0000 % 512 == q / 0x800_0000 % 512
  {
    var h, p := q / 0x10_0000_0000, q % 0x10_0000_0000;
    var a, b := p / 0x800_0000, p % 0x800_0000;
    DivModUnique(q, 0x800_0000, 512 * h + a, b);
    assert 512 * h + a == 512 * (512 / 512 * h + a / 512) + a % 512;
    DivModUnique(512 * h + a, 512, 512 / 512 * h + a / 512, a % 512);
  }

  /** Two pages that agree on all four indices are one page. */
  lemma {:induction false} IndicesDeterminePage(p: nat, q: nat)
    requires p < VPAGES && q < VPAGES
    requires forall l :: 1 <= l <= 4 ==> Index(p, l) == Index(q, l)
    ensures p == q
  {
    assert Index(p, 1) == Index(q, 1) && Index(p, 2) == Index(q, 2) && Index(p, 3) == Index(q, 3) && Index(p, 4) == Index(q, 4);
    PageFromIndices(p);
    PageFromIndices(q);
  }

  lemma {:induction false} PageFromIndices(p: nat)
    requires p < VPAGES
    ensures p == Index(p, 1) + 512 * Index(p, 2) + 0x4_0000 * Index(p, 3) + 0x800_0000 * Index(p, 4)
  {
    var a, b := p / 512, p / 0x4_0000;
    assert a / 512 == b && b / 512 == p / 0x800_0000;
    assert p / 0x800_0000 < 512;
  }

  /** Bits 63..47 all equal: the addresses 4-level paging accepts. */
  predicate Canonical(virt: u64) {
    virt < 0x8000_0000_0000 || virt >= 0xFFFF_8000_0000_0000
  }

  /** Among canonical page addresses the page number is unambiguous. */
  lemma {:induction false} CanonicalPages(v: u64, w: u64)
    requires Canonical(v) && Canonical(w) && v % 4096 == 0 && w % 4096 == 0 && VPage(v) == VPage(w)
    ensures v == w
  {
    hide VPage;
    CanonicalPage(v);
    CanonicalPage(w);
  }

  /** The low half of the page numbers stands for the low canonical addresses, the high half for the high
      ones, whose upper 16 bits are all ones. */
  lemma {:induction false} CanonicalPage(v: u64)
    requires Canonical(v) && v % 4096 == 0
    ensures v == 4096 * (if VPage(v) < 0x8_0000_0000 then VPage(v) else 0xF_FFF0_0000_0000 + VPage(v))
  {
    var a := v / 4096;
    assert v == 4096 * a;
    if v < 0x8000_0000_0000 {
      DivModUnique(a, 0x10_0000_0000, 0, a);
    } else {
      DivModUnique(a, 0x10_0000_0000, 0xFFFF, a - 0xFFFF * 0x10_0000_0000);
    }
  }

  // ---------- The walk ----------

  /** Bit k of an entry, or of its part besides the frame. */
  predicate BitAt(entry: int, k: nat) {
    entry / Pow2(k) % 2 == 1
  }

  /** Physical memory, as far as it holds page tables: frame address to its 512 words. */
  type Ram = map<nat, seq<nat>>

  /** What a walk ends in: the frame, the entry's other bits, and the level of the entry (1 for 4 KB). */
  datatype Leaf = Leaf(frame: nat, flags: int, level: nat)

  function Entry(ram: Ram, table: nat, i: nat): nat {
    if table in ram && i < |ram[table]| then ram[table][i] else 0
  }

  predicate PointsToTable(entry: nat, l: nat) {
    Present(entry) && 1 < l && (l == 4 || !PageSize(entry))
  }

  /** The hardware's walk for page p from a level-l table (section 4.5 of the Intel SDM, Volume 3A). */
  function WalkFrom(ram: Ram, l: nat, table: nat, p: nat): Option<Leaf>
    requires 1 <= l <= 4
  {
    var e := Entry(ram, table, Index(p, l));
    if !Present(e) then None
    else if PointsToTable(e, l) then WalkFrom(ram, l - 1, Frame(e), p)
    else Some(Leaf(Frame(e), Flags(e), l))
  }

  function Walk(ram: Ram, root: nat, p: nat): Option<Leaf> {
    WalkFrom(ram, 4, root, p)
  }

  // ---------- Unshared trees ----------

  datatype Parent = Parent(table: nat, index: nat)

  /** Every table has a level, and every entry that points to a table is that table's only parent. */
  datatype Forest = Forest(level: map<nat, nat>, parent: map<nat, Parent>)

  ghost predicate IsTable(ram: Ram, f: Forest, t: nat) {
    t in f.level && 1 <= f.level[t] <= 4 && t in ram && |ram[t]| == 512 && t % 4096 == 0 && t < 0x10_0000_0000_0000
  }

  ghost predicate ChildOk(ram: Ram, f: Forest, t: nat, i: nat)
    requires t in f.level
  {
    var e := Entry(ram, t, i);
    PointsToTable(e, f.level[t]) ==>
      && Frame(e) in f.level && f.level[Frame(e)] == f.level[t] - 1
      && Frame(e) in f.parent && f.parent[Frame(e)] == Parent(t, i)
  }

  ghost predicate Unshared(ram: Ram, f: Forest) {
    && (forall t {:trigger IsTable(ram, f, t)} :: t in f.level ==> IsTable(ram, f, t))
    && (forall t, i {:trigger ChildOk(ram, f, t, i)} :: t in f.level && 0 <= i < 512 ==> ChildOk(ram, f, t, i))
  }

  ghost predicate IsRoot(f: Forest, root: nat) {
    root in f.level && f.level[root] == 4
  }

  /** The level-l table on the way to page p. */
  function TableAt(ram: Ram, root: nat, p: nat, l: nat): Option<nat>
    requires 1 <= l <= 4
    decreases 4 - l
  {
    if l == 4 then Some(root)
    else
      var up := TableAt(ram, root, p, l + 1);
      if up.None? then None
      else
        var e := Entry(ram, up.value, Index(p, l + 1));
        if PointsToTable(e, l + 1) then Some(Frame(e)) else None
  }

  lemma {:induction false} TableAtLevel(ram: Ram, f: Forest, root: nat, p: nat, l: nat)
    requires Unshared(ram, f) && IsRoot(f, root) && 1 <= l <= 4 && TableAt(ram, root, p, l).Some?
    ensures var t := TableAt(ram, root, p, l).value;
            t in f.level && f.level[t] == l && IsTable(ram, f, t)
    decreases 4 - l
  {
    if l < 4 {
      TableAtLevel(ram, f, root, p, l + 1);
      assert ChildOk(ram, f, TableAt(ram, root, p, l + 1).value, Index(p, l + 1));
    }
    assert IsTable(ram, f, TableAt(ram, root, p, l).value);
  }

  /** Two ways to one table are one way: same root, same indices above it. */
  lemma {:induction false} PathsAreUnique(ram: Ram, f: Forest, r: nat, p: nat, s: nat, q: nat, l: nat)
    requires Unshared(ram, f) && IsRoot(f, r) && IsRoot(f, s) && 1 <= l <= 4
    requires TableAt(ram, r, p, l).Some? && TableAt(ram, r, p, l) == TableAt(ram, s, q, l)
    ensures r == s && forall m :: l < m <= 4 ==> Index(p, m) == Index(q, m)
    decreases 4 - l
  {
    if l < 4 {
      var t, u := TableAt(ram, r, p, l + 1).value, TableAt(ram, s, q, l + 1).value;
      TableAtLevel(ram, f, r, p, l + 1);
      TableAtLevel(ram, f, s, q, l + 1);
      assert ChildOk(ram, f, t, Index(p, l + 1)) && ChildOk(ram, f, u, Index(q, l + 1));
      PathsAreUnique(ram, f, r, p, s, q, l + 1);
    }
  }

  /** The walk is the walk from the table it reaches. */
  lemma {:induction false} WalkVia(ram: Ram, root: nat, p: nat, l: nat)
    requires 1 <= l <= 4 && TableAt(ram, root, p, l).Some?
    ensures Walk(ram, root, p) == WalkFrom(ram, l, TableAt(ram, root, p, l).value, p)
    decreases 4 - l
  {
    if l < 4 {
      WalkVia(ram, root, p, l + 1);
    }
  }

  /** A walk that ends at level 1 has passed a table of every level. */
  lemma {:induction false} SmallWay(ram: Ram, root: nat, p: nat, l: nat)
    requires 1 <= l <= 4 && Walk(ram, root, p).Some? && Walk(ram, root, p).value.level == 1
    ensures TableAt(ram, root, p, l).Some?
    decreases 4 - l
  {
    if l < 4 {
      SmallWay(ram, root, p, l + 1);
      WalkVia(ram, root, p, l + 1);
    }
  }

  // ---------- Installing an empty table ----------

  function Zeros(): (z: seq<nat>)
    ensures |z| == 512 && forall i :: 0 <= i < 512 ==> z[i] == 0
  {
    seq(512, _ => 0)
  }

  /** Clear `child` and let entry i of t point to it. */
  function Install(ram: Ram, t: nat, i: nat, child: nat, entry: nat): Ram
    requires t in ram && i < |ram[t]|
  {
    var row: seq<nat> := ram[t][i := entry];
    ram[child := Zeros()][t := row]
  }

  function Adopt(f: Forest, t: nat, i: nat, child: nat): Forest
    requires t in f.level && f.level[t] > 1
  {
    Forest(f.level[child := f.level[t] - 1], f.parent[child := Parent(t, i)])
  }

  ghost predicate Installable(ram: Ram, f: Forest, t: nat, i: nat, child: nat, entry: nat) {
    && Unshared(ram, f) && t in f.level && f.level[t] > 1 && i < 512 && IsTable(ram, f, t)
    && child !in f.level && child % 4096 == 0 && child < 0x10_0000_0000_0000
    && !Present(Entry(ram, t, i)) && PointsToTable(entry, f.level[t]) && Frame(entry) == child
  }

  lemma {:induction false} InstallUnshared(ram: Ram, f: Forest, t: nat, i: nat, child: nat, entry: nat)
    requires Installable(ram, f, t, i, child, entry)
    ensures Unshared(Install(ram, t, i, child, entry), Adopt(f, t, i, child))
  {
    var ram', f' := Install(ram, t, i, child, entry), Adopt(f, t, i, child);
    forall u | u in f'.level
      ensures IsTable(ram', f', u)
    {
      assert u != child ==> IsTable(ram, f, u);
    }
    forall u, j | u in f'.level && 0 <= j < 512
      ensures ChildOk(ram', f', u, j)
    {
      if u != child {
        assert ChildOk(ram, f, u, j) && IsTable(ram, f, u);
      }
    }
  }

  /** Neither clearing the new table nor linking it changes any translation. */
  lemma {:induction false} InstallKeepsWalks(ram: Ram, f: Forest, t: nat, i: nat, child: nat, entry: nat, l: nat, u: nat, p: nat)
    requires Installable(ram, f, t, i, child, entry)
    requires 1 <= l <= 4 && u in f.level && f.level[u] == l
    ensures WalkFrom(Install(ram, t, i, child, entry), l, u, p) == WalkFrom(ram, l, u, p)
    decreases l
  {
    var ram' := Install(ram, t, i, child, entry);
    var j := Index(p, l);
    assert ChildOk(ram, f, u, j) && IsTable(ram, f, u);
    if u == t && j == i {
      EmptyWalk(ram', l - 1, child, p);
    } else if PointsToTable(Entry(ram, u, j), l) {
      InstallKeepsWalks(ram, f, t, i, child, entry, l - 1, Frame(Entry(ram, u, j)), p);
    }
  }

  /** The way to t itself is not touched by linking a child below t. */
  lemma {:induction false} InstallKeepsPath(ram: Ram, f: Forest, t: nat, i: nat, child: nat, entry: nat, root: nat, p: nat, l: nat)
    requires Installable(ram, f, t, i, child, entry) && IsRoot(f, root) && f.level[t] <= l <= 4
    ensures TableAt(Install(ram, t, i, child, entry), root, p, l) == TableAt(ram, root, p, l)
    decreases 4 - l
  {
    if l < 4 {
      InstallKeepsPath(ram, f, t, i, child, entry, root, p, l + 1);
      if TableAt(ram, root, p, l + 1).Some? {
        TableAtLevel(ram, f, root, p, l + 1);
      }
    }
  }

  lemma EmptyWalk(ram: Ram, l: nat, child: nat, p: nat)
    requires 1 <= l <= 4 && child in ram && ram[child] == Zeros()
    ensures WalkFrom(ram, l, child, p) == None
  {
  }

  // ---------- Writing a leaf ----------

  function SetLeaf(ram: Ram, t: nat, i: nat, entry: nat): Ram
    requires t in ram && i < |ram[t]|
  {
    var row: seq<nat> := ram[t][i := entry];
    ram[t := row]
  }

  lemma {:induction false} SetLeafUnshared(ram: Ram, f: Forest, t: nat, i: nat, entry: nat)
    requires Unshared(ram, f) && t in f.level && f.level[t] == 1 && IsTable(ram, f, t) && i < 512
    ensures Unshared(SetLeaf(ram, t, i, entry), f)
  {
    var ram' := SetLeaf(ram, t, i, entry);
    forall u | u in f.level
      ensures IsTable(ram', f, u)
    {
      assert IsTable(ram, f, u);
    }
    forall u, j | u in f.level && 0 <= j < 512
      ensures ChildOk(ram', f, u, j)
    {
      assert ChildOk(ram, f, u, j);
    }
  }

  lemma {:induction false} SetLeafKeepsPaths(ram: Ram, f: Forest, t: nat, i: nat, entry: nat, root: nat, p: nat, l: nat)
    requires Unshared(ram, f) && t in f.level && f.level[t] == 1 && IsTable(ram, f, t) && i < 512
    requires IsRoot(f, root) && 1 <= l <= 4
    ensures TableAt(SetLeaf(ram, t, i, entry), root, p, l) == TableAt(ram, root, p, l)
    decreases 4 - l
  {
    if l < 4 {
      SetLeafKeepsPaths(ram, f, t, i, entry, root, p, l + 1);
      if TableAt(ram, root, p, l + 1).Some? {
        TableAtLevel(ram, f, root, p, l + 1);
      }
    }
  }

  /** Writing a present entry into the level-1 table of page q changes the translation of q only. */
  lemma {:induction false} SetLeafChangesOnePage(ram: Ram, f: Forest, root: nat, q: nat, entry: nat, r: nat, p: nat)
    requires Unshared(ram, f) && IsRoot(f, root) && IsRoot(f, r) && p < VPAGES && q < VPAGES
    requires TableAt(ram, root, q, 1).Some? && Present(entry)
    ensures var t := TableAt(ram, root, q, 1).value;
            t in ram && |ram[t]| == 512 &&
            Walk(SetLeaf(ram, t, Index(q, 1), entry), r, p)
            == if r == root && p == q then Some(Leaf(Frame(entry), Flags(entry), 1)) else Walk(ram, r, p)
  {
    var t := TableAt(ram, root, q, 1).value;
    TableAtLevel(ram, f, root, q, 1);
    var ram' := SetLeaf(ram, t, Index(q, 1), entry);
    SetLeafUnshared(ram, f, t, Index(q, 1), entry);
    SetLeafKeepsPaths(ram, f, t, Index(q, 1), entry, r, p, 1);
    if TableAt(ram, r, p, 1) == Some(t) {
      WalkVia(ram, r, p, 1);
      WalkVia(ram', r, p, 1);
      PathsAreUnique(ram, f, r, p, root, q, 1);
      if Index(p, 1) == Index(q, 1) {
        IndicesDeterminePage(p, q);
      }
    } else {
      ReachesIsTableAt(ram, r, p, 1);
      WalkWithoutTable(ram, ram', f, t, Index(q, 1), entry, 4, r, p);
    }
  }

  lemma {:induction false} ReachesIsTableAt(ram: Ram, root: nat, p: nat, l: nat)
    requires 1 <= l <= 4
    ensures Reaches(ram, 4, root, p)
         == if TableAt(ram, root, p, l).Some? then Reaches(ram, l, TableAt(ram, root, p, l).value, p) else None
    decreases 4 - l
  {
    if l < 4 {
      ReachesIsTableAt(ram, root, p, l + 1);
    }
  }

  /** A walk that never reaches the written table reads the same entries. */
  lemma {:induction false} WalkWithoutTable(ram: Ram, ram': Ram, f: Forest, t: nat, i: nat, entry: nat, l: nat, u: nat, p: nat)
    requires Unshared(ram, f) && t in f.level && f.level[t] == 1 && IsTable(ram, f, t) && i < 512
    requires ram' == SetLeaf(ram, t, i, entry) && 1 <= l <= 4 && u in f.level && f.level[u] == l
    requires Reaches(ram, l, u, p) != Some(t)
    ensures WalkFrom(ram', l, u, p) == WalkFrom(ram, l, u, p)
    decreases l
  {
    assert ChildOk(ram, f, u, Index(p, l)) && IsTable(ram, f, u);
    var e := Entry(ram, u, Index(p, l));
    if PointsToTable(e, l) {
      WalkWithoutTable(ram, ram', f, t, i, entry, l - 1, Frame(e), p);
    }
  }

  /** The level-1 table the walk from u arrives at. */
  function Reaches(ram: Ram, l: nat, u: nat, p: nat): Option<nat>
    requires 1 <= l <= 4
  {
    if l == 1 then Some(u)
    else
      var e := Entry(ram, u, Index(p, l));
      if PointsToTable(e, l) then Reaches(ram, l - 1, Frame(e), p) else None
  }

  // ---------- Building entries ----------

  /** The mapping flags a caller asks for. */
  datatype MapFlags = MapFlags(read: bool, write: bool, execute: bool, user: bool, cacheDisable: bool, writeThrough: bool)

  const NO_EXECUTE: nat := 0x8000_0000_0000_0000

  /** Present, ReadWrite, User, WriteThrough, CacheDisable: bits 0 to 4. */
  function LowFlags(flags: MapFlags): (r: nat)
    ensures r < 32 && r % 2 == 1
  {
    1 + (if flags.write then 2 else 0) + (if flags.user then 4 else 0)
    + (if flags.writeThrough then 8 else 0) + (if flags.cacheDisable then 16 else 0)
  }

  function LeafFlags(flags: MapFlags): nat {
    LowFlags(flags) + (if flags.execute then 0 else NO_EXECUTE)
  }

  /** `(phys & ppn_mask) | flags`. */
  function MakeEntry(phys: nat, flags: nat): nat {
    Frame(phys) + flags
  }

  const TABLE_FLAGS: nat := 7

  lemma {:induction false} BitValues()
    ensures Pow2(0) == 1 && Pow2(1) == 2 && Pow2(2) == 4 && Pow2(3) == 8 && Pow2(4) == 16 && Pow2(5) == 32
    ensures Pow2(63) == NO_EXECUTE
  {
    Pow2Values();
    assert Pow2(1) == 2 * Pow2(0);
    assert Pow2(3) == 2 * Pow2(2);
  }

  /** What a leaf entry grants, bit by bit as the processor reads it. */
  lemma {:induction false} LeafBits(flags: MapFlags)
    ensures var f := LeafFlags(flags);
      && BitAt(f, 0) && (BitAt(f, 1) <==> flags.write) && (BitAt(f, 2) <==> flags.user) && (BitAt(f, 3) <==> flags.writeThrough)
      && (BitAt(f, 4) <==> flags.cacheDisable) && (BitAt(f, 63) <==> !flags.execute)
    ensures forall k: nat {:trigger BitAt(LeafFlags(flags), k)} :: 4 < k < 63 ==> !BitAt(LeafFlags(flags), k)
  {
    hide Pow2;
    BitValues();
    var f, low, nx := LeafFlags(flags), LowFlags(flags), if flags.execute then 0 else 1;
    assert f == low + nx * NO_EXECUTE;
    DivModUnique(f, 2, low / 2 + nx * 0x4000_0000_0000_0000, low % 2);
    DivModUnique(f, 4, low / 4 + nx * 0x2000_0000_0000_0000, low % 4);
    DivModUnique(f, 8, low / 8 + nx * 0x1000_0000_0000_0000, low % 8);
    DivModUnique(f, 16, low / 16 + nx * 0x800_0000_0000_0000, low % 16);
    DivModUnique(f, NO_EXECUTE, nx, low);
    forall k: nat | 4 < k < 63
      ensures !BitAt(f, k)
    {
      HighBitsClear(low, nx, k);
    }
  }

  lemma {:induction false} HighBitsClear(low: nat, nx: nat, k: nat)
    requires low < 32 && nx <= 1 && 4 < k < 63
    ensures !BitAt(low + nx * NO_EXECUTE, k)
  {
    BitValues();
    Pow2Monotone(5, k);
    Pow2Add(k, 63 - k);
    Pow2Add(1, 62 - k);
    hide Pow2;
    var half := Pow2(62 - k);
    if nx == 0 {
      DivModUnique(low, Pow2(k), 0, low);
    } else {
      DivModUnique(low + NO_EXECUTE, Pow2(k), 2 * half, low);
      DivModUnique(2 * half, 2, half, 0);
    }
  }

  /** The entries that link tables: present, and neither writing nor user access nor execution is denied there. */
  predicate OpenEntry(e: nat) {
    BitAt(e, 0) && BitAt(e, 1) && BitAt(e, 2) && !BitAt(e, 63)
  }

  lemma {:induction false} TableBits(phys: nat)
    requires phys % 4096 == 0 && phys < 0x10_0000_0000_0000
    ensures OpenEntry(MakeEntry(phys, TABLE_FLAGS))
  {
    hide Pow2, Frame;
    BitValues();
    FrameOfFrame(phys);
    var q := phys / 4096;
    var e := phys + 7;
    assert phys == 4096 * q;
    DivModUnique(e, 2, 2048 * q + 3, 1);
    DivModUnique(2048 * q + 3, 2, 1024 * q + 1, 1);
    DivModUnique(e, 4, 1024 * q + 1, 3);
    DivModUnique(1024 * q + 1, 2, 512 * q, 1);
    DivModUnique(e, NO_EXECUTE, 0, e);
  }

  /** Every entry that links a table is open. */
  ghost predicate Open(ram: Ram, f: Forest) {
    forall t, i {:trigger ChildOk(ram, f, t, i)} :: t in f.level && 0 <= i < 512 && PointsToTable(Entry(ram, t, i), f.level[t]) ==>
      OpenEntry(Entry(ram, t, i))
  }

  /** Then only the leaf decides what a page grants. */
  lemma {:induction false} OpenWay(ram: Ram, f: Forest, root: nat, p: nat, l: nat)
    requires Unshared(ram, f) && Open(ram, f) && IsRoot(f, root) && 2 <= l <= 4 && TableAt(ram, root, p, l - 1).Some?
    ensures TableAt(ram, root, p, l).Some? && OpenEntry(Entry(ram, TableAt(ram, root, p, l).value, Index(p, l)))
  {
    TableAtLevel(ram, f, root, p, l);
    assert ChildOk(ram, f, TableAt(ram, root, p, l).value, Index(p, l));
  }

  lemma {:induction false} InstallOpen(ram: Ram, f: Forest, t: nat, i: nat, child: nat, entry: nat)
    requires Installable(ram, f, t, i, child, entry) && OpenEntry(entry) && Open(ram, f)
    ensures Open(Install(ram, t, i, child, entry), Adopt(f, t, i, child))
  {
    hide OpenEntry;
    var ram', f' := Install(ram, t, i, child, entry), Adopt(f, t, i, child);
    forall u, j | u in f'.level && 0 <= j < 512 && PointsToTable(Entry(ram', u, j), f'.level[u])
      ensures OpenEntry(Entry(ram', u, j))
    {
      if u != child {
        assert ChildOk(ram, f, u, j) && IsTable(ram, f, u);
      }
    }
  }

  lemma {:induction false} SetLeafOpen(ram: Ram, f: Forest, t: nat, i: nat, entry: nat)
    requires Unshared(ram, f) && t in f.level && f.level[t] == 1 && IsTable(ram, f, t) && i < 512 && Open(ram, f)
    ensures Open(SetLeaf(ram, t, i, entry), f)
  {
    hide OpenEntry;
    var ram' := SetLeaf(ram, t, i, entry);
    forall u, j | u in f.level && 0 <= j < 512 && PointsToTable(Entry(ram', u, j), f.level[u])
      ensures OpenEntry(Entry(ram', u, j))
    {
      assert ChildOk(ram, f, u, j);
    }
  }

  lemma {:induction false} EntryParts(phys: nat, low: nat, nx: bool)
    requires low < 32
    ensures var e := MakeEntry(phys, low + (if nx then NO_EXECUTE else 0));
            && Frame(e) == Frame(phys) && Flags(e) == low + (if nx then NO_EXECUTE else 0)
            && (Present(e) <==> low % 2 == 1) && !PageSize(e)
  {
    var n := phys / 4096 % 0x100_0000_0000;
    var top := if nx then 0x8_0000_0000_0000 else 0;
    var e := MakeEntry(phys, low + (if nx then NO_EXECUTE else 0));
    assert e == 4096 * (n + top) + low;
    DivModUnique(e, 4096, n + top, low);
    DivModUnique(n + top, 0x100_0000_0000, if nx then 2048 else 0, n);
    DivModUnique(e, 128, 32 * (n + top), low);
    DivModUnique(e, 2, 2048 * (n + top) + low / 2, low % 2);
    DivModUnique(32 * (n + top), 2, 16 * (n + top), 0);
  }

  /** The two operands of `|` have no bit in common, so `|` is addition. */
  lemma {:induction false} EntryIsOr(phys: nat, low: nat, nx: bool)
    requires low < 32
    ensures Or(And(phys, PPN_MASK), low + (if nx then NO_EXECUTE else 0))
         == MakeEntry(phys, low + (if nx then NO_EXECUTE else 0))
  {
    hide And, Or;
    var flags := low + (if nx then NO_EXECUTE else 0);
    var n := phys / 4096 % 0x100_0000_0000;
    FrameIsMask(phys);
    OrPlusAnd(Frame(phys), flags);
    Pow2Values();
    var top := if nx then 0x8_0000_0000_0000 else 0;
    DivModUnique(Frame(phys), 4096, n, 0);
    DivModUnique(flags, 4096, top, low);
    HighLow(Frame(phys), 12);
    HighLow(flags, 12);
    AndSplit(Frame(phys), flags, 12);
    AndZero(low);
    HighBitApart(n, nx);
  }

  lemma AndZero(x: nat)
    ensures And(0, x) == 0 && And(x, 0) == 0
  {
  }

  lemma {:induction false} HighBitApart(n: nat, nx: bool)
    requires n < 0x100_0000_0000
    ensures And(n, if nx then 0x8_0000_0000_0000 else 0) == 0
  {
    hide And;
    AndZero(n);
    if nx {
      var top := 0x8_0000_0000_0000;
      Pow2Forty();
      DivModUnique(n, 0x100_0000_0000, 0, n);
      DivModUnique(top, 0x100_0000_0000, 2048, 0);
      HighLow(n, 40);
      HighLow(top, 40);
      AndSplit(n, top, 40);
      AndZero(2048);
    }
  }

  lemma Pow2Forty()
    ensures Pow2(40) == 0x100_0000_0000
  {
    assert Pow2(8) == 256;
    assert Pow2(16) == 0x1_0000;
    assert Pow2(24) == 0x100_0000;
    assert Pow2(32) == 0x1_0000_0000;
    assert Pow2(40) == 0x100_0000_0000;
  }
}
