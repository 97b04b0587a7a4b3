/** The physical page allocator: a free list threaded through the free memory itself.  Each free block
    starts with a header of two words, `size` and `next`, written through the direct map, where the
    physical address p is visible at p + slide. */
module PhysicalMemory {
  import opened Machine

  const HEADER: int := 16

  /** A byte range [addr, addr + size) in the direct map. */
  datatype Block = Block(addr: nat, size: nat)

  ghost predicate Inside(b: Block, x: int) {
    b.addr <= x < b.addr + b.size
  }

  /** x is a byte of one of the blocks. */
  ghost predicate Covers(bs: seq<Block>, x: int) {
    exists i :: 0 <= i < |bs| && Inside(bs[i], x)
  }

  /** No common byte. */
  ghost predicate Apart(a: Block, b: Block) {
    a.size == 0 || b.size == 0 || a.addr + a.size <= b.addr || b.addr + b.size <= a.addr
  }

  predicate Within(a: Block, b: Block) {
    b.addr <= a.addr && a.addr + a.size <= b.addr + b.size
  }

  /** What lies in b before a, and behind it. */
  function Before(a: Block, b: Block): Block
    requires Within(a, b)
  {
    Block(b.addr, a.addr - b.addr)
  }

  function Behind(a: Block, b: Block): Block
    requires Within(a, b)
  {
    Block(a.addr + a.size, b.addr + b.size - (a.addr + a.size))
  }

  ghost predicate Disjoint(bs: seq<Block>) {
    forall i, j {:trigger Apart(bs[i], bs[j])} :: 0 <= i < j < |bs| ==> Apart(bs[i], bs[j])
  }

  ghost predicate AllApart(bs: seq<Block>, cs: seq<Block>) {
    forall i, j {:trigger Apart(bs[i], cs[j])} :: 0 <= i < |bs| && 0 <= j < |cs| ==> Apart(bs[i], cs[j])
  }

  /** x86-64 physical addresses have at most 52 bits. */
  const PHYS_LIMIT: int := 0x10_0000_0000_0000

  /** Page-aligned, non-empty, inside the direct map of physical memory, not wrapping. */
  predicate Sound(b: Block, slide: nat) {
    b.addr % 4096 == 0 && b.size % 4096 == 0 && b.size > 0 && slide <= b.addr && 0 < b.addr
    && b.addr + b.size < TWO64 && b.addr + b.size <= slide + PHYS_LIMIT
  }

  ghost predicate AllSound(bs: seq<Block>, slide: nat) {
    forall i {:trigger bs[i]} :: 0 <= i < |bs| ==> Sound(bs[i], slide)
  }

  function Sum(bs: seq<Block>): nat {
    if bs == [] then 0 else bs[0].size + Sum(bs[1..])
  }

  lemma {:induction false} SumConcat(a: seq<Block>, b: seq<Block>)
    ensures Sum(a + b) == Sum(a) + Sum(b)
  {
    if a == [] {
      assert a + b == b;
    } else {
      SumConcat(a[1..], b);
      assert (a + b)[1..] == a[1..] + b;
    }
  }

  function Remove(bs: seq<Block>, k: nat): seq<Block>
    requires k < |bs|
  {
    bs[..k] + bs[k + 1..]
  }

  lemma {:induction false} SumAt(bs: seq<Block>, k: nat)
    requires k < |bs|
    ensures Sum(bs) == Sum(Remove(bs, k)) + bs[k].size
  {
    assert bs == bs[..k] + [bs[k]] + bs[k + 1..];
    SumConcat(bs[..k] + [bs[k]], bs[k + 1..]);
    SumConcat(bs[..k], [bs[k]]);
    SumConcat(bs[..k], bs[k + 1..]);
    assert Sum([bs[k]]) == bs[k].size + Sum([bs[k]][1..]);
  }

  lemma {:induction false} SumUpdate(bs: seq<Block>, k: nat, b: Block)
    requires k < |bs|
    ensures Sum(bs[k := b]) == Sum(bs) - bs[k].size + b.size
  {
    SumAt(bs, k);
    SumAt(bs[k := b], k);
    assert Remove(bs[k := b], k) == Remove(bs, k);
  }

  // ---------- alloc as a function on the list ----------

  /** The bytes a request takes out of a block: the header's page and the request; 64-bit. */
  function Needed(size: u64): u64 {
    Add64(4096, size)
  }

  function FitIndex(bs: seq<Block>, need: nat, from: nat): (r: nat)
    requires from <= |bs|
    ensures from <= r <= |bs| && (r < |bs| ==> bs[r].size >= need)
    ensures forall i {:trigger bs[i]} :: from <= i < r ==> bs[i].size < need
    decreases |bs| - from
  {
    if from == |bs| || bs[from].size >= need then from else FitIndex(bs, need, from + 1)
  }

  /** First fit: the block served from is the first that holds the request and a page more; if that sum wraps, it
      is the first of all. */
  lemma {:induction false} ServedIsFirst(bs: seq<Block>, size: u64, k: nat)
    requires size % 4096 == 0 && k <= |bs|
    ensures k == FitIndex(bs, Needed(size), 0) <==> FirstToServe(bs, size, k)
  {
    hide Needed;
    var f := FitIndex(bs, Needed(size), 0);
    PageSumWraps(size);
    forall i | 0 <= i < f
      ensures bs[i].size < size + 4096 < TWO64
    {
      assert bs[i].size < Needed(size);
    }
    assert FirstToServe(bs, size, f);
    assert FirstToServe(bs, size, k) ==> !(f < k) && !(k < f);
  }

  ghost predicate FirstToServe(bs: seq<Block>, size: u64, k: nat) {
    && k <= |bs| && (k < |bs| ==> size + 4096 <= bs[k].size || size + 4096 >= TWO64)
    && forall i {:trigger bs[i]} :: 0 <= i < k ==> bs[i].size < size + 4096 < TWO64
  }

  lemma {:induction false} PageSumWraps(size: u64)
    requires size % 4096 == 0
    ensures Needed(size) == if size + 4096 < TWO64 then size + 4096 else 0
  {
    var q := size / 4096;
    assert size == 4096 * q && TWO64 == 4096 * (TWO64 / 4096);
  }

  lemma FitIndexStep(bs: seq<Block>, need: nat, k: nat)
    requires k <= |bs|
    ensures FitIndex(bs, need, k) == if k == |bs| || bs[k].size >= need then k else FitIndex(bs, need, k + 1)
  {
  }

  /** Serve from block k: keep what lies behind the request if a header still fits there. */
  function Carve(bs: seq<Block>, k: nat, need: nat): seq<Block>
    requires k < |bs| && need <= bs[k].size
  {
    if bs[k].size > need + HEADER then bs[k := Block(bs[k].addr + need, bs[k].size - need)] else Remove(bs, k)
  }

  lemma {:induction false} CarveSound(bs: seq<Block>, slide: nat, k: nat, size: nat)
    requires AllSound(bs, slide) && k < |bs| && size % 4096 == 0 && 4096 + size <= bs[k].size
    ensures AllSound(Carve(bs, k, 4096 + size), slide)
    ensures Sum(Carve(bs, k, 4096 + size)) + size + 4096 == Sum(bs)
  {
    hide Sum, Sound;
    var need := 4096 + size;
    var t := Carve(bs, k, need);
    SumAt(bs, k);
    if need < bs[k].size {
      SoundRest(bs[k], slide, size);
    }
    if bs[k].size > need + HEADER {
      SumUpdate(bs, k, Block(bs[k].addr + need, bs[k].size - need));
    }
    forall i | 0 <= i < |t|
      ensures Sound(t[i], slide)
    {
      assert Sound(bs[Origin(bs, k, need, i)], slide);
    }
  }

  lemma {:induction false} SoundRest(b: Block, slide: nat, size: nat)
    requires Sound(b, slide) && size % 4096 == 0 && 4096 + size < b.size
    ensures Sound(Block(b.addr + 4096 + size, b.size - 4096 - size), slide)
  {
    var p, q, r := b.addr / 4096, b.size / 4096, size / 4096;
    DivModUnique(b.addr + 4096 + size, 4096, p + 1 + r, 0);
    DivModUnique(b.size - 4096 - size, 4096, q - 1 - r, 0);
  }

  lemma {:induction false} CarveApart(bs: seq<Block>, given: seq<Block>, k: nat, size: nat)
    requires Disjoint(bs) && AllApart(bs, given) && k < |bs| && 4096 + size <= bs[k].size
    ensures Disjoint(Carve(bs, k, 4096 + size))
    ensures AllApart(Carve(bs, k, 4096 + size), given + [Block(bs[k].addr + 4096, size)])
    ensures forall j :: 0 <= j < |given| ==> Apart(given[j], Block(bs[k].addr + 4096, size))
  {
    var need := 4096 + size;
    var t := Carve(bs, k, need);
    var g := Block(bs[k].addr + 4096, size);
    forall j | 0 <= j < |given|
      ensures Apart(given[j], g)
    {
      assert Apart(bs[k], given[j]);
    }
    forall i, j | 0 <= i < j < |t|
      ensures Apart(t[i], t[j])
    {
      assert Apart(bs[Origin(bs, k, need, i)], bs[Origin(bs, k, need, j)]);
    }
    forall i, j | 0 <= i < |t| && 0 <= j < |given + [g]|
      ensures Apart(t[i], (given + [g])[j])
    {
      var o := Origin(bs, k, need, i);
      if j < |given| {
        assert Apart(bs[o], given[j]);
      } else if o != k {
        ApartBothWays(bs, o, k);
      }
    }
  }

  /** The range handed out is cut off the block: sound, apart from what stays free and from everything
      handed out before, and exactly one page is lost to the header. */
  lemma {:induction false} CarveIsExact(bs: seq<Block>, given: seq<Block>, slide: nat, k: nat, size: nat)
    requires Tidy(bs, given, slide) && Disjoint(given) && slide % 4096 == 0
    requires k < |bs| && size % 4096 == 0 && 4096 + size <= bs[k].size
    ensures var t := Carve(bs, k, 4096 + size);
            var g := Block(bs[k].addr + 4096, size);
            && Tidy(t, given + [g], slide) && Disjoint(given + [g])
            && Sum(t) + Sum(given + [g]) + 4096 == Sum(bs) + Sum(given)
            && slide < g.addr && g.addr % 4096 == 0 && g.addr + g.size <= slide + PHYS_LIMIT && g.addr + g.size <= bs[k].addr + bs[k].size
  {
    CarveSound(bs, slide, k, size);
    CarveApart(bs, given, k, size);
    var g := Block(bs[k].addr + 4096, size);
    SumConcat(given, [g]);
    assert Sum([g]) == size + Sum([g][1..]);
    assert Sound(bs[k], slide);
    forall i, j | 0 <= i < j < |given + [g]|
      ensures Apart((given + [g])[i], (given + [g])[j])
    {
      if j < |given| {
        assert Apart(given[i], given[j]);
      }
    }
  }

  /** A request whose need wraps to 0 takes nothing out of the block. */
  lemma CarveNothing(bs: seq<Block>, slide: nat, k: nat)
    requires AllSound(bs, slide) && k < |bs|
    ensures Carve(bs, k, 0) == bs
  {
    assert Sound(bs[k], slide);
  }

  /** Which block of the old list block i of the carved list comes from. */
  ghost function Origin(bs: seq<Block>, k: nat, need: nat, i: nat): (o: nat)
    requires k < |bs| && need <= bs[k].size && i < |Carve(bs, k, need)|
    ensures o < |bs|
    ensures if o == k then Carve(bs, k, need)[i] == Block(bs[k].addr + need, bs[k].size - need) && bs[k].size > need + HEADER
            else Carve(bs, k, need)[i] == bs[o]
    ensures bs[k].size > need + HEADER ==> o == i
    ensures bs[k].size <= need + HEADER ==> o == if i < k then i else i + 1
  {
    if bs[k].size > need + HEADER || i < k then i else i + 1
  }

  // ---------- coalesce as a function on the list ----------

  /** Block i swallows block j, which starts where i ends. */
  function Swallow(bs: seq<Block>, i: nat, j: nat): seq<Block>
    requires i < j < |bs|
  {
    Remove(bs[i := Block(bs[i].addr, bs[i].size + bs[j].size)], j)
  }

  /** The inner loop: j is the predecessor of the next block to look at. */
  function Sweep(bs: seq<Block>, i: nat, j: nat): (r: seq<Block>)
    requires i <= j < |bs|
    ensures i < |r| <= |bs|
    decreases |bs| - j
  {
    if j + 1 == |bs| then bs
    else if bs[i].addr + bs[i].size == bs[j + 1].addr then Sweep(Swallow(bs, i, j + 1), i, j)
    else Sweep(bs, i, j + 1)
  }

  /** The outer loop, from block i on. */
  function SweepAll(bs: seq<Block>, i: nat): (r: seq<Block>)
    ensures |r| <= |bs|
    decreases |bs| - i
  {
    if i >= |bs| then bs else SweepAll(Sweep(bs, i, i), i + 1)
  }

  /** What coalescing keeps: the free bytes, their number, soundness, disjointness. */
  ghost predicate SameMemory(bs: seq<Block>, cs: seq<Block>, given: seq<Block>, slide: nat) {
    && AllSound(cs, slide) && Disjoint(cs) && AllApart(cs, given)
    && Sum(cs) == Sum(bs) && |cs| <= |bs|
    && forall x {:trigger Covers(cs, x)} :: Covers(cs, x) <==> Covers(bs, x)
  }

  ghost predicate Tidy(bs: seq<Block>, given: seq<Block>, slide: nat) {
    AllSound(bs, slide) && Disjoint(bs) && AllApart(bs, given)
  }

  lemma {:induction false} SwallowKeepsMemory(bs: seq<Block>, given: seq<Block>, slide: nat, i: nat, j: nat)
    requires Tidy(bs, given, slide) && i < j < |bs| && bs[i].addr + bs[i].size == bs[j].addr
    ensures SameMemory(bs, Swallow(bs, i, j), given, slide)
  {
    var t := Swallow(bs, i, j);
    var big := Block(bs[i].addr, bs[i].size + bs[j].size);
    SumUpdate(bs, i, big);
    SumAt(bs[i := big], j);
    SwallowSound(bs, slide, i, j);
    SwallowApart(bs, given, i, j);
    forall x
      ensures Covers(t, x) <==> Covers(bs, x)
    {
      SwallowCovers(bs, i, j, x);
    }
  }

  lemma {:induction false} SwallowSound(bs: seq<Block>, slide: nat, i: nat, j: nat)
    requires AllSound(bs, slide) && i < j < |bs| && bs[i].addr + bs[i].size == bs[j].addr
    ensures AllSound(Swallow(bs, i, j), slide)
  {
    var t := Swallow(bs, i, j);
    forall k | 0 <= k < |t|
      ensures Sound(t[k], slide)
    {
      assert Sound(bs[if k < j then k else k + 1], slide) && Sound(bs[j], slide);
    }
  }

  lemma {:induction false} SwallowApart(bs: seq<Block>, given: seq<Block>, i: nat, j: nat)
    requires Disjoint(bs) && AllApart(bs, given) && i < j < |bs| && bs[i].addr + bs[i].size == bs[j].addr
    requires forall k :: 0 <= k < |bs| ==> bs[k].size > 0
    ensures Disjoint(Swallow(bs, i, j)) && AllApart(Swallow(bs, i, j), given)
  {
    var t := Swallow(bs, i, j);
    forall a, b | 0 <= a < b < |t|
      ensures Apart(t[a], t[b])
    {
      var oa, ob := if a < j then a else a + 1, if b < j then b else b + 1;
      ApartBothWays(bs, oa, ob);
      if oa == i {
        ApartBothWays(bs, j, ob);
      }
      if ob == i {
        ApartBothWays(bs, oa, j);
      }
    }
    forall a, b | 0 <= a < |t| && 0 <= b < |given|
      ensures Apart(t[a], given[b])
    {
      var oa := if a < j then a else a + 1;
      assert Apart(bs[oa], given[b]) && Apart(bs[j], given[b]);
    }
  }

  lemma ApartBothWays(bs: seq<Block>, a: nat, b: nat)
    requires Disjoint(bs) && a < |bs| && b < |bs| && a != b
    ensures Apart(bs[a], bs[b])
  {
    if a < b {
      assert Apart(bs[a], bs[b]);
    } else {
      assert Apart(bs[b], bs[a]);
    }
  }

  lemma {:induction false} SwallowCovers(bs: seq<Block>, i: nat, j: nat, x: int)
    requires i < j < |bs| && bs[i].addr + bs[i].size == bs[j].addr
    ensures Covers(Swallow(bs, i, j), x) <==> Covers(bs, x)
  {
    var t := Swallow(bs, i, j);
    assert t[i] == Block(bs[i].addr, bs[i].size + bs[j].size);
    if Covers(bs, x) {
      var k :| 0 <= k < |bs| && Inside(bs[k], x);
      assert Inside(t[if k == i || k == j then i else if k < j then k else k - 1], x);
    }
    if Covers(t, x) {
      var k :| 0 <= k < |t| && Inside(t[k], x);
      if k == i {
        assert Inside(bs[i], x) || Inside(bs[j], x);
      } else {
        assert Inside(bs[if k < j then k else k + 1], x);
      }
    }
  }

  lemma {:induction false} SameMemoryTrans(a: seq<Block>, b: seq<Block>, c: seq<Block>, given: seq<Block>, slide: nat)
    requires SameMemory(a, b, given, slide) && SameMemory(b, c, given, slide)
    ensures SameMemory(a, c, given, slide)
  {
    forall x
      ensures Covers(c, x) <==> Covers(a, x)
    {
      assert Covers(b, x) <==> Covers(a, x);
    }
  }

  lemma {:induction false} SweepKeepsMemory(bs: seq<Block>, given: seq<Block>, slide: nat, i: nat, j: nat)
    requires Tidy(bs, given, slide) && i <= j < |bs|
    ensures SameMemory(bs, Sweep(bs, i, j), given, slide)
    decreases |bs| - j
  {
    hide SameMemory, Tidy;
    if j + 1 == |bs| {
      SameMemoryRefl(bs, given, slide);
    } else if bs[i].addr + bs[i].size == bs[j + 1].addr {
      var t := Swallow(bs, i, j + 1);
      SwallowKeepsMemory(bs, given, slide, i, j + 1);
      SameIsTidy(bs, t, given, slide);
      SweepKeepsMemory(t, given, slide, i, j);
      SameMemoryTrans(bs, t, Sweep(t, i, j), given, slide);
    } else {
      SweepKeepsMemory(bs, given, slide, i, j + 1);
    }
  }

  lemma SameMemoryRefl(bs: seq<Block>, given: seq<Block>, slide: nat)
    requires Tidy(bs, given, slide)
    ensures SameMemory(bs, bs, given, slide)
  {
  }

  lemma SameIsTidy(bs: seq<Block>, t: seq<Block>, given: seq<Block>, slide: nat)
    requires SameMemory(bs, t, given, slide)
    ensures Tidy(t, given, slide)
  {
  }

  lemma SameSum(bs: seq<Block>, t: seq<Block>, given: seq<Block>, slide: nat)
    requires SameMemory(bs, t, given, slide)
    ensures Sum(t) == Sum(bs)
  {
  }

  /** The nested loops unlink blocks from the list they walk, yet keep exactly the free bytes. */
  lemma {:induction false} CoalesceKeepsMemory(bs: seq<Block>, given: seq<Block>, slide: nat, i: nat)
    requires Tidy(bs, given, slide)
    ensures SameMemory(bs, SweepAll(bs, i), given, slide)
    decreases |bs| - i
  {
    hide SameMemory, Tidy;
    if i >= |bs| {
      SameMemoryRefl(bs, given, slide);
    } else {
      var t := Sweep(bs, i, i);
      SweepKeepsMemory(bs, given, slide, i, i);
      SameIsTidy(bs, t, given, slide);
      CoalesceKeepsMemory(t, given, slide, i + 1);
      SameMemoryTrans(bs, t, SweepAll(t, i + 1), given, slide);
    }
  }

  // ---------- When coalescing leaves neighbours unmerged ----------

  predicate Adjoins(a: Block, b: Block) {
    a.addr + a.size == b.addr
  }

  /** Two free blocks touch. */
  ghost predicate Touching(bs: seq<Block>) {
    exists a, b {:trigger Adjoins(bs[a], bs[b])} :: 0 <= a < |bs| && 0 <= b < |bs| && a != b && Adjoins(bs[a], bs[b])
  }

  /** Blocks that touch stand in address order in the list. */
  ghost predicate TouchInOrder(bs: seq<Block>) {
    forall a, b {:trigger Adjoins(bs[a], bs[b])} :: 0 <= a < |bs| && 0 <= b < |bs| && a != b && Adjoins(bs[a], bs[b]) ==> a < b
  }

  /** No block touches one that the loops will not compare it with any more: an earlier one, any one for the
      blocks before i, and for block i those up to j. */
  ghost predicate NoneMissed(bs: seq<Block>, i: nat, j: nat) {
    forall a, b {:trigger Adjoins(bs[a], bs[b])} ::
      0 <= a < |bs| && 0 <= b < |bs| && a != b && Missed(a, b, i, j) ==> !Adjoins(bs[a], bs[b])
  }

  predicate Missed(a: nat, b: nat, i: nat, j: nat) {
    b < a || a < i || (a == i && b <= j)
  }

  lemma {:induction false} OneFollower(bs: seq<Block>, slide: nat, a: nat, b: nat, c: nat)
    requires AllSound(bs, slide) && Disjoint(bs) && a < |bs| && b < |bs| && c < |bs|
    ensures Adjoins(bs[a], bs[b]) && Adjoins(bs[a], bs[c]) ==> b == c
    ensures Adjoins(bs[a], bs[c]) && Adjoins(bs[b], bs[c]) ==> a == b
    ensures Adjoins(bs[a], bs[b]) ==> !Adjoins(bs[b], bs[a])
  {
    assert Sound(bs[a], slide) && Sound(bs[b], slide) && Sound(bs[c], slide);
    if b != c {
      ApartBothWays(bs, b, c);
    }
    if a != b {
      ApartBothWays(bs, a, b);
    }
  }

  lemma {:induction false} SwallowMissesNone(bs: seq<Block>, slide: nat, i: nat, j: nat)
    requires AllSound(bs, slide) && Disjoint(bs) && i <= j && j + 1 < |bs| && Adjoins(bs[i], bs[j + 1])
    ensures NoneMissed(Swallow(bs, i, j + 1), i, j) <==> NoneMissed(bs, i, j)
  {
    var t := Swallow(bs, i, j + 1);
    if NoneMissed(bs, i, j) {
      forall a, b | 0 <= a < |t| && 0 <= b < |t| && a != b && Missed(a, b, i, j)
        ensures !Adjoins(t[a], t[b])
      {
        var oa, ob := if a == i then j + 1 else if a <= j then a else a + 1, if b <= j then b else b + 1;
        assert !Adjoins(bs[oa], bs[ob]);
      }
    }
    if NoneMissed(t, i, j) {
      forall a, b | 0 <= a < |bs| && 0 <= b < |bs| && a != b && Missed(a, b, i, j)
        ensures !Adjoins(bs[a], bs[b])
      {
        OneFollower(bs, slide, i, j + 1, b);
        OneFollower(bs, slide, a, i, j + 1);
        if b != j + 1 && a != i {
          var ta, tb := if a == j + 1 then i else if a <= j then a else a - 1, if b <= j then b else b - 1;
          assert ta != tb ==> !Adjoins(t[ta], t[tb]);
        }
      }
    }
  }

  lemma {:induction false} SweepMissesNone(bs: seq<Block>, slide: nat, i: nat, j: nat)
    requires AllSound(bs, slide) && Disjoint(bs) && i <= j < |bs|
    ensures AllSound(Sweep(bs, i, j), slide) && Disjoint(Sweep(bs, i, j))
    ensures NoneMissed(Sweep(bs, i, j), i + 1, i + 1) <==> NoneMissed(bs, i, j)
    decreases |bs| - j
  {
    if j + 1 < |bs| {
      if Adjoins(bs[i], bs[j + 1]) {
        SwallowSound(bs, slide, i, j + 1);
        SwallowApart(bs, [], i, j + 1);
        SwallowMissesNone(bs, slide, i, j);
        SweepMissesNone(Swallow(bs, i, j + 1), slide, i, j);
      } else {
        SweepMissesNone(bs, slide, i, j + 1);
      }
    }
  }

  lemma {:induction false} SweepAllMissesNone(bs: seq<Block>, slide: nat, i: nat)
    requires AllSound(bs, slide) && Disjoint(bs)
    ensures !Touching(SweepAll(bs, i)) <==> NoneMissed(bs, i, i)
    decreases |bs| - i
  {
    if i < |bs| {
      SweepMissesNone(bs, slide, i, i);
      SweepAllMissesNone(Sweep(bs, i, i), slide, i + 1);
    }
  }

  /** Coalescing merges everything that touches exactly if touching blocks stand in address order in the
      list. */
  lemma {:induction false} CoalesceMergesAllIff(bs: seq<Block>, slide: nat)
    requires AllSound(bs, slide) && Disjoint(bs)
    ensures !Touching(SweepAll(bs, 0)) <==> TouchInOrder(bs)
  {
    SweepAllMissesNone(bs, slide, 0);
  }

  ghost predicate NoneEndsAt(bs: seq<Block>, g: Block) {
    forall a {:trigger Adjoins(bs[a], g)} :: 0 <= a < |bs| ==> !Adjoins(bs[a], g)
  }

  /** After `free` no two free blocks touch exactly if before it touching blocks stood in address order and
      none ended where the returned one begins. */
  lemma {:induction false} FreeMergesAllIff(bs: seq<Block>, slide: nat, g: Block)
    requires AllSound([g] + bs, slide) && Disjoint([g] + bs)
    ensures !Touching(SweepAll([g] + bs, 0)) <==>
      TouchInOrder(bs) && NoneEndsAt(bs, g)
  {
    var t := [g] + bs;
    CoalesceMergesAllIff(t, slide);
    if TouchInOrder(t) {
      forall a, b | 0 <= a < |bs| && 0 <= b < |bs| && a != b && Adjoins(bs[a], bs[b])
        ensures a < b
      {
        assert Adjoins(t[a + 1], t[b + 1]);
      }
      forall a | 0 <= a < |bs|
        ensures !Adjoins(bs[a], g)
      {
        assert !Adjoins(t[a + 1], t[0]);
      }
    }
    if TouchInOrder(bs) && NoneEndsAt(bs, g) {
      forall a, b | 0 <= b < a < |t|
        ensures !Adjoins(t[a], t[b])
      {
        if b == 0 {
          assert !Adjoins(bs[a - 1], g);
        } else {
          assert !Adjoins(bs[a - 1], bs[b - 1]);
        }
      }
    }
  }

  /** Coalescing does not normalise: a block never absorbs one that stands earlier in the list. */
  lemma {:induction false} CoalesceLeavesNeighbours()
    ensures var bs := [Block(0x3000, 0x1000), Block(0x1000, 0x1000), Block(0x2000, 0x1000)];
            SweepAll(bs, 0) == [Block(0x3000, 0x1000), Block(0x1000, 0x2000)] && Touching(SweepAll(bs, 0))
  {
    var bs := [Block(0x3000, 0x1000), Block(0x1000, 0x1000), Block(0x2000, 0x1000)];
    var done := [Block(0x3000, 0x1000), Block(0x1000, 0x2000)];
    assert Sweep(bs, 0, 2) == bs;
    assert Sweep(bs, 0, 1) == bs;
    assert Sweep(bs, 0, 0) == bs;
    assert Swallow(bs, 1, 2) == done;
    assert Sweep(done, 1, 1) == done;
    assert Sweep(bs, 1, 1) == done;
    assert SweepAll(done, 2) == done;
    assert SweepAll(bs, 1) == done;
    assert Adjoins(done[1], done[0]);
  }

  // ---------- The list in memory ----------

  /** The header of block i as its two words say. */
  ghost predicate HeaderAt(size: map<nat, nat>, next: map<nat, nat>, bs: seq<Block>, i: nat)
    requires i < |bs|
  {
    && bs[i].addr in size && size[bs[i].addr] == bs[i].size
    && bs[i].addr in next && next[bs[i].addr] == AddrAt(bs, i + 1)
  }

  function AddrAt(bs: seq<Block>, i: nat): nat {
    if i < |bs| then bs[i].addr else 0
  }

  ghost predicate Threaded(head: nat, size: map<nat, nat>, next: map<nat, nat>, bs: seq<Block>) {
    head == AddrAt(bs, 0) && forall i {:trigger HeaderAt(size, next, bs, i)} :: 0 <= i < |bs| ==> HeaderAt(size, next, bs, i)
  }

  /** Headers are 16 bytes at distinct addresses, so writing one leaves the others alone. */
  lemma {:induction false} AddressesDiffer(bs: seq<Block>, slide: nat, i: nat, j: nat)
    requires AllSound(bs, slide) && Disjoint(bs) && i < |bs| && j < |bs| && i != j
    ensures bs[i].addr + HEADER <= bs[j].addr || bs[j].addr + HEADER <= bs[i].addr
    ensures !(bs[i].addr <= bs[j].addr < bs[i].addr + bs[i].size)
  {
    assert Sound(bs[i], slide) && Sound(bs[j], slide);
    ApartBothWays(bs, i, j);
  }

  lemma {:induction false} AddressesNonzero(bs: seq<Block>, slide: nat)
    requires AllSound(bs, slide)
    ensures forall k {:trigger AddrAt(bs, k)} :: 0 <= k < |bs| ==> AddrAt(bs, k) > 0
  {
    forall k | 0 <= k < |bs|
      ensures AddrAt(bs, k) > 0
    {
      assert Sound(bs[k], slide);
    }
  }

  /** A pointer to a link: `&m_head` or `&block->next`. */
  datatype Slot = HeadSlot | NextOf(addr: nat)

  ghost function SlotAt(bs: seq<Block>, k: nat): Slot
    requires k <= |bs|
  {
    if k == 0 then HeadSlot else NextOf(bs[k - 1].addr)
  }

  lemma {:induction false} ThreadedPush(head: nat, size: map<nat, nat>, next: map<nat, nat>, bs: seq<Block>,
                                        slide: nat, b: Block)
    requires Threaded(head, size, next, bs) && AllSound([b] + bs, slide) && Disjoint([b] + bs)
    ensures Threaded(b.addr, size[b.addr := b.size], next[b.addr := head], [b] + bs)
  {
    var size', next', t := size[b.addr := b.size], next[b.addr := head], [b] + bs;
    forall i | 0 <= i < |t|
      ensures HeaderAt(size', next', t, i)
    {
      if i > 0 {
        assert HeaderAt(size, next, bs, i - 1);
        AddressesDiffer(t, slide, 0, i);
      }
    }
  }

  lemma {:induction false} ThreadedReplace(head: nat, size: map<nat, nat>, next: map<nat, nat>, bs: seq<Block>,
                                           slide: nat, k: nat, b: Block)
    requires Threaded(head, size, next, bs) && AllSound(bs, slide) && Disjoint(bs) && k < |bs|
    requires bs[k].addr <= b.addr < bs[k].addr + bs[k].size
    ensures var size' := size[b.addr := b.size];
            var next' := next[b.addr := AddrAt(bs, k + 1)];
            if k == 0 then Threaded(b.addr, size', next', bs[k := b])
            else Threaded(head, size', next'[bs[k - 1].addr := b.addr], bs[k := b])
  {
    var t := bs[k := b];
    var size' := size[b.addr := b.size];
    var next' := next[b.addr := AddrAt(bs, k + 1)];
    var next'' := if k == 0 then next' else next'[bs[k - 1].addr := b.addr];
    forall i | 0 <= i < |t|
      ensures HeaderAt(size', next'', t, i)
    {
      assert HeaderAt(size, next, bs, i);
      if i != k {
        AddressesDiffer(bs, slide, k, i);
      }
      if k > 0 {
        AddressesDiffer(bs, slide, k, k - 1);
        if i != k - 1 {
          AddressesDiffer(bs, slide, i, k - 1);
        }
      }
    }
  }

  lemma {:induction false} ThreadedRemove(head: nat, size: map<nat, nat>, next: map<nat, nat>, bs: seq<Block>,
                                          slide: nat, k: nat)
    requires Threaded(head, size, next, bs) && AllSound(bs, slide) && Disjoint(bs) && k < |bs|
    ensures if k == 0 then Threaded(AddrAt(bs, 1), size, next, Remove(bs, k))
            else Threaded(head, size, next[bs[k - 1].addr := AddrAt(bs, k + 1)], Remove(bs, k))
  {
    var t := Remove(bs, k);
    var next' := if k == 0 then next else next[bs[k - 1].addr := AddrAt(bs, k + 1)];
    forall i | 0 <= i < |t|
      ensures HeaderAt(size, next', t, i)
    {
      var o := if i < k then i else i + 1;
      assert HeaderAt(size, next, bs, o);
      if k > 0 && o != k - 1 {
        AddressesDiffer(bs, slide, o, k - 1);
      }
    }
  }

  lemma {:induction false} ThreadedGrow(head: nat, size: map<nat, nat>, next: map<nat, nat>, bs: seq<Block>,
                                        slide: nat, i: nat, n: nat)
    requires Threaded(head, size, next, bs) && AllSound(bs, slide) && Disjoint(bs) && i < |bs|
    ensures Threaded(head, size[bs[i].addr := n], next, bs[i := Block(bs[i].addr, n)])
  {
    var size', t := size[bs[i].addr := n], bs[i := Block(bs[i].addr, n)];
    forall m | 0 <= m < |bs|
      ensures HeaderAt(size', next, t, m)
    {
      assert HeaderAt(size, next, bs, m);
      if m != i {
        AddressesDiffer(bs, slide, m, i);
      }
    }
  }

  /** Unlinking the swallowed block after growing the swallower. */
  lemma {:induction false} ThreadedSwallow(head: nat, size: map<nat, nat>, next: map<nat, nat>, bs: seq<Block>,
                                           slide: nat, i: nat, j: nat)
    requires Threaded(head, size, next, bs) && AllSound(bs, slide) && Disjoint(bs) && i < j < |bs|
    ensures Threaded(head, size[bs[i].addr := bs[i].size + bs[j].size], next[bs[j - 1].addr := AddrAt(bs, j + 1)],
                     Swallow(bs, i, j))
  {
    var n := bs[i].size + bs[j].size;
    var grown := bs[i := Block(bs[i].addr, n)];
    ThreadedGrow(head, size, next, bs, slide, i, n);
    var size', next', t := size[bs[i].addr := n], next[bs[j - 1].addr := AddrAt(bs, j + 1)], Remove(grown, j);
    forall m | 0 <= m < |t|
      ensures HeaderAt(size', next', t, m)
    {
      var o := if m < j then m else m + 1;
      assert HeaderAt(size[bs[i].addr := n], next, grown, o);
      if o != j - 1 {
        AddressesDiffer(bs, slide, o, j - 1);
      }
    }
  }

  // ---------- The allocator ----------

  datatype MemmapEntry = MemmapEntry(base: u64, length: u64, usable: bool)

  /** The blocks `init` makes of the first n memory-map entries; later entries come first. */
  function Blocks(entries: seq<MemmapEntry>, slide: u64, n: nat): seq<Block>
    requires n <= |entries|
  {
    if n == 0 then []
    else if entries[n - 1].usable then
      [Block(Add64(slide, entries[n - 1].base), entries[n - 1].length)] + Blocks(entries, slide, n - 1)
    else Blocks(entries, slide, n - 1)
  }

  /** Byte x of the direct map is usable memory according to one of the first n entries. */
  ghost predicate Usable(entries: seq<MemmapEntry>, slide: nat, n: nat, x: int)
    requires n <= |entries|
  {
    exists i {:trigger entries[i]} :: 0 <= i < n && entries[i].usable && slide + entries[i].base <= x < slide + entries[i].base + entries[i].length
  }

  /** The usable bytes of the first n entries. */
  function UsableBytes(entries: seq<MemmapEntry>, n: nat): nat
    requires n <= |entries|
  {
    if n == 0 then 0 else UsableBytes(entries, n - 1) + if entries[n - 1].usable then entries[n - 1].length else 0
  }

  /** The blocks are the usable memory, all of it and nothing else. */
  lemma {:induction false} BlocksAreUsable(entries: seq<MemmapEntry>, slide: u64, n: nat)
    requires n <= |entries| && AllSound(Blocks(entries, slide, n), slide)
    ensures forall x: int {:trigger Covers(Blocks(entries, slide, n), x)} ::
      Covers(Blocks(entries, slide, n), x) <==> Usable(entries, slide, n, x)
    ensures Sum(Blocks(entries, slide, n)) == UsableBytes(entries, n)
  {
    if n > 0 {
      var e, all, rest := entries[n - 1], Blocks(entries, slide, n), Blocks(entries, slide, n - 1);
      if e.usable {
        assert rest == all[1..] && Sound(all[0], slide);
        forall i | 0 <= i < |rest|
          ensures Sound(rest[i], slide)
        {
          assert Sound(all[i + 1], slide);
        }
      }
      BlocksAreUsable(entries, slide, n - 1);
      forall x: int
        ensures Covers(all, x) <==> Usable(entries, slide, n, x)
      {
        CoversFirst(e, all, rest, slide, x);
        assert Covers(rest, x) <==> Usable(entries, slide, n - 1, x);
      }
    }
  }

  lemma CoversFirst(e: MemmapEntry, all: seq<Block>, rest: seq<Block>, slide: u64, x: int)
    requires if e.usable then all == [Block(Add64(slide, e.base), e.length)] + rest && Sound(all[0], slide) else all == rest
    ensures Covers(all, x) <==> Covers(rest, x) || (e.usable && slide + e.base <= x < slide + e.base + e.length)
  {
    if Covers(rest, x) {
      var i :| 0 <= i < |rest| && Inside(rest[i], x);
      assert e.usable ==> all[i + 1] == rest[i];
    }
    assert e.usable ==> (Inside(all[0], x) <==> slide + e.base <= x < slide + e.base + e.length);
    assert e.usable ==> forall i :: 0 < i < |all| ==> all[i] == rest[i - 1];
  }

  /** Of two usable entries the later one stands first in the list. */
  lemma {:induction false} LaterStandsFirst(entries: seq<MemmapEntry>, slide: u64, n: nat, i: nat, j: nat) returns (a: nat, b: nat)
    requires i < j < n <= |entries| && entries[i].usable && entries[j].usable
    ensures var bs := Blocks(entries, slide, n);
      && a < b < |bs| && bs[a] == Block(Add64(slide, entries[j].base), entries[j].length)
      && bs[b] == Block(Add64(slide, entries[i].base), entries[i].length)
  {
    if j == n - 1 {
      b := StandsAt(entries, slide, n - 1, i);
      a, b := 0, b + 1;
    } else {
      a, b := LaterStandsFirst(entries, slide, n - 1, i, j);
      if entries[n - 1].usable {
        a, b := a + 1, b + 1;
      }
    }
  }

  lemma {:induction false} StandsAt(entries: seq<MemmapEntry>, slide: u64, n: nat, i: nat) returns (a: nat)
    requires i < n <= |entries| && entries[i].usable
    ensures a < |Blocks(entries, slide, n)| && Blocks(entries, slide, n)[a] == Block(Add64(slide, entries[i].base), entries[i].length)
  {
    if i == n - 1 {
      a := 0;
    } else {
      a := StandsAt(entries, slide, n - 1, i);
      if entries[n - 1].usable {
        a := a + 1;
      }
    }
  }

  /** No free block holds a page besides its header's page: the allocator is out of frames. */
  ghost predicate Exhausted(bs: seq<Block>) {
    forall i {:trigger bs[i]} :: 0 <= i < |bs| ==> bs[i].size < 8192
  }

  class FreeListAllocator {
    const slide: u64
    var head: nat
    /** The headers, by address: the `size` and `next` words of the blocks. */
    var sizeAt: map<nat, nat>
    var nextAt: map<nat, nat>
    /** The free list, the ranges handed out and not returned, and the bookkeeping of bytes. */
    ghost var blocks: seq<Block>
    ghost var given: seq<Block>
    ghost var served: nat
    ghost var managed: nat

    ghost predicate Valid()
      reads this
    {
      && Threaded(head, sizeAt, nextAt, blocks) && slide % 4096 == 0
      && Tidy(blocks, given, slide) && Disjoint(given)
      && Sum(blocks) + Sum(given) + 4096 * served == managed
    }

    constructor (slide: u64)
      requires slide % 4096 == 0
      ensures Valid() && this.slide == slide && blocks == [] && given == [] && managed == 0 && served == 0
    {
      this.slide := slide;
      head, sizeAt, nextAt := 0, map[], map[];
      blocks, given, served, managed := [], [], 0, 0;
    }

    /** Write a header at addr and make it the head of the list. */
    method Push(addr: nat, size: nat)
      requires Threaded(head, sizeAt, nextAt, blocks)
      requires AllSound([Block(addr, size)] + blocks, slide) && Disjoint([Block(addr, size)] + blocks)
      modifies this`head, this`sizeAt, this`nextAt, this`blocks
      ensures Threaded(head, sizeAt, nextAt, blocks) && blocks == [Block(addr, size)] + old(blocks)
    {
      ThreadedPush(head, sizeAt, nextAt, blocks, slide, Block(addr, size));
      sizeAt := sizeAt[addr := size];
      nextAt := nextAt[addr := head];
      head := addr;
      blocks := [Block(addr, size)] + blocks;
    }

    /** `init`: push every usable entry of the memory map. */
    method Init(entries: seq<MemmapEntry>)
      requires Valid() && blocks == [] && given == [] && served == 0
      requires AllSound(Blocks(entries, slide, |entries|), slide) && Disjoint(Blocks(entries, slide, |entries|))
      modifies this
      ensures Valid() && blocks == Blocks(entries, slide, |entries|) && given == [] && served == 0
      // Exactly the usable memory is free.
      ensures forall x: int {:trigger Covers(blocks, x)} :: Covers(blocks, x) <==> Usable(entries, slide, |entries|, x)
      ensures managed == Sum(blocks) == UsableBytes(entries, |entries|)
    {
      for n := 0 to |entries|
        invariant Threaded(head, sizeAt, nextAt, blocks) && blocks == Blocks(entries, slide, n)
        invariant given == [] && served == 0
      {
        if entries[n].usable {
          BlocksSuffix(entries, slide, n + 1);
          Push(Add64(slide, entries[n].base), entries[n].length);
        }
      }
      managed := Sum(blocks);
      BlocksAreUsable(entries, slide, |entries|);
    }

    static lemma {:induction false} BlocksSuffix(entries: seq<MemmapEntry>, slide: u64, n: nat)
      requires n <= |entries|
      requires AllSound(Blocks(entries, slide, |entries|), slide) && Disjoint(Blocks(entries, slide, |entries|))
      ensures AllSound(Blocks(entries, slide, n), slide) && Disjoint(Blocks(entries, slide, n))
      decreases |entries| - n
    {
      if n < |entries| {
        BlocksSuffix(entries, slide, n + 1);
        var all, rest := Blocks(entries, slide, n + 1), Blocks(entries, slide, n);
        if entries[n].usable {
          assert rest == all[1..];
          forall i, j | 0 <= i < j < |rest|
            ensures Apart(rest[i], rest[j])
          {
            assert Apart(all[i + 1], all[j + 1]);
          }
          forall i | 0 <= i < |rest|
            ensures Sound(rest[i], slide)
          {
            assert Sound(all[i + 1], slide);
          }
        }
      }
    }

    function Read(slot: Slot): nat
      reads this
    {
      match slot
      case HeadSlot => head
      case NextOf(addr) => if addr in nextAt then nextAt[addr] else 0
    }

    method Write(slot: Slot, value: nat)
      modifies this`head, this`nextAt
      ensures slot.HeadSlot? ==> head == value && nextAt == old(nextAt)
      ensures slot.NextOf? ==> head == old(head) && nextAt == old(nextAt)[slot.addr := value]
    {
      match slot
      case HeadSlot => head := value;
      case NextOf(addr) => nextAt := nextAt[addr := value];
    }

    /** First-fit allocation of whole pages.  `k` is the block served from. */
    method Alloc(size: u64) returns (r: u64, ghost k: nat)
      requires Valid() && size % 4096 == 0
      modifies this
      ensures Valid() && managed == old(managed)
      ensures k == FitIndex(old(blocks), Needed(size), 0)
      ensures k == |old(blocks)| ==> r == 0 && blocks == old(blocks) && given == old(given) && served == old(served)
      ensures k < |old(blocks)| ==> r == old(blocks)[k].addr + 4096 - slide && r > 0
      ensures k < |old(blocks)| && size + 4096 < TWO64 ==>
        && size + 4096 <= old(blocks)[k].size
        && blocks == Carve(old(blocks), k, size + 4096)
        && given == old(given) + [Block(old(blocks)[k].addr + 4096, size)] && served == old(served) + 1
      ensures k < |old(blocks)| && size + 4096 >= TWO64 ==>
        blocks == old(blocks) && given == old(given) && served == old(served)
    {
      hide Carve, FitIndex, Sum, Disjoint, AllApart;
      var current := HeadSlot;
      k := 0;
      while Read(current) != 0
        invariant k <= |blocks| && current == SlotAt(blocks, k) && Read(current) == AddrAt(blocks, k)
        invariant Valid() && blocks == old(blocks) && given == old(given) && served == old(served) && managed == old(managed)
        invariant FitIndex(blocks, Needed(size), 0) == FitIndex(blocks, Needed(size), k)
        decreases |blocks| - k
      {
        var addr := Read(current);
        assert HeaderAt(sizeAt, nextAt, blocks, k) && Sound(blocks[k], slide);
        var alignedAddr := AlignUp(addr + HEADER, 4096);
        HeaderPage(addr);
        var totalNeeded := Add64(alignedAddr - addr, size);
        if sizeAt[addr] >= totalNeeded {
          FitIndexStep(blocks, Needed(size), k);
          if size + 4096 < TWO64 {
            CarveIsExact(blocks, given, slide, k, size);
          } else {
            CarveNothing(blocks, slide, k);
          }
          Detach(current, addr, totalNeeded, k);
          if size + 4096 < TWO64 {
            given := given + [Block(addr + 4096, size)];
            served := served + 1;
          }
          r := Sub64(alignedAddr, slide);
          return;
        }
        FitIndexStep(blocks, Needed(size), k);
        current := NextOf(addr);
        k := k + 1;
      }
      AddressesNonzero(blocks, slide);
      FitIndexStep(blocks, Needed(size), k);
      r := 0;
    }

    /** `alloc_page`: a frame that was free memory before and is not any more; 0 if there is none. */
    method AllocPage() returns (phys: u64)
      requires Valid()
      modifies this
      ensures Valid() && managed == old(managed) && StillSafe(old(blocks), blocks, slide)
      ensures phys == 0 ==> blocks == old(blocks) && given == old(given)
      ensures phys == 0 <==> Exhausted(old(blocks))
      ensures phys != 0 ==> phys % 4096 == 0 && phys < PHYS_LIMIT && 0 < phys + slide < TWO64
      ensures phys != 0 ==> !FrameSafe(old(blocks), slide, phys) && FrameSafe(blocks, slide, phys)
      ensures phys != 0 ==> given == old(given) + [Block(phys + slide, 4096)]
    {
      hide FrameSafe, StillSafe, Carve, FitIndex;
      ghost var k;
      phys, k := Alloc(4096);
      if phys == 0 {
        SafeRefl(blocks, slide);
      } else {
        assert Sound(old(blocks)[k], slide);
        CarvedFrame(old(blocks), slide, k, phys);
      }
    }

    static lemma SafeRefl(bs: seq<Block>, slide: nat)
      ensures StillSafe(bs, bs, slide)
    {
    }

    static lemma {:induction false} HeaderPage(addr: nat)
      requires addr % 4096 == 0 && addr + 4096 < TWO64
      ensures AlignUp(addr + HEADER, 4096) == addr + 4096
    {
    }

    /** Take the front of block k out of the list, or all of it. */
    method Detach(current: Slot, addr: nat, need: nat, ghost k: nat)
      requires Threaded(head, sizeAt, nextAt, blocks) && AllSound(blocks, slide) && Disjoint(blocks)
      requires k < |blocks| && current == SlotAt(blocks, k) && addr == blocks[k].addr && need <= blocks[k].size
      modifies this`head, this`sizeAt, this`nextAt, this`blocks
      ensures Threaded(head, sizeAt, nextAt, blocks) && blocks == Carve(old(blocks), k, need)
    {
      assert HeaderAt(sizeAt, nextAt, blocks, k);
      if sizeAt[addr] > need + HEADER {
        ghost var rest := Block(addr + need, blocks[k].size - need);
        ThreadedReplace(head, sizeAt, nextAt, blocks, slide, k, rest);
        sizeAt := sizeAt[addr + need := sizeAt[addr] - need];
        nextAt := nextAt[addr + need := nextAt[addr]];
        Write(current, addr + need);
        blocks := blocks[k := rest];
      } else {
        ThreadedRemove(head, sizeAt, nextAt, blocks, slide, k);
        Write(current, nextAt[addr]);
        blocks := Remove(blocks, k);
      }
    }

    /** `free`: put the range at ptr - slide back.  The caller owns that range: it is all or part of an
        outstanding one, g, of which `front` and `back` stay outstanding. */
    method Free(ptr: u64, size: u64, ghost g: nat) returns (ghost front: Block, ghost back: Block)
      requires Valid() && g < |given| && Sound(Block(Sub64(ptr, slide), size), slide) && Within(Block(Sub64(ptr, slide), size), given[g])
      modifies this
      ensures Valid() && blocks == SweepAll([Block(Sub64(ptr, slide), size)] + old(blocks), 0)
      ensures given == old(given)[g := front] + [back]
      ensures front == Before(Block(Sub64(ptr, slide), size), old(given)[g]) && back == Behind(Block(Sub64(ptr, slide), size), old(given)[g])
      ensures served == old(served) && managed == old(managed)
      ensures !Touching(blocks) <==> TouchInOrder(old(blocks)) && NoneEndsAt(old(blocks), Block(Sub64(ptr, slide), size))
    {
      hide SweepAll, Touching, TouchInOrder, NoneEndsAt, Sum;
      var addr := Sub64(ptr, slide);
      ghost var r := Block(addr, size);
      front, back := Before(r, given[g]), Behind(r, given[g]);
      ReturnIsTidy(blocks, given, slide, g, r);
      FreeMergesAllIff(blocks, slide, r);
      Push(addr, size);
      given := given[g := front] + [back];
      Coalesce();
    }

    static lemma {:induction false} ReturnIsTidy(bs: seq<Block>, given: seq<Block>, slide: nat, g: nat, r: Block)
      requires Tidy(bs, given, slide) && Disjoint(given) && g < |given| && Sound(r, slide) && Within(r, given[g])
      ensures var rest := given[g := Before(r, given[g])] + [Behind(r, given[g])];
        && Tidy([r] + bs, rest, slide) && Disjoint(rest) && Sum([r] + bs) + Sum(rest) == Sum(bs) + Sum(given)
    {
      var o := given[g];
      var front, back := Before(r, o), Behind(r, o);
      var rest := given[g := front] + [back];
      SumUpdate(given, g, front);
      SumConcat(given[g := front], [back]);
      assert Sum([back]) == back.size + Sum([back][1..]);
      var t := [r] + bs;
      assert t[1..] == bs;
      forall i, j | 0 <= i < j < |t|
        ensures Apart(t[i], t[j])
      {
        if i == 0 {
          assert Apart(bs[j - 1], o);
        } else {
          assert Apart(bs[i - 1], bs[j - 1]);
        }
      }
      forall i, j | 0 <= i < j < |rest|
        ensures Apart(rest[i], rest[j])
      {
        var oj := if j == |given| then g else j;
        if i != oj {
          ApartBothWays(given, i, oj);
        }
      }
      forall i, j | 0 <= i < |t| && 0 <= j < |rest|
        ensures Apart(t[i], rest[j])
      {
        var oj := if j == |given| then g else j;
        if i > 0 {
          assert Apart(bs[i - 1], given[oj]);
        } else if oj != g {
          ApartBothWays(given, g, oj);
        }
      }
    }

    /** The inner loop of `coalesce`: block a swallows every later block that starts where a, by now, ends. */
    method SweepFrom(a: nat, ghost i: nat)
      requires Threaded(head, sizeAt, nextAt, blocks) && Tidy(blocks, given, slide)
      requires i < |blocks| && a == blocks[i].addr
      modifies this`sizeAt, this`nextAt, this`blocks
      ensures Threaded(head, sizeAt, nextAt, blocks) && Tidy(blocks, given, slide)
      ensures blocks == Sweep(old(blocks), i, i) && blocks[i].addr == a
    {
      hide SameMemory;
      var b := a;
      ghost var j := i;
      assert HeaderAt(sizeAt, nextAt, blocks, i);
      while nextAt[b] != 0
        invariant Threaded(head, sizeAt, nextAt, blocks) && Tidy(blocks, given, slide)
        invariant i <= j < |blocks| && a == blocks[i].addr && b == blocks[j].addr && b in nextAt
        invariant Sweep(old(blocks), i, i) == Sweep(blocks, i, j)
        decreases |blocks| - j
      {
        assert HeaderAt(sizeAt, nextAt, blocks, i) && HeaderAt(sizeAt, nextAt, blocks, j);
        assert HeaderAt(sizeAt, nextAt, blocks, j + 1);
        assert Sound(blocks[i], slide);
        var aEnd := a + sizeAt[a];
        var bAddr := nextAt[b];
        if aEnd == bAddr {
          SwallowKeepsMemory(blocks, given, slide, i, j + 1);
          SameIsTidy(blocks, Swallow(blocks, i, j + 1), given, slide);
          ThreadedSwallow(head, sizeAt, nextAt, blocks, slide, i, j + 1);
          sizeAt := sizeAt[a := sizeAt[a] + sizeAt[bAddr]];
          nextAt := nextAt[b := nextAt[bAddr]];
          blocks := Swallow(blocks, i, j + 1);
          assert HeaderAt(sizeAt, nextAt, blocks, j);
        } else {
          b := bAddr;
          j := j + 1;
        }
      }
      assert HeaderAt(sizeAt, nextAt, blocks, j);
      AddressesNonzero(blocks, slide);
    }

    /** `coalesce`: sweep from every block in turn. */
    method Coalesce()
      requires Threaded(head, sizeAt, nextAt, blocks) && Tidy(blocks, given, slide)
      modifies this`sizeAt, this`nextAt, this`blocks
      ensures Threaded(head, sizeAt, nextAt, blocks) && Tidy(blocks, given, slide)
      ensures blocks == SweepAll(old(blocks), 0) && Sum(blocks) == Sum(old(blocks))
    {
      hide Sweep, SameMemory;
      CoalesceKeepsMemory(blocks, given, slide, 0);
      SameSum(blocks, SweepAll(blocks, 0), given, slide);
      var a := head;
      ghost var i := 0;
      while a != 0
        invariant i <= |blocks| && a == AddrAt(blocks, i)
        invariant Threaded(head, sizeAt, nextAt, blocks) && Tidy(blocks, given, slide)
        invariant SweepAll(old(blocks), 0) == SweepAll(blocks, i)
        decreases |blocks| - i
      {
        SweepFrom(a, i);
        assert HeaderAt(sizeAt, nextAt, blocks, i);
        a := nextAt[a];
        i := i + 1;
      }
      AddressesNonzero(blocks, slide);
    }
  }

  // ---------- Frames ----------

  /** No byte of the frame's direct-map page is free memory. */
  ghost predicate FrameSafe(blocks: seq<Block>, slide: nat, frame: nat) {
    AllApart(blocks, [Block(frame + slide, 4096)])
  }

  /** Serving requests never puts a frame outside the free memory into it. */
  ghost predicate StillSafe(before: seq<Block>, after: seq<Block>, slide: nat) {
    forall x: nat {:trigger FrameSafe(after, slide, x)} :: FrameSafe(before, slide, x) ==> FrameSafe(after, slide, x)
  }

  lemma {:induction false} CarvedFrame(bs: seq<Block>, slide: nat, k: nat, frame: nat)
    requires AllSound(bs, slide) && Disjoint(bs) && k < |bs| && 8192 <= bs[k].size && frame + slide == bs[k].addr + 4096
    ensures !FrameSafe(bs, slide, frame) && FrameSafe(Carve(bs, k, 8192), slide, frame)
    ensures StillSafe(bs, Carve(bs, k, 8192), slide)
  {
    var g := Block(frame + slide, 4096);
    assert !Apart(bs[k], [g][0]);
    CarveApart(bs, [], k, 4096);
    assert [] + [g] == [g];
    forall x: nat | FrameSafe(bs, slide, x)
      ensures FrameSafe(Carve(bs, k, 8192), slide, x)
    {
      OutsidersStayApart(bs, k, 4096, Block(x + slide, 4096));
    }
  }

  // ---------- What the range handed out is worth ----------

  /** The block chosen for a request really holds the request behind its header's page exactly when the
      64-bit sum of the two does not wrap: the largest page-multiple request is "served" without room. */
  lemma {:induction false} ServedFitsIff(bs: seq<Block>, slide: nat, size: u64)
    requires AllSound(bs, slide) && size % 4096 == 0 && FitIndex(bs, Needed(size), 0) < |bs|
    ensures var b := bs[FitIndex(bs, Needed(size), 0)];
            b.addr + 4096 + size <= b.addr + b.size <==> size + 4096 < TWO64
  {
    assert Sound(bs[FitIndex(bs, Needed(size), 0)], slide);
  }

  /** A range apart from all free blocks stays apart when a request is served, also from its range. */
  lemma {:induction false} OutsidersStayApart(bs: seq<Block>, k: nat, size: nat, e: Block)
    requires Disjoint(bs) && AllApart(bs, [e]) && k < |bs| && 4096 + size <= bs[k].size
    ensures AllApart(Carve(bs, k, 4096 + size), [e]) && Apart(e, Block(bs[k].addr + 4096, size))
  {
    var g := Block(bs[k].addr + 4096, size);
    var t := Carve(bs, k, 4096 + size);
    CarveApart(bs, [e], k, size);
    assert Apart([e][0], g);
    forall i, j | 0 <= i < |t| && 0 <= j < |[e]|
      ensures Apart(t[i], [e][j])
    {
      assert Apart(t[i], ([e] + [g])[j]);
    }
  }

  // ---------- What free does with the slide ----------

  /** `free` subtracts the slide from an address from which `alloc` has subtracted it already: it writes
      the header where the block was exactly when twice the slide is 0 modulo 2^64. */
  lemma {:induction false} FreeFindsBlockIff(addr: u64, slide: u64)
    ensures Sub64(Sub64(addr, slide), slide) == addr <==> slide == 0 || slide == 0x8000_0000_0000_0000
  {
  }

  /** With the direct map of the usual higher half the header lands elsewhere. */
  lemma {:induction false} FreeMissesBlock()
    ensures Sub64(Sub64(0xFFFF_8000_0010_0000, 0xFFFF_8000_0000_0000), 0xFFFF_8000_0000_0000) == 0x8000_0010_0000
  {
  }
}
