/** What the splices of `Segments` mean: first fit finds the lowest aligned run, a segment list in
    normal form is determined by who owns each page, and so freeing does not depend on how an
    allocation is cut into pieces or in which order the pieces are returned. */
module SegmentLaws {
  import opened Machine
  import opened Segments

  // ---------- Ownership labels ----------

  const FREE: int := -1

  /** A segment seen as a stretch of pages with an owner. */
  datatype Stretch = Stretch(npages: nat, owner: int)

  function Fill(x: int, n: nat): (r: seq<int>)
    ensures |r| == n && forall i :: 0 <= i < n ==> r[i] == x
  {
    seq(n, _ => x)
  }

  /** The owner of every page. */
  function Owners(o: seq<Stretch>): seq<int> {
    if o == [] then [] else Fill(o[0].owner, o[0].npages) + Owners(o[1..])
  }

  /** Stretches are maximal: neighbours have different owners, except at the listed boundaries. */
  ghost predicate Maximal(o: seq<Stretch>, holes: set<int>) {
    && (forall i :: 0 <= i < |o| ==> o[i].npages > 0)
    && (forall i {:trigger Change(o, i)} :: 0 < i < |o| && i !in holes ==> Change(o, i))
  }

  ghost predicate Change(o: seq<Stretch>, i: int)
    requires 0 < i < |o|
  {
    o[i - 1].owner != o[i].owner
  }

  /** o gives owners to the segments s; exactly the free segments are owned by FREE. */
  ghost predicate Decorates(o: seq<Stretch>, s: seq<Seg>) {
    |o| == |s| && forall i :: 0 <= i < |s| ==> o[i].npages == s[i].npages && (o[i].owner == FREE <==> s[i].IsFree())
  }

  lemma {:induction false} OwnersConcat(a: seq<Stretch>, b: seq<Stretch>)
    ensures Owners(a + b) == Owners(a) + Owners(b)
  {
    if a == [] {
      assert a + b == b;
    } else {
      OwnersConcat(a[1..], b);
      assert (a + b)[1..] == a[1..] + b && (a + b)[0] == a[0];
    }
  }

  lemma OwnersOne(x: Stretch)
    ensures Owners([x]) == Fill(x.owner, x.npages)
  {
    assert [x][1..] == [];
  }

  lemma {:induction false} OwnersSplit(o: seq<Stretch>, k: nat)
    requires k < |o|
    ensures Owners(o) == Owners(o[..k]) + Fill(o[k].owner, o[k].npages) + Owners(o[k + 1..])
  {
    assert o == o[..k] + [o[k]] + o[k + 1..];
    OwnersConcat(o[..k], [o[k]]);
    OwnersConcat(o[..k] + [o[k]], o[k + 1..]);
    OwnersOne(o[k]);
  }

  lemma {:induction false} OwnersPrefix(o: seq<Stretch>, s: seq<Seg>, total: nat, n: nat)
    requires Tiles(s, total) && Decorates(o, s) && n <= |s|
    ensures |Owners(o[..n])| == if n < |s| then s[n].start else total
  {
    if n > 0 {
      OwnersPrefix(o, s, total, n - 1);
      assert n < |s| ==> Joined(s, n - 1);
      OwnersConcat(o[..n - 1], [o[n - 1]]);
      OwnersOne(o[n - 1]);
      assert o[..n] == o[..n - 1] + [o[n - 1]];
    }
  }

  lemma {:induction false} OwnersAt(o: seq<Stretch>, s: seq<Seg>, total: nat, k: nat, p: nat)
    requires Tiles(s, total) && Decorates(o, s) && k < |s| && s[k].start <= p < s[k].start + s[k].npages
    ensures |Owners(o)| == total && p < total && Owners(o)[p] == o[k].owner
  {
    OwnersSplit(o, k);
    OwnersPrefix(o, s, total, k);
    OwnersPrefix(o, s, total, |s|);
    assert o[..|s|] == o;
    EndInRange(s, total, k);
  }

  /** Maximal stretches are determined by the owner of each page. */
  lemma {:induction false} OwnersDetermineStretches(o: seq<Stretch>, q: seq<Stretch>)
    requires Maximal(o, {}) && Maximal(q, {}) && Owners(o) == Owners(q)
    ensures o == q
  {
    if o != [] {
      FirstOwners(o);
    }
    if q != [] {
      FirstOwners(q);
    }
    if o != [] && q != [] {
      FirstStretch(o, q);
      FirstStretch(q, o);
      assert Owners(o[1..]) == Owners(o)[o[0].npages..];
      assert Owners(q[1..]) == Owners(q)[q[0].npages..];
      MaximalTail(o);
      MaximalTail(q);
      OwnersDetermineStretches(o[1..], q[1..]);
      assert o == [o[0]] + o[1..] && q == [q[0]] + q[1..];
    }
  }

  lemma {:induction false} MaximalTail(o: seq<Stretch>)
    requires Maximal(o, {}) && o != []
    ensures Maximal(o[1..], {})
  {
    forall i | 0 < i < |o| - 1
      ensures Change(o[1..], i)
    {
      assert Change(o, i + 1);
    }
  }

  /** The bitmap of owners starts with the first stretch and then changes owner, or ends. */
  lemma {:induction false} FirstOwners(o: seq<Stretch>)
    requires Maximal(o, {}) && o != []
    ensures |Owners(o)| >= o[0].npages > 0
    ensures forall p :: 0 <= p < o[0].npages ==> Owners(o)[p] == o[0].owner
    ensures |Owners(o)| > o[0].npages ==> Owners(o)[o[0].npages] != o[0].owner
  {
    var rest := o[1..];
    if rest != [] {
      assert Owners(rest)[0] == rest[0].owner;
      assert Change(o, 1);
    }
  }

  lemma {:induction false} FirstStretch(o: seq<Stretch>, q: seq<Stretch>)
    requires Maximal(o, {}) && Maximal(q, {}) && Owners(o) == Owners(q) && o != [] && q != []
    ensures o[0].owner == q[0].owner && o[0].npages >= q[0].npages
  {
    FirstOwners(o);
    FirstOwners(q);
    assert Owners(o)[0] == o[0].owner;
  }

  lemma {:induction false} DecoratedEqual(s: seq<Seg>, t: seq<Seg>, total: nat, o: seq<Stretch>)
    requires Tiles(s, total) && Tiles(t, total) && Decorates(o, s) && Decorates(o, t)
    ensures s == t
  {
    forall n | 0 <= n < |s|
      ensures s[n] == t[n]
    {
      OwnersPrefix(o, s, total, n);
      OwnersPrefix(o, t, total, n);
    }
  }

  /** Two lists over the same pages with the same owners are the same list. */
  lemma {:induction false} OwnersDetermineSegments(s: seq<Seg>, o: seq<Stretch>, t: seq<Seg>, q: seq<Stretch>, total: nat)
    requires Tiles(s, total) && Tiles(t, total) && Decorates(o, s) && Decorates(q, t)
    requires Maximal(o, {}) && Maximal(q, {}) && Owners(o) == Owners(q)
    ensures s == t
  {
    OwnersDetermineStretches(o, q);
    DecoratedEqual(s, t, total, o);
  }

  /** Every segment of its own owner: the decoration of a list in normal form. */
  function Decorate(s: seq<Seg>): (o: seq<Stretch>)
    ensures |o| == |s|
  {
    seq(|s|, i requires 0 <= i < |s| => Stretch(s[i].npages, if s[i].IsFree() then FREE else i))
  }

  lemma {:induction false} DecorateMaximal(s: seq<Seg>, total: nat)
    requires Tiles(s, total) && total > 0 && NormalForm(s)
    ensures Decorates(Decorate(s), s) && Maximal(Decorate(s), {})
  {
    var o := Decorate(s);
    forall i | 0 < i < |o|
      ensures Change(o, i)
    {
      assert NotBothFree(s, i - 1);
    }
  }

  /** The segment a page lies in. */
  ghost function SegmentOf(s: seq<Seg>, total: nat, p: nat): (i: nat)
    requires Tiles(s, total) && p < total
    ensures i < |s| && s[i].start <= p < s[i].start + s[i].npages
  {
    SegmentFrom(s, total, p, 0)
  }

  ghost function SegmentFrom(s: seq<Seg>, total: nat, p: nat, from: nat): (i: nat)
    requires Tiles(s, total) && from < |s| && s[from].start <= p < total
    ensures i < |s| && s[i].start <= p < s[i].start + s[i].npages
    decreases |s| - from
  {
    if p < s[from].start + s[from].npages then from
    else
      assert from + 1 < |s| ==> Joined(s, from);
      SegmentFrom(s, total, p, from + 1)
  }

  lemma {:induction false} SegmentUnique(s: seq<Seg>, total: nat, p: nat, i: nat, j: nat)
    requires Tiles(s, total) && i < |s| && j < |s|
    requires s[i].start <= p < s[i].start + s[i].npages && s[j].start <= p < s[j].start + s[j].npages
    ensures i == j
  {
    if i < j {
      Ordered(s, total, i, j);
    } else if j < i {
      Ordered(s, total, j, i);
    }
  }

  // ---------- First fit ----------

  /** `align_up` of the virtual allocator. */
  function VAlignUp(v: u64, align: u64): u64 {
    if align <= 1 then v else AlignUp(v, align)
  }

  /** Where an aligned run can begin in a segment. */
  function AlignedStart(x: Seg, align: u64): nat {
    if x.start < TWO64 then VAlignUp(x.start, align) else x.start
  }

  /** The test of the allocation loop. */
  predicate Fits(x: Seg, n: nat, align: u64) {
    x.IsFree() && n <= x.npages && x.start <= AlignedStart(x, align) && AlignedStart(x, align) + n <= x.start + x.npages
  }

  /** An aligned run of n free pages at page b of the bitmap. */
  ghost predicate FreeRun(m: seq<bool>, b: nat, n: nat, align: u64)
    requires align > 0
  {
    b % align == 0 && AllPages(m, b, n, true)
  }

  /** 2^64 / PAGE_SIZE. */
  const MAX_PAGES: int := 0x10_0000_0000_0000

  lemma {:induction false} VAlignUpIsCeiling(v: u64, align: u64)
    requires Alignment(align) && v <= MAX_PAGES
    ensures VAlignUp(v, align) % align == 0 && v <= VAlignUp(v, align)
    ensures forall w: nat :: v <= w && w % align == 0 ==> VAlignUp(v, align) <= w
  {
    AlignUpIsCeiling(v, align);
  }

  /** Every 64-bit power of two, the alignments the allocator's assertion lets through, is in range. */
  predicate Alignment(align: u64) {
    1 <= align <= 0x8000_0000_0000_0000
  }

  lemma {:induction false} PowersAreAlignments(align: u64)
    requires IsPowerOfTwo(align)
    ensures Alignment(align)
  {
    var k := PowerOfTwoExponent(align);
    Pow2Values();
    if k >= 64 {
      Pow2Monotone(64, k);
    } else {
      Pow2Monotone(k, 63);
    }
  }

  lemma {:induction false} NextIsUsed(s: seq<Seg>, total: nat, i: nat)
    requires Tiles(s, total) && NormalForm(s) && i < |s| && s[i].IsFree() && s[i].start + s[i].npages < total
    ensures i + 1 < |s| && s[i + 1].start == s[i].start + s[i].npages < s[i + 1].start + s[i + 1].npages && !s[i + 1].IsFree()
  {
    assert i + 1 < |s|;
    assert Joined(s, i) && NotBothFree(s, i);
  }

  /** A free run in a list of normal form lies in one segment, and that segment fits the request. */
  lemma {:induction false} RunMeansFit(s: seq<Seg>, total: nat, b: nat, n: nat, align: u64) returns (i: nat)
    requires Tiles(s, total) && NormalForm(s) && 0 < total <= MAX_PAGES && Alignment(align)
    requires n > 0 && FreeRun(Pages(s), b, n, align)
    ensures i < |s| && s[i].start <= b < s[i].start + s[i].npages && Fits(s[i], n, align)
  {
    PagesLength(s, total);
    i := SegmentOf(s, total, b);
    PagesAt(s, total, i, b);
    EndInRange(s, total, i);
    if b + n > s[i].start + s[i].npages {
      NextIsUsed(s, total, i);
      PagesAt(s, total, i + 1, s[i].start + s[i].npages);
    }
    VAlignUpIsCeiling(s[i].start, align);
  }

  ghost predicate FirstFit(s: seq<Seg>, k: nat, n: nat, align: u64) {
    k < |s| && Fits(s[k], n, align) && forall i {:trigger Fits(s[i], n, align)} :: 0 <= i < k ==> !Fits(s[i], n, align)
  }

  /** First fit over a list in normal form returns the lowest aligned run of free pages. */
  lemma {:induction false} FirstFitIsLowestRun(s: seq<Seg>, total: nat, k: nat, n: nat, align: u64)
    requires Tiles(s, total) && NormalForm(s) && 0 < total <= MAX_PAGES && Alignment(align) && n > 0
    requires FirstFit(s, k, n, align)
    ensures FreeRun(Pages(s), AlignedStart(s[k], align), n, align)
    ensures forall b: nat :: FreeRun(Pages(s), b, n, align) ==> AlignedStart(s[k], align) <= b
  {
    var a := AlignedStart(s[k], align);
    EndInRange(s, total, k);
    VAlignUpIsCeiling(s[k].start, align);
    CarveRefinesBitmap(s, total, k, a - s[k].start, n);
    forall b: nat | FreeRun(Pages(s), b, n, align)
      ensures a <= b
    {
      var i := RunMeansFit(s, total, b, n, align);
      if k < i {
        Ordered(s, total, k, i);
      }
    }
  }

  /** When no segment fits there is no aligned free run at all. */
  lemma {:induction false} NoFitMeansNoRun(s: seq<Seg>, total: nat, n: nat, align: u64)
    requires Tiles(s, total) && NormalForm(s) && 0 < total <= MAX_PAGES && Alignment(align) && n > 0
    requires forall i {:trigger Fits(s[i], n, align)} :: 0 <= i < |s| ==> !Fits(s[i], n, align)
    ensures forall b: nat :: !FreeRun(Pages(s), b, n, align)
  {
    forall b: nat | FreeRun(Pages(s), b, n, align)
      ensures false
    {
      var i := RunMeansFit(s, total, b, n, align);
    }
  }

  ghost predicate NoFit(s: seq<Seg>, n: nat, align: u64) {
    forall i {:trigger Fits(s[i], n, align)} :: 0 <= i < |s| ==> !Fits(s[i], n, align)
  }

  /** On the bitmap: the aligned run [page, page + n) was free in s and is the one difference in t. */
  ghost predicate RunTaken(s: seq<Seg>, t: seq<Seg>, page: nat, n: nat, align: u64) {
    && align > 0 && page % align == 0 && AllPages(Pages(s), page, n, true)
    && Pages(t) == Paint(Pages(s), page, n, false)
  }

  /** On the list: segment `hit` was carved so that the run starts at `page`. */
  ghost predicate CarvedAt(s: seq<Seg>, t: seq<Seg>, hit: nat, page: nat, n: nat) {
    && hit < |s| && s[hit].IsFree() && 0 < n && s[hit].start <= page && page + n <= s[hit].start + s[hit].npages
    && t == CarveAt(s, hit, page - s[hit].start, n)
  }

  /** A run was carved, so without alignment there was a fit. */
  lemma CarvedFits(s: seq<Seg>, t: seq<Seg>, hit: nat, page: nat, n: nat)
    requires CarvedAt(s, t, hit, page, n)
    ensures !NoFit(s, n, 1)
  {
    hide CarveAt;
    assert Fits(s[hit], n, 1);
  }

  // ---------- The allocator's steps add up to one splice ----------

  lemma {:induction false} MarkTiles(s: seq<Seg>, total: nat, k: nat, free: bool)
    requires Tiles(s, total) && total > 0 && k < |s|
    ensures Tiles(Mark(s, k, free), total)
  {
    forall i | 0 <= i < |s| - 1
      ensures Joined(Mark(s, k, free), i)
    {
      assert Joined(s, i);
    }
  }

  /** Cutting off the padding. */
  function Padded(s: seq<Seg>, k: nat, pad: nat): seq<Seg>
    requires k < |s| && pad < s[k].npages
  {
    if pad > 0 then SplitAt(s, k, pad) else s
  }

  /** Cutting off the rest and marking the run used. */
  function Taken(s: seq<Seg>, k: nat, n: nat): seq<Seg>
    requires k < |s| && 0 < n <= s[k].npages
  {
    Mark(if n < s[k].npages then SplitAt(s, k, n) else s, k, false)
  }

  lemma {:induction false} SpliceFront(s: seq<Seg>, k: nat, a: Seg, b: Seg, parts: seq<Seg>)
    requires k < |s|
    ensures |Replace(s, k, [a, b])| == |s| + 1 && Replace(s, k, [a, b])[k] == a
    ensures Replace(Replace(s, k, [a, b]), k, parts) == Replace(s, k, parts + [b])
  {
  }

  lemma {:induction false} SpliceBack(s: seq<Seg>, k: nat, a: Seg, b: Seg, parts: seq<Seg>)
    requires k < |s|
    ensures |Replace(s, k, [a, b])| == |s| + 1 && Replace(s, k, [a, b])[k + 1] == b
    ensures Replace(Replace(s, k, [a, b]), k + 1, parts) == Replace(s, k, [a] + parts)
  {
  }

  lemma {:induction false} MarkPart(s: seq<Seg>, k: nat, parts: seq<Seg>, i: nat, free: bool)
    requires k < |s| && i < |parts|
    ensures k + i < |Replace(s, k, parts)| && Replace(s, k, parts)[k + i] == parts[i]
    ensures Mark(Replace(s, k, parts), k + i, free) == Replace(s, k, Mark(parts, i, free))
  {
  }

  lemma {:induction false} ReplaceBySelf(s: seq<Seg>, k: nat)
    requires k < |s|
    ensures Replace(s, k, [s[k]]) == s
  {
    assert s == s[..k] + [s[k]] + s[k + 1..];
  }

  /** Cut off the rest, if any, and mark the run: one splice. */
  lemma {:induction false} TakenInOne(s: seq<Seg>, k: nat, n: nat)
    requires k < |s| && s[k].IsFree() && 0 < n <= s[k].npages
    ensures Taken(s, k, n) == Replace(s, k, CarveParts(s[k], 0, n))
  {
    hide Replace;
    if n < s[k].npages {
      var parts := [Seg(s[k].start, n, s[k].use), Seg(s[k].start + n, s[k].npages - n, s[k].use)];
      MarkPart(s, k, parts, 0, false);
      assert Mark(parts, 0, false) == CarveParts(s[k], 0, n);
    } else {
      ReplaceBySelf(s, k);
      MarkPart(s, k, [s[k]], 0, false);
      assert Mark([s[k]], 0, false) == CarveParts(s[k], 0, n);
    }
  }

  lemma {:induction false} CarveInSteps(s: seq<Seg>, k: nat, pad: nat, n: nat)
    requires k < |s| && s[k].IsFree() && 0 < n && pad + n <= s[k].npages
    ensures var j := if pad > 0 then k + 1 else k;
            && j < |Padded(s, k, pad)| && Padded(s, k, pad)[j].npages == s[k].npages - pad
            && Padded(s, k, pad)[j].start == s[k].start + pad && Padded(s, k, pad)[j].IsFree()
            && Taken(Padded(s, k, pad), j, n) == CarveAt(s, k, pad, n)
            && j < |CarveAt(s, k, pad, n)| && CarveAt(s, k, pad, n)[j].start == s[k].start + pad
  {
    hide Replace, Taken;
    if pad > 0 {
      var a, b := Seg(s[k].start, pad, s[k].use), Seg(s[k].start + pad, s[k].npages - pad, s[k].use);
      SpliceBack(s, k, a, b, CarveParts(b, 0, n));
      TakenInOne(Padded(s, k, pad), k + 1, n);
      assert CarveParts(s[k], pad, n) == [a] + CarveParts(b, 0, n);
      MarkPart(s, k, CarveParts(s[k], pad, n), 1, false);
    } else {
      TakenInOne(s, k, n);
      MarkPart(s, k, CarveParts(s[k], 0, n), 0, false);
    }
  }

  /** Freeing part of a used segment: cut off the tail, then the head, mark the middle. */
  lemma {:induction false} ReleaseInSteps(s: seq<Seg>, k: nat, page: nat, n: nat)
    requires k < |s| && !s[k].IsFree() && 0 < n && s[k].start <= page && page + n <= s[k].start + s[k].npages
    ensures var left := page - s[k].start;
            var t := if left + n < s[k].npages then SplitAt(s, k, left + n) else s;
            && k < |t| && t[k].npages == left + n
            && var u := if left > 0 then SplitAt(t, k, left) else t;
               var j := MidIndex(s[k], k, page);
               && j < |u| && u[j] == Seg(page, n, Used)
               && Mark(u, j, true) == Replace(s, k, ReleaseParts(s[k], page, n))
  {
    hide Replace;
    var left := page - s[k].start;
    var whole, mid := Seg(s[k].start, left + n, Used), Seg(page, n, Used);
    var rest := Seg(page + n, s[k].start + s[k].npages - (page + n), Used);
    var front := if left > 0 then [Seg(s[k].start, left, Used), mid] else [whole];
    ReplaceBySelf(s, k);
    if left + n < s[k].npages {
      SpliceFront(s, k, whole, rest, front);
      ReplaceBySelf(SplitAt(s, k, left + n), k);
      MarkPart(s, k, front + [rest], if left > 0 then 1 else 0, true);
      assert Mark(front + [rest], if left > 0 then 1 else 0, true) == ReleaseParts(s[k], page, n);
    } else {
      MarkPart(s, k, front, if left > 0 then 1 else 0, true);
      assert Mark(front, if left > 0 then 1 else 0, true) == ReleaseParts(s[k], page, n);
    }
  }

  // ---------- Carving and releasing change the owners of one run ----------

  /** Give the pages [a, a + n) to x. */
  function Assign(lab: seq<int>, a: nat, n: nat, x: int): seq<int>
    requires a + n <= |lab|
  {
    lab[..a] + Fill(x, n) + lab[a + n..]
  }

  lemma {:induction false} AssignInside(w: seq<int>, w': seq<int>, pre: seq<int>, mid: seq<int>, post: seq<int>,
                                        a: nat, m: nat, pad: nat, n: nat, x: int, y: int)
    requires pad + n <= m && |pre| == a
    requires w == pre + Fill(x, m) + post
    requires w' == pre + mid + post && mid == Fill(x, pad) + Fill(y, n) + Fill(x, m - pad - n)
    ensures a + pad + n <= |w| && w' == Assign(w, a + pad, n, y)
  {
    assert w[..a + pad] == pre + Fill(x, pad);
    assert w[a + pad + n..] == Fill(x, m - pad - n) + post;
    assert forall p :: 0 <= p < |w| ==> w'[p] == Assign(w, a + pad, n, y)[p];
  }

  /** Cut stretch k into up to three, the middle one with a new owner. */
  function CutParts(x: Stretch, pad: nat, n: nat, owner: int): seq<Stretch>
    requires pad + n <= x.npages
  {
    (if pad > 0 then [Stretch(pad, x.owner)] else [])
    + [Stretch(n, owner)]
    + (if pad + n < x.npages then [Stretch(x.npages - pad - n, x.owner)] else [])
  }

  function CutAt(o: seq<Stretch>, k: nat, pad: nat, n: nat, owner: int): seq<Stretch>
    requires k < |o| && pad + n <= o[k].npages
  {
    o[..k] + CutParts(o[k], pad, n, owner) + o[k + 1..]
  }

  lemma {:induction false} CutPartsOwners(x: Stretch, pad: nat, n: nat, owner: int)
    requires pad + n <= x.npages
    ensures Owners(CutParts(x, pad, n, owner)) == Fill(x.owner, pad) + Fill(owner, n) + Fill(x.owner, x.npages - pad - n)
  {
    var l := if pad > 0 then [Stretch(pad, x.owner)] else [];
    var m := [Stretch(n, owner)];
    var r := if pad + n < x.npages then [Stretch(x.npages - pad - n, x.owner)] else [];
    OwnersConcat(l + m, r);
    OwnersConcat(l, m);
    OwnersOne(m[0]);
    if pad > 0 {
      OwnersOne(l[0]);
    }
    if pad + n < x.npages {
      OwnersOne(r[0]);
    }
  }

  lemma {:induction false} CutOwners(o: seq<Stretch>, s: seq<Seg>, total: nat, k: nat, pad: nat, n: nat, owner: int)
    requires Tiles(s, total) && Decorates(o, s) && k < |s| && pad + n <= s[k].npages
    ensures s[k].start + pad + n <= |Owners(o)|
    ensures Owners(CutAt(o, k, pad, n, owner)) == Assign(Owners(o), s[k].start + pad, n, owner)
  {
    hide Owners, Assign;
    var parts := CutParts(o[k], pad, n, owner);
    CutPartsOwners(o[k], pad, n, owner);
    OwnersConcat(o[..k], parts);
    OwnersConcat(o[..k] + parts, o[k + 1..]);
    OwnersSplit(o, k);
    OwnersPrefix(o, s, total, k);
    AssignInside(Owners(o), Owners(CutAt(o, k, pad, n, owner)), Owners(o[..k]), Owners(parts), Owners(o[k + 1..]),
                 s[k].start, o[k].npages, pad, n, o[k].owner, owner);
  }

  function Fuse(o: seq<Stretch>, k: nat): seq<Stretch>
    requires k + 1 < |o|
  {
    o[..k] + [Stretch(o[k].npages + o[k + 1].npages, o[k].owner)] + o[k + 2..]
  }

  lemma {:induction false} FuseOwners(o: seq<Stretch>, k: nat)
    requires k + 1 < |o| && o[k].owner == o[k + 1].owner
    ensures Owners(Fuse(o, k)) == Owners(o)
  {
    var x := Stretch(o[k].npages + o[k + 1].npages, o[k].owner);
    assert o == o[..k] + [o[k], o[k + 1]] + o[k + 2..];
    OwnersConcat(o[..k], [x]);
    OwnersConcat(o[..k] + [x], o[k + 2..]);
    OwnersConcat(o[..k], [o[k], o[k + 1]]);
    OwnersConcat(o[..k] + [o[k], o[k + 1]], o[k + 2..]);
    assert [o[k], o[k + 1]] == [o[k]] + [o[k + 1]];
    OwnersConcat([o[k]], [o[k + 1]]);
    OwnersOne(o[k]);
    OwnersOne(o[k + 1]);
    OwnersOne(x);
    assert Fill(x.owner, x.npages) == Fill(o[k].owner, o[k].npages) + Fill(o[k + 1].owner, o[k + 1].npages);
  }

  /** Fusing closes the boundary between k and k + 1; holes further left survive. */
  lemma {:induction false} FuseMaximal(o: seq<Stretch>, k: nat, holes: set<int>, holes': set<int>)
    requires k + 1 < |o| && o[k].owner == o[k + 1].owner && Maximal(o, holes)
    requires forall h :: h in holes && h <= k ==> h in holes'
    requires forall h :: h in holes && h > k + 1 ==> h - 1 in holes'
    ensures Maximal(Fuse(o, k), holes')
  {
    var q := Fuse(o, k);
    forall i | 0 < i < |q| && i !in holes'
      ensures Change(q, i)
    {
      if i <= k {
        assert Change(o, i);
      } else {
        assert i + 1 !in holes && Change(o, i + 1);
      }
    }
  }

  lemma {:induction false} FuseDecorates(o: seq<Stretch>, s: seq<Seg>, k: nat)
    requires Decorates(o, s) && k + 1 < |s|
    ensures Decorates(Fuse(o, k), MergeAt(s, k))
  {
    forall i | 0 <= i < |s| - 1
      ensures i < k ==> Fuse(o, k)[i] == o[i] && MergeAt(s, k)[i] == s[i]
      ensures i > k ==> Fuse(o, k)[i] == o[i + 1] && MergeAt(s, k)[i] == s[i + 1]
    {
    }
  }

  lemma {:induction false} FuseFree(o: seq<Stretch>, s: seq<Seg>, k: nat, holes: set<int>, holes': set<int>)
    requires Decorates(o, s) && k + 1 < |s| && s[k].IsFree() && s[k + 1].IsFree() && Maximal(o, holes)
    requires forall h :: h in holes && h <= k ==> h in holes'
    requires forall h :: h in holes && h > k + 1 ==> h - 1 in holes'
    ensures Decorates(Fuse(o, k), MergeAt(s, k)) && Maximal(Fuse(o, k), holes') && Owners(Fuse(o, k)) == Owners(o)
  {
    FuseOwners(o, k);
    FuseMaximal(o, k, holes, holes');
    FuseDecorates(o, s, k);
  }

  lemma {:induction false} DropHole(o: seq<Stretch>, h: int, holes: set<int>)
    requires Maximal(o, holes + {h}) && (0 < h < |o| ==> Change(o, h))
    ensures Maximal(o, holes)
  {
  }

  /** Coalescing at m repairs maximality at both ends of segment m and changes no owner. */
  lemma {:induction false} CoalesceOwners(o: seq<Stretch>, s: seq<Seg>, m: nat) returns (q: seq<Stretch>)
    requires Decorates(o, s) && Maximal(o, {m, m + 1}) && m < |s| && s[m].IsFree()
    ensures Decorates(q, CoalesceAt(s, m)) && Maximal(q, {}) && Owners(q) == Owners(o)
  {
    if m > 0 && s[m - 1].IsFree() {
      FuseFree(o, s, m - 1, {m, m + 1}, {m});
      q := CoalesceNext(Fuse(o, m - 1), MergeAt(s, m - 1), m - 1);
    } else {
      assert {m, m + 1} == {m + 1} + {m};
      DropHole(o, m, {m + 1});
      q := CoalesceNext(o, s, m);
    }
  }

  lemma {:induction false} CoalesceNext(o: seq<Stretch>, s: seq<Seg>, m: nat) returns (q: seq<Stretch>)
    requires Decorates(o, s) && Maximal(o, {m + 1}) && m < |s| && s[m].IsFree()
    ensures Decorates(q, MergeNext(s, m)) && Maximal(q, {}) && Owners(q) == Owners(o)
  {
    if m + 1 < |s| && s[m + 1].IsFree() {
      FuseFree(o, s, m, {m + 1}, {});
      q := Fuse(o, m);
    } else {
      assert {m + 1} == {} + {m + 1};
      DropHole(o, m + 1, {});
      q := o;
    }
  }

  /** Releasing hands exactly the released pages to FREE. */
  lemma {:induction false} ReleaseOwners(o: seq<Stretch>, s: seq<Seg>, total: nat, k: nat, page: nat, n: nat)
    returns (q: seq<Stretch>)
    requires Tiles(s, total) && total > 0 && Decorates(o, s) && Maximal(o, {})
    requires k < |s| && !s[k].IsFree() && 0 < n && s[k].start <= page && page + n <= s[k].start + s[k].npages
    ensures page + n <= |Owners(o)|
    ensures Decorates(q, ReleaseAt(s, k, page, n)) && Maximal(q, {})
    ensures Owners(q) == Assign(Owners(o), page, n, FREE)
  {
    hide CutAt, Replace, ReleaseParts, CoalesceAt, Assign, Owners;
    CutOwners(o, s, total, k, page - s[k].start, n, FREE);
    CutShape(o, k, page - s[k].start, n, FREE);
    CutDecorates(o, s, k, page, n);
    var cut := CutAt(o, k, page - s[k].start, n, FREE);
    q := CoalesceOwners(cut, Replace(s, k, ReleaseParts(s[k], page, n)), MidIndex(s[k], k, page));
  }

  lemma {:induction false} CutDecorates(o: seq<Stretch>, s: seq<Seg>, k: nat, page: nat, n: nat)
    requires Decorates(o, s) && k < |s| && !s[k].IsFree() && s[k].start <= page && page + n <= s[k].start + s[k].npages
    ensures Decorates(CutAt(o, k, page - s[k].start, n, FREE), Replace(s, k, ReleaseParts(s[k], page, n)))
    ensures var m := MidIndex(s[k], k, page);
            m < |Replace(s, k, ReleaseParts(s[k], page, n))| && Replace(s, k, ReleaseParts(s[k], page, n))[m].IsFree()
  {
    ReplaceDecorates(o, s, k, CutParts(o[k], page - s[k].start, n, FREE), ReleaseParts(s[k], page, n));
  }

  lemma {:induction false} ReplaceDecorates(o: seq<Stretch>, s: seq<Seg>, k: nat, op: seq<Stretch>, sp: seq<Seg>)
    requires Decorates(o, s) && k < |s| && Decorates(op, sp)
    ensures Decorates(o[..k] + op + o[k + 1..], Replace(s, k, sp))
  {
    var q, t := o[..k] + op + o[k + 1..], Replace(s, k, sp);
    forall i | 0 <= i < |t|
      ensures q[i].npages == t[i].npages && (q[i].owner == FREE <==> t[i].IsFree())
    {
      if i < k {
      } else if i < k + |sp| {
        assert q[i] == op[i - k] && t[i] == sp[i - k];
      } else {
        assert q[i] == o[i - |sp| + 1] && t[i] == s[i - |sp| + 1];
      }
    }
  }

  lemma {:induction false} CutShape(o: seq<Stretch>, k: nat, pad: nat, n: nat, owner: int)
    requires k < |o| && 0 < n && pad + n <= o[k].npages && Maximal(o, {})
    ensures var m := if pad > 0 then k + 1 else k;
            m < |CutAt(o, k, pad, n, owner)| && Maximal(CutAt(o, k, pad, n, owner), {m, m + 1})
  {
    var q := CutAt(o, k, pad, n, owner);
    var m := if pad > 0 then k + 1 else k;
    var d := |CutParts(o[k], pad, n, owner)| - 1;
    forall i | 0 < i < |q| && i !in {m, m + 1}
      ensures Change(q, i)
    {
      if i <= k {
        assert Change(o, i);
      } else if i > k + d {
        assert Change(o, i - d);
      }
    }
  }
}
