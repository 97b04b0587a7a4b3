/** The value of a virtual range list: consecutive segments that tile [0, total) pages, with the
    page bitmap it stands for and the operations of the allocator as splices of the sequence. */
module Segments {
  import opened Machine

  datatype Use = Free | Used

  datatype Seg = Seg(start: nat, npages: nat, use: Use) {
    predicate IsFree() { use.Free? }
  }

  function UseOf(free: bool): Use {
    if free then Free else Used
  }

  ghost predicate Joined(s: seq<Seg>, i: int)
    requires 0 <= i < |s| - 1
  {
    s[i + 1].start == s[i].start + s[i].npages
  }

  /** The segments cover [0, total) in address order.  A range of no pages is one empty free segment. */
  ghost predicate Tiles(s: seq<Seg>, total: nat) {
    && |s| > 0 && s[0].start == 0 && s[|s| - 1].start + s[|s| - 1].npages == total
    && (forall i {:trigger Joined(s, i)} :: 0 <= i < |s| - 1 ==> Joined(s, i))
    && (total > 0 ==> forall i :: 0 <= i < |s| ==> s[i].npages > 0)
    && (total == 0 ==> |s| == 1 && s[0].IsFree())
  }

  /** No two neighbouring segments are both free. */
  ghost predicate NormalForm(s: seq<Seg>) {
    forall i {:trigger NotBothFree(s, i)} :: 0 <= i < |s| - 1 ==> NotBothFree(s, i)
  }

  ghost predicate NotBothFree(s: seq<Seg>, i: int)
    requires 0 <= i < |s| - 1
  {
    !(s[i].IsFree() && s[i + 1].IsFree())
  }

  lemma {:induction false} EndInRange(s: seq<Seg>, total: nat, j: nat)
    requires Tiles(s, total) && j < |s|
    ensures s[j].start + s[j].npages <= total
    decreases |s| - j
  {
    if j + 1 < |s| {
      EndInRange(s, total, j + 1);
      assert Joined(s, j);
    }
  }

  lemma {:induction false} Ordered(s: seq<Seg>, total: nat, i: nat, j: nat)
    requires Tiles(s, total) && i <= j < |s|
    ensures s[i].start <= s[j].start && s[j].start + s[j].npages <= total
    ensures i < j ==> s[i].start + s[i].npages <= s[j].start
    decreases j
  {
    EndInRange(s, total, j);
    if i < j {
      Ordered(s, total, i, j - 1);
      assert Joined(s, j - 1);
    }
  }

  // ---------- The page bitmap ----------

  function Run(b: bool, n: nat): (r: seq<bool>)
    ensures |r| == n && forall i :: 0 <= i < n ==> r[i] == b
  {
    seq(n, _ => b)
  }

  /** One boolean a page: is it free? */
  function Pages(s: seq<Seg>): seq<bool> {
    if s == [] then [] else Run(s[0].IsFree(), s[0].npages) + Pages(s[1..])
  }

  lemma {:induction false} PagesConcat(a: seq<Seg>, b: seq<Seg>)
    ensures Pages(a + b) == Pages(a) + Pages(b)
  {
    if a == [] {
      assert a + b == b;
    } else {
      PagesConcat(a[1..], b);
      assert (a + b)[1..] == a[1..] + b && (a + b)[0] == a[0];
    }
  }

  lemma PagesOne(x: Seg)
    ensures Pages([x]) == Run(x.IsFree(), x.npages)
  {
    assert [x][1..] == [];
  }

  lemma {:induction false} PagesPrefix(s: seq<Seg>, total: nat, n: nat)
    requires Tiles(s, total) && n <= |s|
    ensures |Pages(s[..n])| == if n < |s| then s[n].start else total
  {
    if n > 0 {
      PagesPrefix(s, total, n - 1);
      assert n < |s| ==> Joined(s, n - 1);
      PagesConcat(s[..n - 1], [s[n - 1]]);
      PagesOne(s[n - 1]);
      assert s[..n] == s[..n - 1] + [s[n - 1]];
    }
  }

  lemma {:induction false} PagesSplit(s: seq<Seg>, k: nat)
    requires k < |s|
    ensures Pages(s) == Pages(s[..k]) + Run(s[k].IsFree(), s[k].npages) + Pages(s[k + 1..])
  {
    assert s == s[..k] + [s[k]] + s[k + 1..];
    PagesConcat(s[..k], [s[k]]);
    PagesConcat(s[..k] + [s[k]], s[k + 1..]);
    PagesOne(s[k]);
  }

  /** The bitmap has one bit for every page, the bit of the segment the page lies in. */
  lemma {:induction false} PagesAt(s: seq<Seg>, total: nat, k: nat, p: nat)
    requires Tiles(s, total) && k < |s| && s[k].start <= p < s[k].start + s[k].npages
    ensures |Pages(s)| == total && p < total && Pages(s)[p] == s[k].IsFree()
  {
    PagesSplit(s, k);
    PagesPrefix(s, total, k);
    PagesLength(s, total);
  }

  lemma {:induction false} PagesLength(s: seq<Seg>, total: nat)
    requires Tiles(s, total)
    ensures |Pages(s)| == total
  {
    PagesPrefix(s, total, |s|);
    assert s[..|s|] == s;
  }

  // ---------- Splices ----------

  ghost predicate Splits(x: Seg, parts: seq<Seg>) {
    && |parts| > 0 && parts[0].start == x.start && parts[|parts| - 1].start + parts[|parts| - 1].npages == x.start + x.npages
    && (forall i {:trigger Joined(parts, i)} :: 0 <= i < |parts| - 1 ==> Joined(parts, i))
    && (forall i :: 0 <= i < |parts| ==> parts[i].npages > 0)
  }

  function Replace(s: seq<Seg>, k: nat, parts: seq<Seg>): seq<Seg>
    requires k < |s|
  {
    s[..k] + parts + s[k + 1..]
  }

  lemma {:induction false} ReplaceTiles(s: seq<Seg>, total: nat, k: nat, parts: seq<Seg>)
    requires Tiles(s, total) && total > 0 && k < |s| && Splits(s[k], parts)
    ensures Tiles(Replace(s, k, parts), total)
  {
    var t := Replace(s, k, parts);
    var d := |parts| - 1;
    assert k > 0 ==> Joined(s, k - 1);
    assert k + 1 < |s| ==> Joined(s, k);
    forall i | 0 <= i < |t|
      ensures t[i].npages > 0
    {
      ReplacedAt(s, k, parts, i);
    }
    forall i | 0 <= i < |t| - 1
      ensures Joined(t, i)
    {
      ReplacedAt(s, k, parts, i);
      ReplacedAt(s, k, parts, i + 1);
      if i < k - 1 {
        assert Joined(s, i);
      } else if k <= i < k + d {
        assert Joined(parts, i - k);
      } else if i > k + d {
        assert Joined(s, i - d);
      }
    }
  }

  lemma ReplacedAt(s: seq<Seg>, k: nat, parts: seq<Seg>, i: nat)
    requires k < |s| && |parts| > 0 && i < |s| + |parts| - 1
    ensures Replace(s, k, parts)[i]
         == if i < k then s[i] else if i < k + |parts| then parts[i - k] else s[i - |parts| + 1]
  {
  }

  lemma {:induction false} ReplacePages(s: seq<Seg>, k: nat, parts: seq<Seg>)
    requires k < |s|
    ensures Pages(Replace(s, k, parts)) == Pages(s[..k]) + Pages(parts) + Pages(s[k + 1..])
  {
    PagesConcat(s[..k], parts);
    PagesConcat(s[..k] + parts, s[k + 1..]);
  }

  /** Cut segment k after its first `left` pages. */
  function SplitAt(s: seq<Seg>, k: nat, left: nat): seq<Seg>
    requires k < |s| && 0 < left < s[k].npages
  {
    Replace(s, k, [Seg(s[k].start, left, s[k].use), Seg(s[k].start + left, s[k].npages - left, s[k].use)])
  }

  lemma {:induction false} SplitAtKeepsPages(s: seq<Seg>, total: nat, k: nat, left: nat)
    requires Tiles(s, total) && k < |s| && 0 < left < s[k].npages
    ensures Tiles(SplitAt(s, k, left), total) && Pages(SplitAt(s, k, left)) == Pages(s)
  {
    var a, b := Seg(s[k].start, left, s[k].use), Seg(s[k].start + left, s[k].npages - left, s[k].use);
    Ordered(s, total, k, k);
    ReplaceTiles(s, total, k, [a, b]);
    ReplacePages(s, k, [a, b]);
    PagesSplit(s, k);
    PagesConcat([a], [b]);
    PagesOne(a);
    PagesOne(b);
    assert [a, b] == [a] + [b];
    assert Run(a.IsFree(), a.npages) + Run(b.IsFree(), b.npages) == Run(s[k].IsFree(), s[k].npages);
  }

  lemma SplitAtParts(s: seq<Seg>, k: nat, left: nat)
    requires k < |s| && 0 < left < s[k].npages
    ensures |SplitAt(s, k, left)| == |s| + 1
    ensures SplitAt(s, k, left)[k] == Seg(s[k].start, left, s[k].use)
    ensures SplitAt(s, k, left)[k + 1] == Seg(s[k].start + left, s[k].npages - left, s[k].use)
  {
  }

  function Mark(s: seq<Seg>, k: nat, free: bool): seq<Seg>
    requires k < |s|
  {
    s[k := s[k].(use := UseOf(free))]
  }

  /** Fuse segments k and k + 1 under the first one's header. */
  function MergeAt(s: seq<Seg>, k: nat): seq<Seg>
    requires k + 1 < |s|
  {
    s[..k] + [Seg(s[k].start, s[k].npages + s[k + 1].npages, s[k].use)] + s[k + 2..]
  }

  lemma {:induction false} MergeTiles(s: seq<Seg>, total: nat, k: nat)
    requires Tiles(s, total) && k + 1 < |s|
    ensures Tiles(MergeAt(s, k), total)
  {
    var t := MergeAt(s, k);
    assert Joined(s, k);
    forall i | 0 <= i < |t| - 1
      ensures Joined(t, i)
    {
      assert Joined(s, if i < k then i else i + 1);
    }
    forall i | 0 <= i < |t|
      ensures t[i].npages > 0
    {
      assert t[i].npages >= s[if i <= k then i else i + 1].npages;
    }
  }

  lemma {:induction false} MergePages(s: seq<Seg>, k: nat)
    requires k + 1 < |s| && s[k].IsFree() == s[k + 1].IsFree()
    ensures Pages(MergeAt(s, k)) == Pages(s)
  {
    var x := Seg(s[k].start, s[k].npages + s[k + 1].npages, s[k].use);
    assert s == s[..k] + [s[k], s[k + 1]] + s[k + 2..];
    PagesConcat(s[..k], [x]);
    PagesConcat(s[..k] + [x], s[k + 2..]);
    PagesConcat(s[..k], [s[k], s[k + 1]]);
    PagesConcat(s[..k] + [s[k], s[k + 1]], s[k + 2..]);
    assert [s[k], s[k + 1]] == [s[k]] + [s[k + 1]];
    PagesConcat([s[k]], [s[k + 1]]);
    PagesOne(s[k]);
    PagesOne(s[k + 1]);
    PagesOne(x);
    assert Run(x.IsFree(), x.npages) == Run(s[k].IsFree(), s[k].npages) + Run(s[k + 1].IsFree(), s[k + 1].npages);
  }

  function MergePrev(s: seq<Seg>, k: nat): seq<Seg>
    requires k < |s|
  {
    if k > 0 && s[k - 1].IsFree() then MergeAt(s, k - 1) else s
  }

  function MergeNext(s: seq<Seg>, k: nat): seq<Seg>
    requires k < |s|
  {
    if k + 1 < |s| && s[k + 1].IsFree() then MergeAt(s, k) else s
  }

  /** Fuse a free segment with its free neighbours, the left one first. */
  function CoalesceAt(s: seq<Seg>, k: nat): seq<Seg>
    requires k < |s|
  {
    MergeNext(MergePrev(s, k), if k > 0 && s[k - 1].IsFree() then k - 1 else k)
  }

  lemma {:induction false} CoalesceKeepsPages(s: seq<Seg>, total: nat, k: nat)
    requires Tiles(s, total) && k < |s| && s[k].IsFree()
    ensures Tiles(CoalesceAt(s, k), total) && Pages(CoalesceAt(s, k)) == Pages(s)
  {
    var t := MergePrev(s, k);
    var k' := if k > 0 && s[k - 1].IsFree() then k - 1 else k;
    if k' < k {
      MergeTiles(s, total, k - 1);
      MergePages(s, k - 1);
    }
    assert t[k'].IsFree();
    if k' + 1 < |t| && t[k' + 1].IsFree() {
      MergeTiles(t, total, k');
      MergePages(t, k');
    }
  }

  // ---------- Allocation ----------

  /** The pieces an allocation cuts a free segment into: padding, the allocated run, the rest. */
  function CarveParts(x: Seg, pad: nat, n: nat): seq<Seg>
    requires pad + n <= x.npages
  {
    (if pad > 0 then [Seg(x.start, pad, Free)] else [])
    + [Seg(x.start + pad, n, Used)]
    + (if pad + n < x.npages then [Seg(x.start + pad + n, x.npages - pad - n, Free)] else [])
  }

  function CarveAt(s: seq<Seg>, k: nat, pad: nat, n: nat): seq<Seg>
    requires k < |s| && pad + n <= s[k].npages
  {
    Replace(s, k, CarveParts(s[k], pad, n))
  }

  /** Overwrite the bits of [a, a + n). */
  function Paint(m: seq<bool>, a: nat, n: nat, b: bool): seq<bool>
    requires a + n <= |m|
  {
    m[..a] + Run(b, n) + m[a + n..]
  }

  ghost predicate AllPages(m: seq<bool>, a: nat, n: nat, b: bool) {
    a + n <= |m| && forall p :: a <= p < a + n ==> m[p] == b
  }

  /** Overwriting inside one uniform stretch of the bitmap. */
  lemma {:induction false} PaintInside(w: seq<bool>, w': seq<bool>, pre: seq<bool>, mid: seq<bool>, post: seq<bool>,
                                       a: nat, m: nat, pad: nat, n: nat, b: bool)
    requires pad + n <= m && |pre| == a
    requires w == pre + Run(b, m) + post
    requires w' == pre + mid + post && mid == Run(b, pad) + Run(!b, n) + Run(b, m - pad - n)
    ensures AllPages(w, a + pad, n, b)
    ensures w' == Paint(w, a + pad, n, !b)
  {
    assert w[..a + pad] == pre + Run(b, pad);
    assert w[a + pad + n..] == Run(b, m - pad - n) + post;
    assert |w| == |w'|;
    assert forall p :: 0 <= p < |w| ==> w'[p] == Paint(w, a + pad, n, !b)[p];
  }

  lemma {:induction false} CarvePartsPages(x: Seg, pad: nat, n: nat)
    requires x.IsFree() && 0 < n && pad + n <= x.npages
    ensures Pages(CarveParts(x, pad, n)) == Run(true, pad) + Run(false, n) + Run(true, x.npages - pad - n)
    ensures Splits(x, CarveParts(x, pad, n))
  {
    var l := if pad > 0 then [Seg(x.start, pad, Free)] else [];
    var m := [Seg(x.start + pad, n, Used)];
    var r := if pad + n < x.npages then [Seg(x.start + pad + n, x.npages - pad - n, Free)] else [];
    PagesConcat(l + m, r);
    PagesConcat(l, m);
    PagesOne(m[0]);
    if pad > 0 {
      PagesOne(l[0]);
    }
    if pad + n < x.npages {
      PagesOne(r[0]);
    }
  }

  /** Carving turns exactly the run [start + pad, start + pad + n) from free to used. */
  lemma {:induction false} CarveRefinesBitmap(s: seq<Seg>, total: nat, k: nat, pad: nat, n: nat)
    requires Tiles(s, total) && k < |s| && s[k].IsFree() && 0 < n && pad + n <= s[k].npages
    ensures Tiles(CarveAt(s, k, pad, n), total)
    ensures AllPages(Pages(s), s[k].start + pad, n, true)
    ensures Pages(CarveAt(s, k, pad, n)) == Paint(Pages(s), s[k].start + pad, n, false)
  {
    var parts := CarveParts(s[k], pad, n);
    CarvePartsPages(s[k], pad, n);
    Ordered(s, total, k, k);
    ReplaceTiles(s, total, k, parts);
    ReplacePages(s, k, parts);
    PagesSplit(s, k);
    PagesPrefix(s, total, k);
    PagesLength(s, total);
    PaintInside(Pages(s), Pages(CarveAt(s, k, pad, n)), Pages(s[..k]), Pages(parts), Pages(s[k + 1..]),
                s[k].start, s[k].npages, pad, n, true);
  }

  // ---------- Release ----------

  function ReleaseParts(x: Seg, page: nat, n: nat): seq<Seg>
    requires x.start <= page && page + n <= x.start + x.npages
  {
    (if page > x.start then [Seg(x.start, page - x.start, Used)] else [])
    + [Seg(page, n, Free)]
    + (if page + n < x.start + x.npages then [Seg(page + n, x.start + x.npages - (page + n), Used)] else [])
  }

  /** Index of the freed piece after the split. */
  function MidIndex(x: Seg, k: nat, page: nat): nat {
    if page > x.start then k + 1 else k
  }

  /** Free [page, page + n) inside the used segment k: split off what stays used, then coalesce. */
  function ReleaseAt(s: seq<Seg>, k: nat, page: nat, n: nat): seq<Seg>
    requires k < |s| && s[k].start <= page && page + n <= s[k].start + s[k].npages
  {
    CoalesceAt(Replace(s, k, ReleaseParts(s[k], page, n)), MidIndex(s[k], k, page))
  }

  lemma {:induction false} ReleasePartsPages(x: Seg, page: nat, n: nat)
    requires !x.IsFree() && 0 < n && x.start <= page && page + n <= x.start + x.npages
    ensures Pages(ReleaseParts(x, page, n))
         == Run(false, page - x.start) + Run(true, n) + Run(false, x.start + x.npages - (page + n))
    ensures Splits(x, ReleaseParts(x, page, n))
  {
    var l := if page > x.start then [Seg(x.start, page - x.start, Used)] else [];
    var m := [Seg(page, n, Free)];
    var r := if page + n < x.start + x.npages then [Seg(page + n, x.start + x.npages - (page + n), Used)] else [];
    PagesConcat(l + m, r);
    PagesConcat(l, m);
    PagesOne(m[0]);
    if page > x.start {
      PagesOne(l[0]);
    }
    if page + n < x.start + x.npages {
      PagesOne(r[0]);
    }
  }

  lemma {:induction false} FreePartsInBitmap(s: seq<Seg>, total: nat, k: nat, page: nat, n: nat)
    requires Tiles(s, total) && k < |s| && !s[k].IsFree() && 0 < n && s[k].start <= page && page + n <= s[k].start + s[k].npages
    ensures Tiles(Replace(s, k, ReleaseParts(s[k], page, n)), total)
    ensures AllPages(Pages(s), page, n, false)
    ensures Pages(Replace(s, k, ReleaseParts(s[k], page, n))) == Paint(Pages(s), page, n, true)
  {
    hide Pages, Paint, ReleaseParts, Tiles, AllPages;
    var parts := ReleaseParts(s[k], page, n);
    ReleasePartsPages(s[k], page, n);
    Ordered(s, total, k, k);
    ReplaceTiles(s, total, k, parts);
    ReplacePages(s, k, parts);
    PagesSplit(s, k);
    PagesPrefix(s, total, k);
    PagesLength(s, total);
    PaintInside(Pages(s), Pages(Replace(s, k, parts)), Pages(s[..k]), Pages(parts), Pages(s[k + 1..]),
                s[k].start, s[k].npages, page - s[k].start, n, false);
  }

  /** Releasing turns exactly [page, page + n) from used to free. */
  lemma {:induction false} ReleaseRefinesBitmap(s: seq<Seg>, total: nat, k: nat, page: nat, n: nat)
    requires Tiles(s, total) && k < |s| && !s[k].IsFree() && 0 < n && s[k].start <= page && page + n <= s[k].start + s[k].npages
    ensures Tiles(ReleaseAt(s, k, page, n), total)
    ensures AllPages(Pages(s), page, n, false)
    ensures Pages(ReleaseAt(s, k, page, n)) == Paint(Pages(s), page, n, true)
  {
    FreePartsInBitmap(s, total, k, page, n);
    CoalesceKeepsPages(Replace(s, k, ReleaseParts(s[k], page, n)), total, MidIndex(s[k], k, page));
  }
}
