/** The virtual page-range allocator: a doubly linked list of nodes tiling the page range, changed in
    place.  The ghost field `spine` is the list in order, `view` the segment sequence it stands for. */
module VirtualRanges {
  import opened Machine
  import opened Segments
  import opened SegmentLaws
  import opened SegmentTheorems
  import opened NodePools
  import opened NodeSupply

  class VAddrAllocator {
    const pool: NodePool
    var head: Node?
    var base: u64
    var totalPages: nat
    var locked: bool
    ghost var spine: seq<Node>
    /** The segments the list stands for. */
    ghost var view: seq<Seg>

    // ---------- Invariant ----------

    ghost predicate LinkAt(i: nat)
      requires i < |spine|
      reads this`spine, spine`next, spine`prev
    {
      && spine[i].prev == (if i == 0 then null else spine[i - 1])
      && spine[i].next == (if i + 1 == |spine| then null else spine[i + 1])
    }

    /** `prev` and `next` are each other's inverse along the spine. */
    ghost predicate Linked()
      reads this`head, this`spine, spine`next, spine`prev
    {
      |spine| > 0 && head == spine[0] && forall i {:trigger LinkAt(i)} :: 0 <= i < |spine| ==> LinkAt(i)
    }

    ghost function SegAt(i: nat): Seg
      requires i < |spine|
      reads this`spine, spine`start, spine`npages, spine`isFree
    {
      Seg(spine[i].start, spine[i].npages, UseOf(spine[i].isFree))
    }

    /** `view` is what the nodes say. */
    ghost predicate Shows()
      reads this`spine, this`view, spine`start, spine`npages, spine`isFree
    {
      |view| == |spine| && forall i {:trigger SegAt(i)} :: 0 <= i < |spine| ==> SegAt(i) == view[i]
    }

    /** A node occurs once on the list, because starts increase along it. */
    lemma {:induction false} OccursOnce(k: nat)
      requires Shows() && Tiles(view, totalPages) && k < |spine|
      ensures Once(k)
    {
      forall i | 0 <= i < |spine| && i != k
        ensures spine[i] != spine[k]
      {
        assert view[i] == SegAt(i) && view[k] == SegAt(k);
        if i < k {
          Ordered(view, totalPages, i, k);
        } else {
          Ordered(view, totalPages, k, i);
        }
      }
    }

    lemma {:induction false} OccurOnce(k: nat)
      requires Shows() && Tiles(view, totalPages) && k < |spine|
      ensures Once(k) && Once(k + 1) && Once(k + 2)
    {
      OccursOnce(k);
      if k + 1 < |spine| {
        OccursOnce(k + 1);
      }
      if k + 2 < |spine| {
        OccursOnce(k + 2);
      }
    }

    ghost predicate Once(k: nat)
      reads this`spine
    {
      k < |spine| ==> forall i :: 0 <= i < |spine| && i != k ==> spine[i] != spine[k]
    }

    /** The list itself is in order, whatever the pool holds. */
    ghost predicate ListOk()
      reads this`head, this`spine, this`view, this`totalPages, spine
    {
      Linked() && Shows() && totalPages <= MAX_PAGES && Tiles(view, totalPages)
    }

    /** The listed nodes are live, and all but `spare` of the live nodes are listed. */
    ghost predicate Members(spare: nat)
      reads this`spine, pool`live
    {
      |pool.live| == |spine| + spare && forall i :: 0 <= i < |spine| ==> spine[i] in pool.live
    }

    ghost predicate Valid()
      reads this`head, this`spine, this`view, this`totalPages, pool, pool.freeStack, pool.live, spine
    {
      this !in pool.repr && pool.Valid() && Members(0) && ListOk()
    }

    /** No node is lost: the live nodes are exactly the listed ones. */
    lemma {:induction false} LiveNodesAreListed()
      requires Valid()
      ensures forall n :: n in pool.live ==> n in spine
    {
      forall i, j | 0 <= i < j < |spine|
        ensures spine[i] != spine[j]
      {
        OccursOnce(j);
      }
      var listed := Listed(spine);
      ListedSize(spine);
      FullSubset(listed, pool.live);
    }

    static ghost function Listed(ns: seq<Node>): set<Node> {
      set n | n in ns
    }

    static lemma {:induction false} ListedSize(ns: seq<Node>)
      requires forall i, j :: 0 <= i < j < |ns| ==> ns[i] != ns[j]
      ensures |Listed(ns)| == |ns|
    {
      if ns != [] {
        var k := |ns| - 1;
        ListedSize(ns[..k]);
        assert Listed(ns) == Listed(ns[..k]) + {ns[k]};
      }
    }

    /** A default-constructed allocator: a full pool and no list. */
    constructor (maxNodes: nat)
      ensures fresh(pool.repr) && this !in pool.repr && pool.Valid() && pool.live == {} && !locked && spine == []
      ensures pool.top == maxNodes == |pool.nodes| && pool.fallbacks == 0
    {
      pool := new NodePool(maxNodes);
      base, totalPages, locked, head := 0, 0, false, null;
      spine, view := [], [];
    }

    /** `init`: one free node covers all pages. */
    method Init(base: u64, size: u64)
      requires this !in pool.repr && pool.Valid() && pool.live == {} && pool.top > 0 && spine == []
      modifies this, pool.repr
      ensures Valid() && fresh(pool.repr - old(pool.repr)) && locked == old(locked)
      ensures view == [Seg(0, PageCount(size), Use.Free)]
      ensures this.base == base && totalPages == PageCount(size)
      ensures pool.top == old(pool.top) - 1 && pool.fallbacks == old(pool.fallbacks)
    {
      var n := pool.PopStack();
      StartWith(n, base, PageCount(size));
    }

    /** A list of one free node over all pages. */
    method StartWith(n: Node, base: u64, pages: nat)
      requires this !in pool.repr && pool.Valid() && pool.live == {n} && pages <= MAX_PAGES
      modifies this, n`valid, n`isFree, n`start, n`npages, n`prev, n`next
      ensures Valid() && view == [Seg(0, pages, Use.Free)]
      ensures this.base == base && totalPages == pages && locked == old(locked)
    {
      this.base, totalPages := base, pages;
      n.Fill(true, 0, pages, null, null);
      head := n;
      spine := [n];
      view := [Seg(0, pages, Use.Free)];
      assert LinkAt(0);
    }

    /** The spinlock as one thread sees it: taken once, released once. */
    method Lock()
      requires !locked
      modifies this`locked
      ensures locked
    {
      locked := true;
    }

    method Unlock()
      requires locked
      modifies this`locked
      ensures !locked
    {
      locked := false;
    }

    static function Opt(n: Node?): set<Node> {
      if n == null then {} else {n}
    }

    // ---------- Link surgery ----------

    /** Enter `right` after orig and move orig's tail pages into it. */
    method InsertRight(orig: Node, right: Node, left: nat, ghost k: nat)
      requires Linked() && Shows() && k < |spine| && spine[k] == orig && right !in spine
      requires 0 < left < view[k].npages && Once(k) && Once(k + 1)
      modifies this`spine, this`view, orig`next, orig`npages, Opt(orig.next)`prev
      modifies right`valid, right`isFree, right`start, right`npages, right`prev, right`next
      ensures Linked() && Shows() && spine == old(spine)[..k + 1] + [right] + old(spine)[k + 1..]
      ensures view == SplitAt(old(view), k, left)
    {
      assert LinkAt(k) && SegAt(k) == view[k];
      assert k + 1 < |spine| ==> LinkAt(k + 1);
      right.Fill(orig.isFree, orig.start + left, orig.npages - left, orig, orig.next);
      if orig.next != null {
        orig.next.prev := right;
      }
      orig.next := right;
      orig.npages := left;
      view := SplitAt(view, k, left);
      spine := spine[..k + 1] + [right] + spine[k + 1..];
      forall i | 0 <= i < |spine|
        ensures LinkAt(i)
      {
        assert old(LinkAt(if i <= k then i else if i > k + 1 then i - 1 else k));
      }
      forall i | 0 <= i < |spine|
        ensures SegAt(i) == view[i]
      {
        assert old(SegAt(if i <= k then i else i - 1)) == old(view)[if i <= k then i else i - 1];
      }
    }

    /** Take spine[k + 1] out of the list, adding its pages to p == spine[k]. */
    method FuseInto(p: Node, n: Node, ghost k: nat)
      requires Linked() && Shows() && k + 1 < |spine| && spine[k] == p && spine[k + 1] == n
      requires Once(k) && Once(k + 1) && Once(k + 2)
      modifies this`spine, this`view, p`npages, p`next, Opt(n.next)`prev
      ensures Linked() && Shows() && spine == old(spine)[..k + 1] + old(spine)[k + 2..]
      ensures view == MergeAt(old(view), k) && n !in spine
    {
      assert LinkAt(k) && LinkAt(k + 1) && SegAt(k) == view[k] && SegAt(k + 1) == view[k + 1];
      p.npages := p.npages + n.npages;
      p.next := n.next;
      if n.next != null {
        n.next.prev := p;
      }
      view := MergeAt(view, k);
      spine := spine[..k + 1] + spine[k + 2..];
      forall i | 0 <= i < |spine|
        ensures LinkAt(i)
      {
        assert old(LinkAt(if i <= k then i else i + 1));
      }
      forall i | 0 <= i < |spine|
        ensures SegAt(i) == view[i]
      {
        assert old(SegAt(if i <= k then i else i + 1)) == old(view)[if i <= k then i else i + 1];
      }
    }

    // ---------- Nodes ----------

    /** A node that is on no list yet. */
    method AllocateNode() returns (r: Node?)
      requires Valid()
      modifies this, pool.repr
      ensures this !in pool.repr && pool.Valid() && ListOk() && Same() && spine == old(spine) && view == old(view)
      ensures r == null ==> Members(0) && old(pool.top) == 0
      ensures r != null ==> r in pool.live && Members(1) && r !in spine
      ensures fresh(pool.repr - old(pool.repr)) && NodesUsed(1) && if r == null then NoNode() else OneNode()
    {
      r := pool.Allocate();
      forall i | 0 <= i < |spine|
        ensures LinkAt(i) && SegAt(i) == view[i]
      {
        assert old(LinkAt(i)) && old(SegAt(i)) == view[i];
      }
    }

    method FreeNode(n: Node)
      requires this !in pool.repr && pool.Valid() && ListOk() && n in pool.live && Members(1) && n !in spine
      modifies this, pool.repr
      ensures Valid() && Same() && spine == old(spine) && view == old(view)
      ensures fresh(pool.repr - old(pool.repr)) && NodesUsed(0) && pool.granted == old(pool.granted)
    {
      pool.Release(n);
      forall i | 0 <= i < |spine|
        ensures LinkAt(i) && SegAt(i) == view[i]
      {
        assert old(LinkAt(i)) && old(SegAt(i)) == view[i];
      }
    }

    /** What list operations leave alone. */
    twostate predicate Same()
      reads this
    {
      base == old(base) && totalPages == old(totalPages) && locked == old(locked)
    }

    /** At most n nodes came out of the static pool, and the heap was asked only if it ran dry. */
    twostate predicate NodesUsed(n: nat)
      reads pool, pool.live`dynamic
    {
      && pool.top + n >= old(pool.top) && (old(pool.top) >= n ==> pool.fallbacks == old(pool.fallbacks))
      && (n == 0 ==> pool.granted == old(pool.granted))
      && StaysStatic()
    }

    /** One node was taken, from the stack or else from the heap; or none. */
    twostate predicate OneNode()
      reads pool
    {
      if old(pool.top) > 0 then pool.top == old(pool.top) - 1 && pool.granted == old(pool.granted)
      else pool.top == 0 && pool.granted == old(pool.granted) + 1
    }

    twostate predicate NoNode()
      reads pool
    {
      pool.top == old(pool.top) && pool.granted == old(pool.granted)
    }

    /** `split_node_left`: cut `left` pages off orig; hands back orig when there is nothing to cut or
        no node to hold the rest. */
    method SplitNodeLeft(orig: Node, left: u64, ghost k: nat) returns (right: Node)
      requires Valid() && k < |spine| && spine[k] == orig
      modifies this, pool.repr
      ensures Valid() && Same() && fresh(pool.repr - old(pool.repr))
      ensures right == orig ==>
        && view == old(view) && spine == old(spine)
        && (left == 0 || left >= view[k].npages || old(pool.top) == 0) && NoNode()
      ensures right != orig ==>
        && OneNode()
        && 0 < left < old(view)[k].npages && view == SplitAt(old(view), k, left)
        && spine == old(spine)[..k + 1] + [right] + old(spine)[k + 1..]
      ensures NodesUsed(1)
    {
      assert SegAt(k) == view[k];
      if left == 0 {
        return orig;
      }
      if left >= orig.npages {
        return orig;
      }
      var n := AllocateNode();
      if n == null {
        return orig;
      }
      right := n;
      assert SegAt(k) == view[k];
      Attach(orig, right, left, k);
    }

    method Attach(orig: Node, right: Node, left: nat, ghost k: nat)
      requires this !in pool.repr && pool.Valid() && ListOk() && right in pool.live && Members(1) && right !in spine
      requires k < |spine| && spine[k] == orig && 0 < left < view[k].npages
      modifies this`spine, this`view, pool.live
      ensures Valid() && Same()
      ensures spine == old(spine)[..k + 1] + [right] + old(spine)[k + 1..]
      ensures view == SplitAt(old(view), k, left)
    {
      assert LinkAt(k);
      SplitAtKeepsPages(view, totalPages, k, left);
      OccurOnce(k);
      InsertRight(orig, right, left, k);
    }

    /** `coalesce`: fuse n with a free predecessor, then with a free successor. */
    method Coalesce(n: Node, ghost k: nat)
      requires Valid() && k < |spine| && spine[k] == n && n.isFree
      modifies this, pool.repr
      ensures Valid() && Same() && fresh(pool.repr - old(pool.repr))
      ensures view == CoalesceAt(old(view), k)
      ensures NodesUsed(0)
    {
      assert LinkAt(k) && view[k] == SegAt(k);
      if n.prev != null && n.prev.isFree {
        assert view[k - 1] == SegAt(k - 1);
        var p := n.prev;
        Absorb(p, n, k - 1);
        assert view[k - 1].IsFree() && view[k - 1] == SegAt(k - 1);
        CoalesceRight(p, k - 1);
      } else {
        assert k > 0 ==> view[k - 1] == SegAt(k - 1);
        CoalesceRight(n, k);
      }
    }

    /** The second half of `coalesce`. */
    method CoalesceRight(n: Node, ghost k: nat)
      requires Valid() && k < |spine| && spine[k] == n && n.isFree
      modifies this, pool.repr
      ensures Valid() && Same() && fresh(pool.repr - old(pool.repr))
      ensures view == MergeNext(old(view), k)
      ensures NodesUsed(0)
    {
      assert LinkAt(k);
      if n.next != null && n.next.isFree {
        assert view[k + 1] == SegAt(k + 1);
        Absorb(n, n.next, k);
      } else {
        assert k + 1 < |spine| ==> view[k + 1] == SegAt(k + 1);
      }
    }

    /** One fusing step: unlink n, add its pages to p, give the node back. */
    method Absorb(p: Node, n: Node, ghost k: nat)
      requires Valid() && k + 1 < |spine| && spine[k] == p && spine[k + 1] == n
      requires p.isFree && n.isFree
      modifies this, pool.repr
      ensures Valid() && Same() && fresh(pool.repr - old(pool.repr))
      ensures view == MergeAt(old(view), k) && spine == old(spine)[..k + 1] + old(spine)[k + 2..]
      ensures NodesUsed(0)
    {
      MergeTiles(view, totalPages, k);
      OccurOnce(k);
      assert LinkAt(k + 1);
      FuseInto(p, n, k);
      FreeNode(n);
    }

    // ---------- Addresses ----------

    /** `vaddr_from_page`. */
    function VAddr(page: nat): u64
      requires page * 4096 < TWO64
      reads this`base
    {
      Add64(base, page * 4096)
    }

    /** `page_from_vaddr`; an address below the base wraps to a huge page number. */
    function PageOf(vaddr: u64): u64
      reads this`base
    {
      Sub64(vaddr, base) / 4096
    }

    /** `free` finds the page that `alloc_pages` returned, also when the address wraps. */
    lemma PageOfVAddr(page: nat)
      requires page * 4096 < TWO64
      ensures PageOf(VAddr(page)) == page
    {
    }

    // ---------- alloc_pages ----------

    method SetFree(n: Node, free: bool, ghost k: nat)
      requires Valid() && totalPages > 0 && k < |spine| && spine[k] == n
      modifies this`view, n`isFree
      ensures Valid() && Same() && spine == old(spine)
      ensures view == Mark(old(view), k, free) && n.isFree == free
    {
      MarkTiles(view, totalPages, k, free);
      OccursOnce(k);
      n.isFree := free;
      view := Mark(view, k, free);
      forall i | 0 <= i < |spine|
        ensures LinkAt(i) && SegAt(i) == view[i]
      {
        assert old(LinkAt(i)) && old(SegAt(i)) == old(view)[i];
      }
    }

    /** Split off the remainder if there is one, then mark the run used. */
    method TakeExact(cur: Node, npages: u64, ghost k: nat) returns (ok: bool)
      requires Valid() && totalPages > 0 && k < |spine| && spine[k] == cur && 0 < npages <= view[k].npages
      modifies this, pool.repr
      ensures Valid() && Same() && fresh(pool.repr - old(pool.repr)) && NodesUsed(1)
      ensures ok ==> view == Taken(old(view), k, npages) && k < |spine| && spine[k] == cur
      ensures ok ==> if npages < old(view)[k].npages then OneNode() else NoNode()
      ensures !ok ==> view == old(view) && spine == old(spine) && old(pool.top) == 0 && NoNode()
      ensures !ok ==> npages < view[k].npages
    {
      assert SegAt(k) == view[k];
      if cur.npages > npages {
        var right := SplitNodeLeft(cur, npages, k);
        if right == cur {
          return false;
        }
      }
      SetFree(cur, false, k);
      ok := true;
    }

    /** Cut `npages` pages after `padding` out of the free node cur.  Without a node for the remainder
        the search goes on behind the piece that was reached: the node `resume`; `cut` tells whether the
        padding had been cut off by then. */
    method TakeRun(cur: Node, padding: u64, npages: u64, ghost k: nat)
      returns (run: Node?, resume: Node?, ghost k': nat, ghost cut: bool)
      requires Valid() && totalPages > 0 && k < |spine| && spine[k] == cur && cur.isFree
      requires 0 < npages && padding + npages <= view[k].npages
      modifies this, pool.repr
      ensures Valid() && Same() && fresh(pool.repr - old(pool.repr)) && NodesUsed(2)
      ensures run != null ==> view == CarveAt(old(view), k, padding, npages)
      ensures run != null ==> run.start == old(view)[k].start + padding
      ensures run == null ==>
        && k' <= |spine| && resume == (if k' < |spine| then spine[k'] else null)
        && |spine| - k' < |old(spine)| - k && Pages(view) == Pages(old(view)) && old(pool.top) < 2
        && (padding == 0 ==> !cut)
        && (if cut then CutOnce(old(view), view, k, padding, npages) && k' == k + 2 && OneNode() && pool.top == 0
            else view == old(view) && k' == k + 1 && NoNode() && pool.top == 0)
      ensures StaysStatic()
      ensures run != null && 0 < padding && padding + npages < old(view)[k].npages && old(pool.top) <= 1 ==>
        pool.granted > old(pool.granted)
      ensures run == null ==> padding > 0 || npages < old(view)[k].npages
      ensures run != null && pool.granted == old(pool.granted) ==>
        (if padding > 0 then 1 else 0) + (if padding + npages < old(view)[k].npages then 1 else 0) <= old(pool.top)
    {
      hide SplitAt, CarveAt, Taken, Pages;
      ghost var v0 := view;
      assert SegAt(k) == view[k] && LinkAt(k);
      CarveInSteps(v0, k, padding, npages);
      var piece := cur;
      ghost var j := k;
      if padding > 0 {
        piece := SplitNodeLeft(cur, padding, k);
        if piece == cur {
          assert LinkAt(k);
          return null, cur.next, k + 1, false;
        }
        SplitAtKeepsPages(v0, totalPages, k, padding);
        j := k + 1;
      }
      var ok := TakeExact(piece, npages, j);
      if ok {
        assert SegAt(j) == view[j];
        return piece, null, 0, false;
      }
      assert LinkAt(j);
      return null, piece.next, j + 1, padding > 0;
    }

    /** What holds while the list is searched: the bitmap is the one at entry; with two spare nodes
        (or without alignment) so is the list, and nothing before position k fits. */
    ghost predicate Searching(v0: seq<Seg>, top0: nat, fb0: nat, k: nat, n: u64, align: u64)
      reads this`view, pool
    {
      && k <= |view| && Pages(view) == Pages(v0)
      && (align <= 1 ==> view == v0)
      && (top0 >= 2 ==> view == v0 && pool.top == top0 && pool.fallbacks == fb0)
      && (top0 >= 2 ==> forall i {:trigger Fits(v0[i], n, align)} :: 0 <= i < k ==> !Fits(v0[i], n, align))
    }

    /** The same search, told by its supply of nodes. */
    ghost predicate Supplied(v0: seq<Seg>, top0: nat, g0: nat, k: nat, n: u64, align: u64)
      reads this`view, pool
    {
      && pool.granted >= g0 && Progress(v0, top0, view, pool.top, pool.granted > g0, k, n, align)
      && (pool.granted == g0 ==> OnCourse(v0, top0, view, pool.top, k, n, align))
    }

    /** No node from the heap comes in unless the heap grants one. */
    twostate predicate StaysStatic()
      reads pool, pool.live`dynamic
    {
      && 0 <= pool.granted - old(pool.granted) <= pool.fallbacks - old(pool.fallbacks)
      && (pool.granted == old(pool.granted) && old(pool.Static()) ==> pool.Static())
    }

    /** Visit one node of the list.  Either the run is cut out of it (`run` starts it), or the search
        goes on at `resume`. */
    method Visit(cur: Node, npages: u64, align: u64, ghost k: nat, ghost v0: seq<Seg>, ghost top0: nat, ghost fb0: nat,
                 ghost g0: nat)
      returns (run: Node?, resume: Node?, ghost k': nat, ghost page: nat)
      requires Valid() && k < |spine| && spine[k] == cur && npages > 0 && Alignment(align)
      requires Searching(v0, top0, fb0, k, npages, align) && Supplied(v0, top0, g0, k, npages, align)
      modifies this, pool.repr
      ensures Valid() && Same() && fresh(pool.repr - old(pool.repr))
      ensures run == null ==> Searching(v0, top0, fb0, k', npages, align) && |spine| - k' < |old(spine)| - k
      ensures run == null ==> resume == if k' < |spine| then spine[k'] else null
      ensures run == null ==> Supplied(v0, top0, g0, k', npages, align)
      ensures run != null && NormalForm(v0) ==> Outcome(v0, top0, view, pool.granted > g0, npages, align)
      ensures run != null && pool.granted == g0 ==> AllocFrom(v0, npages, align, |v0| + top0, 0) == Served(Some(page), view)
      ensures StaysStatic()
      ensures run != null ==> run.start == page && CarvedAt(old(view), view, k, page, npages)
      ensures run != null ==> page == AlignedStart(old(view)[k], align) && Fits(old(view)[k], npages, align)
      ensures top0 >= 2 ==> pool.fallbacks == fb0 && pool.top + 2 >= top0
    {
      hide Progress, Outcome, CutOnce, CarveAt, Pages, AlignUp, NormalForm, OnCourse, AllocFrom;
      assert SegAt(k) == view[k] && LinkAt(k);
      EndInRange(view, totalPages, k);
      page := 0;
      if cur.isFree && cur.npages >= npages {
        VAlignUpIsCeiling(cur.start, align);
        var alignedStart := VAlignUp(cur.start, align);
        var padding := alignedStart - cur.start;
        if padding + npages <= cur.npages {
          page := alignedStart;
          ghost var s, top, granted := view, pool.top, pool.granted > g0;
          ghost var cut;
          run, resume, k', cut := TakeRun(cur, padding, npages, k);
          if run == null {
            RunsOut(v0, top0, s, top, granted, k, npages, align, view, pool.top, pool.granted > g0, cut);
            if pool.granted == g0 {
              CourseRunsOut(v0, top0, s, top, k, npages, align, view, pool.top, cut);
            }
          } else {
            if NormalForm(v0) {
              FoundRun(v0, top0, s, top, granted, k, page, npages, align, totalPages, view, pool.granted > g0);
            }
            if pool.granted == g0 {
              CourseFinds(v0, top0, s, top, k, npages, align, view);
            }
          }
          return;
        }
      }
      PassesBy(v0, top0, view, pool.top, pool.granted > g0, k, npages, align);
      if pool.granted == g0 {
        CoursePasses(v0, top0, view, pool.top, k, npages, align);
      }
      run, resume, k' := null, cur.next, k + 1;
    }

    /** Walk the list until a run is cut out (`was` is the list just before that) or the end is reached. */
    method Search(npages: u64, align: u64) returns (run: Node?, ghost hit: nat, ghost page: nat, ghost was: seq<Seg>)
      requires Valid() && npages > 0 && Alignment(align)
      modifies this, pool.repr
      ensures Valid() && Same() && fresh(pool.repr - old(pool.repr))
      ensures run == null ==> Searching(old(view), old(pool.top), old(pool.fallbacks), |view|, npages, align)
      ensures NormalForm(old(view)) ==> Outcome(old(view), old(pool.top), view, pool.granted > old(pool.granted), npages, align)
      ensures pool.granted == old(pool.granted) ==>
        AllocFrom(old(view), npages, align, |old(view)| + old(pool.top), 0) == Served(if run == null then None else Some(page), view)
      ensures StaysStatic()
      ensures run != null ==> run.start == page && Tiles(was, totalPages) && Pages(was) == Pages(old(view))
      ensures run != null ==> CarvedAt(was, view, hit, page, npages) && page == AlignedStart(was[hit], align)
      ensures run != null && (old(pool.top) >= 2 || align <= 1) ==> was == old(view)
      ensures run != null && old(pool.top) >= 2 ==> FirstFit(was, hit, npages, align)
      ensures old(pool.top) >= 2 ==> pool.fallbacks == old(pool.fallbacks) && pool.top + 2 >= old(pool.top)
    {
      hide Progress, Outcome, OnCourse, AllocFrom, NormalForm, CarvedAt;
      run, hit, page, was := null, 0, 0, view;
      StartsUntouched(view, pool.top, npages, align);
      CourseStarts(view, pool.top, npages, align);
      var cur := head;
      while cur != null
        invariant Valid() && Same() && fresh(pool.repr - old(pool.repr))
        invariant Searching(old(view), old(pool.top), old(pool.fallbacks), hit, npages, align)
        invariant Supplied(old(view), old(pool.top), old(pool.granted), hit, npages, align) && StaysStatic()
        invariant run == null && cur == if hit < |spine| then spine[hit] else null
        decreases |spine| - hit
      {
        was := view;
        ghost var k';
        run, cur, k', page := Visit(cur, npages, align, hit, old(view), old(pool.top), old(pool.fallbacks), old(pool.granted));
        if run != null {
          return;
        }
        hit := k';
      }
      if NormalForm(old(view)) {
        FoundNone(old(view), old(pool.top), view, pool.top, pool.granted > old(pool.granted), npages, align);
      }
      if pool.granted == old(pool.granted) {
        CourseEnds(old(view), old(pool.top), view, pool.top, npages, align);
      }
    }

    /** First-fit allocation.  `hit` is the segment served from and `page` the first page of the run. */
    method AllocPages(npages: u64, align: u64) returns (r: Option<u64>, ghost hit: nat, ghost page: nat)
      requires Valid() && !locked && (npages == 0 || (align >= 1 && And(align, align - 1) == 0))
      modifies this, pool.repr
      ensures Valid() && Same() && fresh(pool.repr - old(pool.repr))
      ensures npages == 0 ==> r.None? && view == old(view)
      // Refinement of the page bitmap, whatever the supply of nodes.
      ensures r.None? ==> Pages(view) == Pages(old(view))
      ensures r.Some? ==> page * 4096 < TWO64 && r.value == VAddr(page)
      ensures r.Some? ==> RunTaken(old(view), view, page, npages, align)
      // With two spare nodes: first fit, decided exactly, and no heap fallback.
      ensures old(pool.top) >= 2 ==> pool.fallbacks == old(pool.fallbacks) && pool.top + 2 >= old(pool.top)
      ensures old(pool.top) >= 2 && r.Some? ==> CarvedAt(old(view), view, hit, page, npages)
      ensures old(pool.top) >= 2 && r.Some? ==>
        FirstFit(old(view), hit, npages, align) && page == AlignedStart(old(view)[hit], align)
      ensures old(pool.top) >= 2 && r.None? ==> view == old(view) && (npages > 0 ==> NoFit(view, npages, align))
      // Which supply of nodes costs the list its normal form.
      ensures npages > 0 && NormalForm(old(view)) ==>
        Outcome(old(view), old(pool.top), view, pool.granted > old(pool.granted), npages, align)
      // The whole effect and the answer, if the heap grants no node.
      ensures npages > 0 && pool.granted == old(pool.granted) ==>
        AllocFrom(old(view), npages, align, |old(view)| + old(pool.top), 0) == Served(if r.None? then None else Some(page), view)
      ensures StaysStatic()
      // Without alignment the list stays a carve of the old one even when nodes run out.
      ensures align <= 1 ==> if r.Some? then CarvedAt(old(view), view, hit, page, npages) else view == old(view)
    {
      hide CarveAt, Pages, Outcome, AllocFrom, NormalForm;
      hit, page := 0, 0;
      if npages == 0 {
        return None, hit, page;
      }
      PowerOfTwoTest(align);
      PowersAreAlignments(align);
      Lock();
      var run;
      ghost var was;
      run, hit, page, was := Search(npages, align);
      if run != null {
        CarvedIsRun(old(view), was, view, totalPages, hit, page, npages, align);
        r := Some(VAddr(run.start));
        Unlock();
        return;
      }
      Unlock();
      r := None;
    }

    static lemma {:induction false} CarvedIsRun(v0: seq<Seg>, s: seq<Seg>, t: seq<Seg>, total: nat,
                                                k: nat, page: nat, n: nat, align: u64)
      requires Tiles(s, total) && total <= MAX_PAGES && CarvedAt(s, t, k, page, n) && Pages(s) == Pages(v0)
      requires Alignment(align) && page == AlignedStart(s[k], align)
      ensures page * 4096 < TWO64 && RunTaken(v0, t, page, n, align)
    {
      EndInRange(s, total, k);
      VAlignUpIsCeiling(s[k].start, align);
      CarveRefinesBitmap(s, total, k, page - s[k].start, n);
    }

    // ---------- free ----------

    /** The nodes the list could have during the call: those on it and on the stack at entry, and what the heap
        granted. */
    twostate function Supply(): int
      reads this`view, pool
    {
      |old(view)| + old(pool.top) + pool.granted - old(pool.granted)
    }

    /** Split `left` pages off the front of working, unless there are none to split off. */
    method CutFront(working: Node, left: u64, ghost k: nat) returns (mid: Node?)
      requires Valid() && k < |spine| && spine[k] == working
      modifies this, pool.repr
      ensures Valid() && Same() && fresh(pool.repr - old(pool.repr)) && NodesUsed(1) && Pages(view) == Pages(old(view))
      ensures left == 0 ==> mid == working && view == old(view) && spine == old(spine)
      ensures left > 0 && mid != null ==> left < old(view)[k].npages && view == SplitAt(old(view), k, left)
      ensures left > 0 && mid != null ==> k + 1 < |spine| && spine[k + 1] == mid
      ensures mid == null ==> view == old(view) && left > 0 && (left >= view[k].npages || old(pool.top) == 0)
      ensures if left > 0 && mid != null then OneNode() else NoNode()
    {
      hide SplitAt, Pages;
      mid := working;
      if left > 0 {
        mid := SplitNodeLeft(working, left, k);
        if mid == working {
          return null;
        }
        SplitAtKeepsPages(old(view), totalPages, k, left);
      }
    }

    /** Split the last `right` pages off working, unless there are none to split off. */
    method CutBack(working: Node, right: u64, ghost k: nat) returns (ok: bool)
      requires Valid() && k < |spine| && spine[k] == working && view[k].npages < TWO64
      modifies this, pool.repr
      ensures Valid() && Same() && fresh(pool.repr - old(pool.repr)) && NodesUsed(1) && Pages(view) == Pages(old(view))
      ensures right == 0 ==> ok
      ensures ok ==> k < |spine| && spine[k] == working
      ensures right == 0 || !ok ==> view == old(view)
      ensures var keep := Sub64(old(view)[k].npages, right);
              && (right > 0 && ok ==> 0 < keep < old(view)[k].npages && view == SplitAt(old(view), k, keep))
              && (!ok ==> keep == 0 || keep >= old(view)[k].npages || old(pool.top) == 0)
      ensures if right > 0 && ok then OneNode() else NoNode()
    {
      hide SplitAt, Pages;
      assert SegAt(k) == view[k];
      if right > 0 {
        var tail := SplitNodeLeft(working, Sub64(working.npages, right), k);
        if tail == working {
          return false;
        }
        SplitAtKeepsPages(old(view), totalPages, k, Sub64(old(view)[k].npages, right));
      }
      ok := true;
    }

    /** Split a used node until one node holds exactly [page, page + npages).  The end of the range is a
        64-bit sum that may wrap; then, as for a range that leaves the node, there is no such node. */
    method Isolate(cur: Node, page: nat, npages: u64, ghost k: nat) returns (middle: Node?)
      requires Valid() && k < |spine| && spine[k] == cur && !view[k].IsFree()
      requires npages > 0 && view[k].start <= page < view[k].start + view[k].npages
      modifies this, pool.repr
      ensures Valid() && Same() && fresh(pool.repr - old(pool.repr)) && NodesUsed(2) && Pages(view) == Pages(old(view))
      ensures middle != null ==> page + npages <= old(view)[k].start + old(view)[k].npages
      ensures middle != null ==>
        var j := MidIndex(old(view)[k], k, page);
        && j < |spine| && spine[j] == middle && view[j] == Seg(page, npages, Used)
        && Mark(view, j, true) == Replace(old(view), k, ReleaseParts(old(view)[k], page, npages))
      ensures page == old(view)[k].start && npages == old(view)[k].npages ==> middle != null
      ensures page < TWO64 && Supply() >= 0
      ensures middle == null ==> FreeIn(old(view), k, page, npages, Supply()) == Freed(false, view)
      ensures middle != null ==> page + npages < TWO64 && |old(view)| + FreeCuts(old(view)[k], page, npages) <= Supply()
    {
      hide SplitAt, Replace, ReleaseParts, Pages, ReleaseAt, Mark, MidIndex, Tiles;
      assert SegAt(k) == view[k];
      EndInRange(view, totalPages, k);
      var end := cur.start + cur.npages;
      var sum := Add64(page, npages);
      if sum > end {
        return null;
      }
      middle := CutBoth(cur, page - cur.start, end - sum, page, npages, k);
    }

    /** The two splits, behind the range and in front of it. */
    method CutBoth(cur: Node, left: u64, right: u64, ghost page: u64, ghost npages: u64, ghost k: nat) returns (middle: Node?)
      requires Valid() && k < |view| && k < |spine| && spine[k] == cur && !view[k].IsFree() && view[k].npages < TWO64
      requires npages > 0 && view[k].start <= page < view[k].start + view[k].npages
      requires left == page - view[k].start && Add64(page, npages) + right == view[k].start + view[k].npages < TWO64
      modifies this, pool.repr
      ensures Valid() && Same() && fresh(pool.repr - old(pool.repr)) && NodesUsed(2) && Pages(view) == Pages(old(view))
      ensures middle != null ==> page + npages <= old(view)[k].start + old(view)[k].npages
      ensures middle != null ==>
        var j := MidIndex(old(view)[k], k, page);
        && j < |spine| && spine[j] == middle && view[j] == Seg(page, npages, Used)
        && Mark(view, j, true) == Replace(old(view), k, ReleaseParts(old(view)[k], page, npages))
      ensures page == old(view)[k].start && npages == old(view)[k].npages ==> middle != null
      ensures Supply() >= 0
      ensures middle == null ==> FreeIn(old(view), k, page, npages, Supply()) == Freed(false, view)
      ensures middle != null ==> page + npages < TWO64 && |old(view)| + FreeCuts(old(view)[k], page, npages) <= Supply()
    {
      hide SplitAt, Replace, ReleaseParts, Pages, ReleaseAt, Valid;
      ghost var v0 := view;
      if page + npages < TWO64 {
        ReleaseInSteps(v0, k, page, npages);
      }
      var ok := CutBack(cur, right, k);
      if !ok {
        return null;
      }
      if right > 0 {
        SplitAtParts(v0, k, Sub64(v0[k].npages, right));
      }
      middle := CutFront(cur, left, k);
    }

    method ReleaseFrom(cur: Node, page: nat, npages: u64, ghost k: nat) returns (ok: bool)
      requires Valid() && 0 < totalPages && k < |spine| && spine[k] == cur && !view[k].IsFree()
      requires npages > 0 && view[k].start <= page < view[k].start + view[k].npages
      modifies this, pool.repr
      ensures Valid() && Same() && fresh(pool.repr - old(pool.repr)) && NodesUsed(2)
      ensures page < TWO64 && Supply() >= 0
      ensures Freed(ok, view) == FreeIn(old(view), k, page, npages, Supply())
    {
      hide CoalesceAt, Replace, ReleaseParts, Pages, FreeIn;
      var working := Isolate(cur, page, npages, k);
      if working == null {
        return false;
      }
      InsideIsReleased(old(view), k, page, npages, Supply());
      ghost var j := MidIndex(old(view)[k], k, page);
      assert SegAt(j) == view[j];
      assert working.npages == npages;  // the assertion of the source
      SetFree(working, true, j);
      Coalesce(working, j);
      ok := true;
    }

    /** `free`: the middle of an allocation may be returned, too. */
    method Free(vaddr: u64, npages: u64) returns (ok: bool)
      requires Valid() && !locked
      modifies this, pool.repr
      ensures Valid() && Same() && fresh(pool.repr - old(pool.repr)) && NodesUsed(2)
      ensures Supply() >= 0 && Freed(ok, view) == FreeWith(old(view), totalPages, PageOf(vaddr), npages, Supply())
    {
      hide FreeIn;
      if npages == 0 {
        return true;
      }
      var page := PageOf(vaddr);
      if page >= totalPages {
        return false;
      }
      Lock();
      var cur := head;
      ghost var k := 0;
      while cur != null
        invariant Valid() && locked && base == old(base) && totalPages == old(totalPages)
        invariant view == old(view) && pool.top == old(pool.top) && pool.fallbacks == old(pool.fallbacks)
        invariant pool.granted == old(pool.granted) && (old(pool.Static()) ==> pool.Static())
        invariant pool.repr == old(pool.repr)
        invariant k <= |spine| && cur == if k < |spine| then spine[k] else null
        invariant forall i :: 0 <= i < k ==> view[i].IsFree() || !(view[i].start <= page < view[i].start + view[i].npages)
        decreases |spine| - k
      {
        assert SegAt(k) == view[k] && LinkAt(k);
        if !cur.isFree && page >= cur.start && page < cur.start + cur.npages {
          UsedIndexIs(view, totalPages, page, k);
          ok := ReleaseFrom(cur, page, npages, k);
          Unlock();
          return;
        }
        cur := cur.next;
        k := k + 1;
      }
      assert UsedIndex(view, page) == None;
      Unlock();
      ok := false;
    }

    // ---------- When the static pool is enough ----------

    /** With u allocated ranges the list has at most 2u + 1 nodes, so a pool of 2u + 3 always has the two
        spare nodes that make allocation exact and keep it away from the heap. */
    lemma {:induction false} StaticPoolSuffices()
      requires Valid() && NormalForm(view)
      ensures |spine| <= 2 * UsedCount(view) + 1
      ensures 2 * UsedCount(view) + 3 <= |pool.nodes| ==> pool.top >= 2
    {
      NodeBound(view);
      pool.TakenAreLive(pool.taken, pool.live);
    }

    // ---------- free_pages_total ----------

    /** The number of set bits of the page bitmap. */
    method FreePagesTotal() returns (sum: nat)
      requires Valid()
      ensures sum == Count(Pages(view))
    {
      sum := 0;
      var cur := head;
      ghost var k := 0;
      while cur != null
        invariant k <= |spine| && cur == if k < |spine| then spine[k] else null
        invariant sum == Count(Pages(view[..k]))
        decreases |spine| - k
      {
        assert SegAt(k) == view[k] && LinkAt(k);
        CountPrefix(view, k);
        if cur.isFree {
          sum := sum + cur.npages;
        }
        cur := cur.next;
        k := k + 1;
      }
      assert view[..k] == view;
    }
  }
}
