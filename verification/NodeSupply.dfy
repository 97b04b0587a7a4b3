/** What running out of list nodes does to an allocation: an aligned run may need two cuts, and a node that
    runs out between them leaves two free neighbours behind. */
module NodeSupply {
  import opened Machine
  import opened Segments
  import opened SegmentLaws
  import opened SegmentTheorems

  /** The segment fits, with pages to cut off on both sides of the run. */
  predicate TwoCuts(x: Seg, n: nat, align: u64) {
    Fits(x, n, align) && x.start < AlignedStart(x, align) && AlignedStart(x, align) + n < x.start + x.npages
  }

  ghost predicate SomeTwoCuts(s: seq<Seg>, n: nat, align: u64) {
    exists k {:trigger TwoCuts(s[k], n, align)} :: 0 <= k < |s| && TwoCuts(s[k], n, align)
  }

  /** The segment that first fit serves from needs both cuts. */
  ghost predicate FirstTwoCuts(s: seq<Seg>, n: nat, align: u64) {
    exists k {:trigger TwoCuts(s[k], n, align)} :: 0 <= k < |s| && FirstFit(s, k, n, align) && TwoCuts(s[k], n, align)
  }

  /** `pad` pages were cut off segment k, and no more. */
  ghost predicate CutOnce(s: seq<Seg>, t: seq<Seg>, k: nat, pad: nat, n: nat) {
    k < |s| && 0 < pad && pad + n < s[k].npages && t == SplitAt(s, k, pad)
  }

  ghost predicate NoneFitsBefore(s: seq<Seg>, k: nat, n: nat, align: u64) {
    forall i {:trigger Fits(s[i], n, align)} :: 0 <= i < k && i < |s| ==> !Fits(s[i], n, align)
  }

  /** Two free neighbours stand before position k. */
  ghost predicate BrokenBefore(s: seq<Seg>, k: nat) {
    exists i {:trigger NotBothFree(s, i)} :: 0 <= i && i + 1 < k && k <= |s| && !NotBothFree(s, i)
  }

  /** Nothing has been cut yet. */
  ghost predicate Untouched(s0: seq<Seg>, s: seq<Seg>, top: nat, k: nat, n: nat, align: u64) {
    s == s0 && top == 1 && NoneFitsBefore(s0, k, n, align)
  }

  /** The search has come to position k of list s, s0 being the list at entry, with `top` nodes on the stack
      (top0 at entry); `granted` tells whether the heap granted any. */
  ghost predicate Progress(s0: seq<Seg>, top0: nat, s: seq<Seg>, top: nat, granted: bool, k: nat, n: nat, align: u64) {
    && (s == s0 || (top0 <= 1 && SomeTwoCuts(s0, n, align)))
    && (top0 == 0 && !granted ==> s == s0 && top == 0)
    && (top0 == 1 ==> Untouched(s0, s, top, k, n, align) || FirstTwoCuts(s0, n, align))
    && (top0 == 1 && !granted ==> Untouched(s0, s, top, k, n, align) || (top == 0 && BrokenBefore(s, k)))
  }

  /** How an allocation leaves the list: it loses its normal form only for want of a node between two cuts;
      and if the heap grants none, exactly when one node was left and first fit needed two. */
  ghost predicate Outcome(s0: seq<Seg>, top0: nat, s: seq<Seg>, granted: bool, n: nat, align: u64) {
    && (!NormalForm(s) ==> (top0 == 1 && FirstTwoCuts(s0, n, align)) || (top0 == 0 && granted && SomeTwoCuts(s0, n, align)))
    && (!granted ==> (NormalForm(s) <==> !(top0 == 1 && FirstTwoCuts(s0, n, align))))
  }

  lemma StartsUntouched(s: seq<Seg>, top: nat, n: nat, align: u64)
    ensures Progress(s, top, s, top, false, 0, n, align)
  {
  }

  /** The segment at k does not fit. */
  lemma {:induction false} PassesBy(s0: seq<Seg>, top0: nat, s: seq<Seg>, top: nat, granted: bool, k: nat, n: nat, align: u64)
    requires Progress(s0, top0, s, top, granted, k, n, align) && k < |s| && !Fits(s[k], n, align)
    ensures Progress(s0, top0, s, top, granted, k + 1, n, align)
  {
    hide Fits;
    BrokenLater(s, k, k + 1);
  }

  lemma BrokenLater(s: seq<Seg>, k: nat, m: nat)
    requires k <= m <= |s|
    ensures BrokenBefore(s, k) ==> BrokenBefore(s, m)
  {
  }

  lemma BrokenIsNotNormal(s: seq<Seg>, k: nat)
    ensures BrokenBefore(s, k) ==> !NormalForm(s)
  {
  }

  /** The segment at k fits, but the nodes ran out: before the first cut, or between the two. */
  lemma {:induction false} RunsOut(s0: seq<Seg>, top0: nat, s: seq<Seg>, top: nat, granted: bool, k: nat, n: nat, align: u64,
                                   t: seq<Seg>, top': nat, granted': bool, cut: bool)
    requires Progress(s0, top0, s, top, granted, k, n, align) && k < |s| && Fits(s[k], n, align) && (granted ==> granted')
    requires top0 < 2 && top' == 0
    requires if cut then CutOnce(s, t, k, AlignedStart(s[k], align) - s[k].start, n) && (top == 0 ==> granted')
             else t == s && top == 0 && granted' == granted
    ensures Progress(s0, top0, t, top', granted', if cut then k + 2 else k + 1, n, align)
  {
    if !cut {
      hide Fits;
      BrokenLater(s, k, k + 1);
    } else {
      assert TwoCuts(s[k], n, align) && s[k].IsFree();
      assert !NotBothFree(t, k);
      hide Fits, FirstFit;
      assert Untouched(s0, s, top, k, n, align) ==> FirstFit(s0, k, n, align);
    }
  }

  /** The end of the list. */
  lemma {:induction false} FoundNone(s0: seq<Seg>, top0: nat, s: seq<Seg>, top: nat, granted: bool, n: nat, align: u64)
    requires NormalForm(s0) && Progress(s0, top0, s, top, granted, |s|, n, align)
    ensures Outcome(s0, top0, s, granted, n, align)
  {
    hide Fits;
    BrokenIsNotNormal(s, |s|);
    assert Untouched(s0, s, top, |s|, n, align) ==> !FirstTwoCuts(s0, n, align);
    assert top0 == 0 && granted && !NormalForm(s) ==> s != s0;
  }

  /** A run was carved out of segment k; with the heap refusing, not by two cuts from one node. */
  lemma {:induction false} FoundRun(s0: seq<Seg>, top0: nat, s: seq<Seg>, top: nat, granted: bool, k: nat, page: nat, n: nat, align: u64,
                                    total: nat, t: seq<Seg>, granted': bool)
    requires NormalForm(s0) && Tiles(s, total) && Progress(s0, top0, s, top, granted, k, n, align) && (granted ==> granted')
    requires CarvedAt(s, t, k, page, n) && Fits(s[k], n, align) && page == AlignedStart(s[k], align)
    requires top <= 1 && TwoCuts(s[k], n, align) ==> granted'
    ensures Outcome(s0, top0, t, granted', n, align)
  {
    hide Fits, CarveAt;
    EndInRange(s, total, k);
    if NormalForm(s) {
      CarvedNormal(s, total, k, page - s[k].start, n);
      BrokenIsNotNormal(s, k);
    }
    CarvedStaysBroken(s, t, k, page, n);
    assert s == s0 ==> NormalForm(s);
    FirstIsHere(s, k, n, align);
  }

  lemma {:induction false} FirstIsHere(s: seq<Seg>, k: nat, n: nat, align: u64)
    requires k < |s|
    ensures Fits(s[k], n, align) && NoneFitsBefore(s, k, n, align) && FirstTwoCuts(s, n, align) ==> TwoCuts(s[k], n, align)
  {
    if Fits(s[k], n, align) && NoneFitsBefore(s, k, n, align) && FirstTwoCuts(s, n, align) {
      var j :| 0 <= j < |s| && FirstFit(s, j, n, align) && TwoCuts(s[j], n, align);
      assert !(k < j) && !(j < k);
    }
  }

  lemma {:induction false} CarvedStaysBroken(s: seq<Seg>, t: seq<Seg>, k: nat, page: nat, n: nat)
    requires CarvedAt(s, t, k, page, n)
    ensures BrokenBefore(s, k) ==> !NormalForm(t)
  {
    if BrokenBefore(s, k) {
      var i :| 0 <= i && i + 1 < k && !NotBothFree(s, i);
      assert t[i] == s[i] && t[i + 1] == s[i + 1];
      assert !NotBothFree(t, i);
    }
  }

  /** Pages 1 to 7 are free, and two of them are wanted at a multiple of four: page 4 and 5, with free pages
      on both sides.  The first cut alone leaves two free neighbours. */
  lemma {:induction false} OneNodeIsTooFew()
    ensures var s := [Seg(0, 1, Used), Seg(1, 7, Free)];
      && Tiles(s, 8) && NormalForm(s) && FirstTwoCuts(s, 2, 4)
      && SplitAt(s, 1, 3) == [Seg(0, 1, Used), Seg(1, 3, Free), Seg(4, 4, Free)] && !NormalForm(SplitAt(s, 1, 3))
  {
    var s := [Seg(0, 1, Used), Seg(1, 7, Free)];
    assert Joined(s, 0);
    assert AlignedStart(s[1], 4) == 4;
    assert FirstFit(s, 1, 2, 4) && TwoCuts(s[1], 2, 4);
    var t := SplitAt(s, 1, 3);
    assert t == [Seg(0, 1, Used), Seg(1, 3, Free), Seg(4, 4, Free)];
    assert !NotBothFree(t, 1);
  }

  // ---------- Calls with a limited supply of nodes ----------

  datatype Served = Served(page: Option<nat>, list: seq<Seg>)

  /** What `alloc_pages` does from segment k on when the list can have `pool` nodes: a fit for which the nodes
      run out is passed by, cut or not. */
  function AllocFrom(s: seq<Seg>, n: nat, align: u64, pool: nat, k: nat): Served
    decreases |s| - k
  {
    if k >= |s| then Served(None, s)
    else if n == 0 || !Fits(s[k], n, align) then AllocFrom(s, n, align, pool, k + 1)
    else
      var page := AlignedStart(s[k], align);
      var pad := page - s[k].start;
      if Enough(|s|, AllocCuts(s[k], n, align), pool) then Served(Some(page), CarveAt(s, k, pad, n))
      else if pad > 0 && |s| < pool then AllocFrom(SplitAt(s, k, pad), n, align, pool, k + 2)
      else AllocFrom(s, n, align, pool, k + 1)
  }

  /** A list of `len` nodes can be split that often. */
  predicate Enough(len: nat, cuts: nat, pool: nat) {
    cuts == 0 || len + cuts <= pool
  }

  /** The splits that a run in segment x takes. */
  function AllocCuts(x: Seg, n: nat, align: u64): nat {
    (if x.start < AlignedStart(x, align) then 1 else 0) + (if AlignedStart(x, align) + n < x.start + x.npages then 1 else 0)
  }

  /** What `free` does when the list can have `pool` nodes.  The end of the range is a 64-bit sum. */
  function FreeWith(s: seq<Seg>, total: nat, page: u64, n: u64, pool: nat): Freed {
    if n == 0 then Freed(true, s)
    else if page >= total then Freed(false, s)
    else match UsedIndex(s, page)
      case None => Freed(false, s)
      case Some(k) => FreeIn(s, k, page, n, pool)
  }

  /** `free` in segment k: the whole range if it is inside and the nodes suffice; else what is behind the end of
      the range may have been cut off by the time the call is refused. */
  function FreeIn(s: seq<Seg>, k: nat, page: u64, n: u64, pool: nat): Freed
    requires k < |s| && s[k].start <= page < s[k].start + s[k].npages
  {
    var end := s[k].start + s[k].npages;
    var sum := Add64(page, n);
    if sum > end then Freed(false, s)
    else if page + n < TWO64 && Enough(|s|, FreeCuts(s[k], page, n), pool) then Freed(true, ReleaseAt(s, k, page, n))
    else if s[k].start < sum < end && |s| < pool then Freed(false, SplitAt(s, k, sum - s[k].start))
    else Freed(false, s)
  }

  /** The splits that giving back [page, page + n) of segment x takes. */
  function FreeCuts(x: Seg, page: nat, n: nat): nat {
    (if x.start < page then 1 else 0) + (if page + n < x.start + x.npages then 1 else 0)
  }

  /** The search has come to position k of list s, with `top` nodes on the stack: going on from there with no
      more than these gives what the whole call gives. */
  ghost predicate OnCourse(s0: seq<Seg>, top0: nat, s: seq<Seg>, top: nat, k: nat, n: nat, align: u64) {
    |s| + top == |s0| + top0 && AllocFrom(s, n, align, |s| + top, k) == AllocFrom(s0, n, align, |s| + top, 0)
  }

  lemma CourseStarts(s: seq<Seg>, top: nat, n: nat, align: u64)
    ensures OnCourse(s, top, s, top, 0, n, align)
  {
  }

  lemma CourseEnds(s0: seq<Seg>, top0: nat, s: seq<Seg>, top: nat, n: nat, align: u64)
    requires OnCourse(s0, top0, s, top, |s|, n, align)
    ensures AllocFrom(s0, n, align, |s0| + top0, 0) == Served(None, s)
  {
  }

  lemma CoursePasses(s0: seq<Seg>, top0: nat, s: seq<Seg>, top: nat, k: nat, n: nat, align: u64)
    requires OnCourse(s0, top0, s, top, k, n, align) && k < |s| && !Fits(s[k], n, align)
    ensures OnCourse(s0, top0, s, top, k + 1, n, align)
  {
    hide Fits;
  }

  lemma CourseRunsOut(s0: seq<Seg>, top0: nat, s: seq<Seg>, top: nat, k: nat, n: nat, align: u64, t: seq<Seg>, top': nat, cut: bool)
    requires OnCourse(s0, top0, s, top, k, n, align) && k < |s| && n > 0 && Fits(s[k], n, align) && AllocCuts(s[k], n, align) > 0
    requires if cut then CutOnce(s, t, k, AlignedStart(s[k], align) - s[k].start, n) && top == 1 && top' == 0
             else t == s && top == 0 && top' == 0
    ensures OnCourse(s0, top0, t, top', if cut then k + 2 else k + 1, n, align)
  {
    hide AlignedStart;
    if cut {
      assert |t| == |s| + 1;
    }
  }

  lemma CourseFinds(s0: seq<Seg>, top0: nat, s: seq<Seg>, top: nat, k: nat, n: nat, align: u64, t: seq<Seg>)
    requires OnCourse(s0, top0, s, top, k, n, align) && k < |s| && n > 0 && Fits(s[k], n, align) && AllocCuts(s[k], n, align) <= top
    requires t == CarveAt(s, k, AlignedStart(s[k], align) - s[k].start, n)
    ensures AllocFrom(s0, n, align, |s0| + top0, 0) == Served(Some(AlignedStart(s[k], align)), t)
  {
    hide AlignedStart, CarveAt, AllocCuts;
  }

  // ---------- What an ample supply gives ----------

  function FitFrom(s: seq<Seg>, n: nat, align: u64, k: nat): (r: nat)
    requires k <= |s|
    ensures k <= r <= |s| && (r < |s| ==> Fits(s[r], n, align))
    ensures forall i {:trigger Fits(s[i], n, align)} :: k <= i < r ==> !Fits(s[i], n, align)
    decreases |s| - k
  {
    if k == |s| || Fits(s[k], n, align) then k else FitFrom(s, n, align, k + 1)
  }

  /** With two spare nodes, first fit. */
  lemma {:induction false} AmpleIsFirstFit(s: seq<Seg>, n: nat, align: u64, pool: nat, k: nat)
    requires k <= |s| && |s| + 2 <= pool && n > 0
    ensures AllocFrom(s, n, align, pool, k)
         == var f := FitFrom(s, n, align, k);
            if f == |s| then Served(None, s)
            else Served(Some(AlignedStart(s[f], align)), CarveAt(s, f, AlignedStart(s[f], align) - s[f].start, n))
    decreases |s| - k
  {
    hide Fits, CarveAt;
    if k < |s| && !Fits(s[k], n, align) {
      AmpleIsFirstFit(s, n, align, pool, k + 1);
    }
  }

  /** With two spare nodes and no wrap-around, `free` either gives back the range or changes nothing. */
  lemma AmpleIsFreeList(s: seq<Seg>, total: nat, page: u64, n: u64, pool: nat)
    requires |s| + 2 <= pool && page + n < TWO64
    ensures FreeWith(s, total, page, n, pool) == FreeList(s, total, page, n)
  {
    hide UsedIndexFrom, ReleaseAt;
  }

  // ---------- What a short supply gives ----------

  /** A free node of exactly n pages at an aligned page: it serves without a cut. */
  predicate Snug(x: Seg, n: nat, align: u64) {
    x.IsFree() && x.npages == n && AlignedStart(x, align) == x.start
  }

  /** The answer is the page of the first such node from k on, if there is one. */
  ghost predicate FirstSnug(s: seq<Seg>, k: nat, n: nat, align: u64, page: Option<nat>) {
    match page
    case None => forall i {:trigger Snug(s[i], n, align)} :: k <= i < |s| ==> !Snug(s[i], n, align)
    case Some(x) =>
      exists i {:trigger Snug(s[i], n, align)} :: k <= i < |s| && Snug(s[i], n, align) && x == s[i].start
        && forall j {:trigger Snug(s[j], n, align)} :: k <= j < i ==> !Snug(s[j], n, align)
  }

  /** With no spare node. */
  lemma {:induction false} NoNodeTakesSnug(s: seq<Seg>, n: nat, align: u64, k: nat)
    requires n > 0 && k <= |s|
    ensures FirstSnug(s, k, n, align, AllocFrom(s, n, align, |s|, k).page)
    decreases |s| - k
  {
    if k < |s| {
      SnugIff(s[k], n, align);
      hide Fits, Snug, AllocCuts, AlignedStart;
      NoNodeTakesSnug(s, n, align, k + 1);
    }
  }

  lemma SnugIff(x: Seg, n: nat, align: u64)
    ensures Snug(x, n, align) <==> Fits(x, n, align) && AllocCuts(x, n, align) == 0
    ensures TwoCuts(x, n, align) <==> Fits(x, n, align) && AllocCuts(x, n, align) == 2
    ensures Fits(x, n, align) && AllocCuts(x, n, align) == 0 ==> AlignedStart(x, align) == x.start
  {
  }

  /** With one, first fit, unless that takes two cuts; then the one cut is made, and of what stands behind only a
      node that needs none can serve. */
  lemma {:induction false} OneNodeServes(s: seq<Seg>, n: nat, align: u64, k: nat, f: nat)
    requires n > 0 && k <= f && FirstFit(s, f, n, align)
    ensures var page := AllocFrom(s, n, align, |s| + 1, k).page;
      if TwoCuts(s[f], n, align) then FirstSnug(s, f + 1, n, align, page) else page == Some(AlignedStart(s[f], align))
    decreases f - k
  {
    if k < f {
      hide Fits, TwoCuts, AlignedStart;
      OneNodeServes(s, n, align, k + 1, f);
    } else {
      SnugIff(s[f], n, align);
      if TwoCuts(s[f], n, align) {
        var t := SplitAt(s, f, AlignedStart(s[f], align) - s[f].start);
        assert |t| == |s| + 1;
        hide Fits, TwoCuts, AlignedStart, Snug;
        NoNodeTakesSnug(t, n, align, f + 2);
        SnugMoves(s, t, f, n, align, AllocFrom(t, n, align, |t|, f + 2).page);
      }
    }
  }

  /** What stands behind segment f has moved by one. */
  lemma {:induction false} SnugMoves(s: seq<Seg>, t: seq<Seg>, f: nat, n: nat, align: u64, page: Option<nat>)
    requires f < |s| && |t| == |s| + 1 && t[f + 2..] == s[f + 1..] && FirstSnug(t, f + 2, n, align, page)
    ensures FirstSnug(s, f + 1, n, align, page)
  {
    hide Snug;
    forall i | f + 1 <= i < |s|
      ensures s[i] == t[i + 1]
    {
      assert s[f + 1..][i - f - 1] == t[f + 2..][i - f - 1];
    }
    if page.Some? {
      var i :| f + 2 <= i < |t| && Snug(t[i], n, align) && page.value == t[i].start
        && forall j {:trigger Snug(t[j], n, align)} :: f + 2 <= j < i ==> !Snug(t[j], n, align);
      assert Snug(s[i - 1], n, align);
    }
  }

  // ---------- What any supply keeps ----------

  /** The list stays a tiling, and no longer than the nodes allow. */
  lemma {:induction false} AllocKeepsTiles(s: seq<Seg>, total: nat, n: nat, align: u64, pool: nat, k: nat)
    requires Tiles(s, total) && total > 0 && |s| <= pool
    ensures var t := AllocFrom(s, n, align, pool, k).list; Tiles(t, total) && |t| <= pool
    decreases |s| - k
  {
    hide Fits, Tiles, AlignedStart;
    if k < |s| {
      if n == 0 || !Fits(s[k], n, align) {
        AllocKeepsTiles(s, total, n, align, pool, k + 1);
      } else {
        FitsInside(s[k], n, align);
        var pad := AlignedStart(s[k], align) - s[k].start;
        if Enough(|s|, AllocCuts(s[k], n, align), pool) {
          CarveRefinesBitmap(s, total, k, pad, n);
          CarveLength(s, k, pad, n);
        } else if pad > 0 && |s| < pool {
          SplitAtKeepsPages(s, total, k, pad);
          AllocKeepsTiles(SplitAt(s, k, pad), total, n, align, pool, k + 2);
        } else {
          AllocKeepsTiles(s, total, n, align, pool, k + 1);
        }
      }
    }
  }

  lemma FitsInside(x: Seg, n: nat, align: u64)
    requires Fits(x, n, align)
    ensures x.IsFree() && x.start <= AlignedStart(x, align) && AlignedStart(x, align) + n <= x.start + x.npages
  {
  }

  lemma CarveLength(s: seq<Seg>, k: nat, pad: nat, n: nat)
    requires k < |s| && pad + n <= s[k].npages
    ensures |CarveAt(s, k, pad, n)| == |s| + (if pad > 0 then 1 else 0) + (if pad + n < s[k].npages then 1 else 0)
  {
  }

  /** Normal form is lost exactly if one node is left and first fit takes two cuts. */
  lemma {:induction false} AllocOutcome(s: seq<Seg>, total: nat, n: nat, align: u64, pool: nat)
    requires Tiles(s, total) && total > 0 && NormalForm(s) && |s| <= pool && n > 0
    ensures var t := AllocFrom(s, n, align, pool, 0).list;
      NormalForm(t) <==> !(|s| + 1 == pool && FirstTwoCuts(s, n, align))
  {
    hide FirstTwoCuts, Tiles, NormalForm;
    OutcomeFrom(s, s, total, n, align, pool, 0);
  }

  lemma {:induction false} OutcomeFrom(s0: seq<Seg>, s: seq<Seg>, total: nat, n: nat, align: u64, pool: nat, k: nat)
    requires Tiles(s, total) && total > 0 && NormalForm(s0) && |s0| <= pool && |s| <= pool && n > 0 && k <= |s|
    requires Progress(s0, pool - |s0|, s, pool - |s|, false, k, n, align)
    ensures Outcome(s0, pool - |s0|, AllocFrom(s, n, align, pool, k).list, false, n, align)
    decreases |s| - k
  {
    hide Progress, Outcome, Tiles, NormalForm, Fits, CarveAt, AlignedStart, SplitAt;
    if k == |s| {
      FoundNone(s0, pool - |s0|, s, pool - |s|, false, n, align);
    } else if !Fits(s[k], n, align) {
      PassesBy(s0, pool - |s0|, s, pool - |s|, false, k, n, align);
      OutcomeFrom(s0, s, total, n, align, pool, k + 1);
    } else {
      FitsInside(s[k], n, align);
      var page := AlignedStart(s[k], align);
      var pad := page - s[k].start;
      if Enough(|s|, AllocCuts(s[k], n, align), pool) {
        FoundRun(s0, pool - |s0|, s, pool - |s|, false, k, page, n, align, total, CarveAt(s, k, pad, n), false);
      } else {
        SupplyShrinks(s0, s, pool, k, n, align);
        var cut := pad > 0 && |s| < pool;
        var t := if cut then SplitAt(s, k, pad) else s;
        SplitLength(s, k, pad);
        if cut {
          SplitAtKeepsPages(s, total, k, pad);
        }
        RunsOut(s0, pool - |s0|, s, pool - |s|, false, k, n, align, t, pool - |t|, false, cut);
        OutcomeFrom(s0, t, total, n, align, pool, if cut then k + 2 else k + 1);
      }
    }
  }

  lemma SplitLength(s: seq<Seg>, k: nat, left: nat)
    ensures k < |s| && 0 < left < s[k].npages ==> |SplitAt(s, k, left)| == |s| + 1
  {
  }

  /** Nodes run out only for a supply of less than two at entry. */
  lemma SupplyShrinks(s0: seq<Seg>, s: seq<Seg>, pool: nat, k: nat, n: nat, align: u64)
    requires |s0| <= pool && |s| <= pool && Progress(s0, pool - |s0|, s, pool - |s|, false, k, n, align)
    ensures pool - |s| < 2 ==> pool - |s0| < 2
  {
  }

  // ---------- When a refused call changes the list ----------

  /** A refused `free` leaves the list as it was unless the sum of the range's end, wrapped or not, lies inside
      the segment and there is a node to cut the segment there. */
  lemma {:induction false} RefusedFreeCutsIff(s: seq<Seg>, total: nat, page: u64, n: u64, pool: nat)
    requires !FreeWith(s, total, page, n, pool).ok
    ensures FreeWith(s, total, page, n, pool).list != s <==>
      && page < total && UsedIndex(s, page).Some? && |s| < pool
      && var x := s[UsedIndex(s, page).value]; x.start < Add64(page, n) < x.start + x.npages
    ensures var t := FreeWith(s, total, page, n, pool).list;
      t != s ==>
        var k, sum := UsedIndex(s, page).value, Add64(page, n);
        t == s[..k] + [Seg(s[k].start, sum - s[k].start, s[k].use), Seg(sum, s[k].start + s[k].npages - sum, s[k].use)] + s[k + 1..]
  {
    hide UsedIndexFrom, ReleaseAt;
    if page < total && UsedIndex(s, page).Some? {
      var k := UsedIndex(s, page).value;
      var sum := Add64(page, n);
      if s[k].start < sum < s[k].start + s[k].npages {
        assert |SplitAt(s, k, sum - s[k].start)| == |s| + 1;
      }
    }
  }

  /** Which calls are refused: those beyond any one allocation, those whose end wraps, and those short of nodes. */
  lemma {:induction false} FreeRefusedIff(s: seq<Seg>, total: nat, page: u64, n: u64, pool: nat)
    ensures n == 0 ==> FreeWith(s, total, page, n, pool) == Freed(true, s)
    ensures n > 0 ==> (FreeWith(s, total, page, n, pool).ok <==>
      && page < total && UsedIndex(s, page).Some?
      && var x := s[UsedIndex(s, page).value];
         && page + n <= x.start + x.npages && page + n < TWO64
         && ((page == x.start && n == x.npages)
             || |s| + (if page == x.start || page + n == x.start + x.npages then 1 else 2) <= pool))
  {
    hide UsedIndexFrom, ReleaseAt;
  }

  /** The bitmap stays as it was, and the list stays a tiling in normal form. */
  lemma {:induction false} RefusedFreeKeepsPages(s: seq<Seg>, total: nat, page: u64, n: u64, pool: nat)
    requires Tiles(s, total) && !FreeWith(s, total, page, n, pool).ok
    ensures var t := FreeWith(s, total, page, n, pool).list;
      Tiles(t, total) && Pages(t) == Pages(s) && (NormalForm(s) ==> NormalForm(t))
  {
    hide UsedIndexFrom, ReleaseAt, Tiles, Pages;
    if page < total && UsedIndex(s, page).Some? {
      var k := UsedIndex(s, page).value;
      var sum := Add64(page, n);
      if s[k].start < sum < s[k].start + s[k].npages {
        SplitAtKeepsPages(s, total, k, sum - s[k].start);
        if NormalForm(s) {
          UsedSplitNormal(s, k, sum - s[k].start);
        }
      }
    }
  }

  lemma InsideIsReleased(s: seq<Seg>, k: nat, page: u64, n: u64, pool: nat)
    requires k < |s| && s[k].start <= page < s[k].start + s[k].npages && page + n <= s[k].start + s[k].npages
    requires page + n < TWO64 && |s| + FreeCuts(s[k], page, n) <= pool
    ensures FreeIn(s, k, page, n, pool) == Freed(true, ReleaseAt(s, k, page, n))
  {
    hide ReleaseAt;
  }

  /** Segment k of s is all of [page, page + n). */
  ghost predicate WholeSegment(s: seq<Seg>, page: nat, n: nat) {
    n > 0 && exists k :: 0 <= k < |s| && s[k] == Seg(page, n, Used)
  }

  /** Giving back exactly what was allocated takes no node, so it is never refused; and whatever is accepted is
      what `free` does with an ample supply. */
  lemma {:induction false} WholeIsFreed(s: seq<Seg>, total: nat, page: u64, n: u64, pool: nat)
    requires Tiles(s, total) && total <= MAX_PAGES
    ensures WholeSegment(s, page, n) ==> FreeWith(s, total, page, n, pool).ok
    ensures FreeWith(s, total, page, n, pool).ok ==> FreeWith(s, total, page, n, pool) == FreeList(s, total, page, n)
  {
    hide UsedIndexFrom, ReleaseAt, Tiles;
    if WholeSegment(s, page, n) {
      var k :| 0 <= k < |s| && s[k] == Seg(page, n, Used);
      EndInRange(s, total, k);
      UsedIndexIs(s, total, page, k);
    }
  }

  /** Giving back what was just allocated restores the list, and no supply of nodes is too small for it. */
  lemma {:induction false} FreeUndoesCarve(s: seq<Seg>, t: seq<Seg>, total: nat, k: nat, page: u64, n: u64, pool: nat)
    requires Tiles(s, total) && total <= MAX_PAGES && NormalForm(s) && CarvedAt(s, t, k, page, n)
    ensures FreeWith(t, total, page, n, pool) == Freed(true, s)
  {
    hide FreeWith, FreeList, Tiles, NormalForm, CarveAt;
    var pad := page - s[k].start;
    EndInRange(s, total, k);
    CarveRefinesBitmap(s, total, k, pad, n);
    FreeUndoesAllocate(s, total, k, pad, n);
    CarvedMiddle(s, k, pad, n);
    assert WholeSegment(t, page, n);
    WholeIsFreed(t, total, page, n, pool);
  }

  /** Cutting a used segment brings no free neighbours together. */
  lemma {:induction false} UsedSplitNormal(s: seq<Seg>, k: nat, left: nat)
    requires k < |s| && !s[k].IsFree() && 0 < left < s[k].npages && NormalForm(s)
    ensures NormalForm(SplitAt(s, k, left))
  {
    var t := SplitAt(s, k, left);
    forall i | 0 <= i < |t| - 1
      ensures NotBothFree(t, i)
    {
      assert i < k ==> NotBothFree(s, i);
      assert i > k ==> NotBothFree(s, i - 1);
    }
  }

  /** Refused or not, `free` keeps the list a tiling in normal form, and no longer than the nodes allow. */
  lemma {:induction false} FreeKeepsList(s: seq<Seg>, total: nat, page: u64, n: u64, pool: nat)
    requires Tiles(s, total) && total > 0 && |s| <= pool
    ensures var t := FreeWith(s, total, page, n, pool).list;
      Tiles(t, total) && |t| <= pool && (NormalForm(s) ==> NormalForm(t))
  {
    hide UsedIndexFrom, ReleaseAt, Tiles, NormalForm, SplitAt;
    if n > 0 && page < total && UsedIndex(s, page).Some? {
      var k := UsedIndex(s, page).value;
      if FreeWith(s, total, page, n, pool).ok {
        ReleaseRefinesBitmap(s, total, k, page, n);
        ReleaseLength(s, k, page, n);
        if NormalForm(s) {
          ReleasedNormal(s, total, k, page, n);
        }
      } else {
        RefusedFreeKeepsPages(s, total, page, n, pool);
        if s[k].start < Add64(page, n) {
          SplitLength(s, k, Add64(page, n) - s[k].start);
        }
      }
    }
  }

  lemma ReleaseLength(s: seq<Seg>, k: nat, page: nat, n: nat)
    requires k < |s| && s[k].start <= page && page + n <= s[k].start + s[k].npages && n > 0
    ensures |ReleaseAt(s, k, page, n)| <= |s| + FreeCuts(s[k], page, n)
  {
    assert |Replace(s, k, ReleaseParts(s[k], page, n))| == |s| + FreeCuts(s[k], page, n);
  }

  /** Ten pages are in use.  A call that wraps, and one for which one node is left, are refused, but cut them in
      two; after that the ten pages cannot be given back at once any more. */
  lemma {:induction false} RefusedFreesCut()
    ensures var s := [Seg(0, 10, Used)];
      && FreeWith(s, 10, 5, 0xFFFF_FFFF_FFFF_FFFE, 3) == Freed(false, [Seg(0, 3, Used), Seg(3, 7, Used)])
      && FreeWith(s, 10, 3, 4, 2) == Freed(false, [Seg(0, 7, Used), Seg(7, 3, Used)])
      && FreeWith([Seg(0, 3, Used), Seg(3, 7, Used)], 10, 0, 10, 3) == Freed(false, [Seg(0, 3, Used), Seg(3, 7, Used)])
      && FreeWith(s, 10, 0, 10, 3).ok
  {
    var s := [Seg(0, 10, Used)];
    assert UsedIndex(s, 5) == Some(0) && UsedIndex(s, 3) == Some(0) && UsedIndex(s, 0) == Some(0);
    assert SplitAt(s, 0, 3) == [Seg(0, 3, Used), Seg(3, 7, Used)];
    assert SplitAt(s, 0, 7) == [Seg(0, 7, Used), Seg(7, 3, Used)];
    assert UsedIndex([Seg(0, 3, Used), Seg(3, 7, Used)], 0) == Some(0);
  }
}
