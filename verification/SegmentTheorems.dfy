/** Whole-history facts about the virtual range list: free undoes allocate, pieces of an allocation
    may be returned in any order, and the list never needs more than 2 * allocated + 1 nodes. */
module SegmentTheorems {
  import opened Machine
  import opened Segments
  import opened SegmentLaws

  // ---------- The free operation on lists ----------

  function UsedIndexFrom(s: seq<Seg>, page: nat, i: nat): (r: Option<nat>)
    requires i <= |s|
    ensures r.Some? ==> i <= r.value < |s| && !s[r.value].IsFree() && s[r.value].start <= page < s[r.value].start + s[r.value].npages
    ensures forall j :: i <= j < (if r.Some? then r.value else |s|) ==> s[j].IsFree() || !(s[j].start <= page < s[j].start + s[j].npages)
    decreases |s| - i
  {
    if i == |s| then None
    else if !s[i].IsFree() && s[i].start <= page < s[i].start + s[i].npages then Some(i)
    else UsedIndexFrom(s, page, i + 1)
  }

  /** The used segment that holds a page. */
  function UsedIndex(s: seq<Seg>, page: nat): Option<nat> {
    UsedIndexFrom(s, page, 0)
  }

  datatype Freed = Freed(ok: bool, list: seq<Seg>)

  /** What `free` does to the list when no addition wraps and nodes are available. */
  function FreeList(s: seq<Seg>, total: nat, page: nat, n: nat): Freed {
    if n == 0 then Freed(true, s)
    else if page >= total then Freed(false, s)
    else match UsedIndex(s, page)
      case None => Freed(false, s)
      case Some(k) =>
        if page + n > s[k].start + s[k].npages then Freed(false, s) else Freed(true, ReleaseAt(s, k, page, n))
  }

  lemma {:induction false} UsedIndexIs(s: seq<Seg>, total: nat, page: nat, k: nat)
    requires Tiles(s, total) && k < |s| && !s[k].IsFree() && s[k].start <= page < s[k].start + s[k].npages
    ensures UsedIndex(s, page) == Some(k)
  {
    var r := UsedIndex(s, page);
    if r.Some? {
      SegmentUnique(s, total, page, r.value, k);
    }
  }

  // ---------- Free undoes allocate ----------

  lemma {:induction false} MaximalIsNormal(o: seq<Stretch>, s: seq<Seg>)
    requires Decorates(o, s) && Maximal(o, {})
    ensures NormalForm(s)
  {
    forall i | 0 <= i < |s| - 1
      ensures NotBothFree(s, i)
    {
      BoundaryOwners(o, i);
    }
  }

  /** An allocation gives its pages to a new owner; the list stays in normal form. */
  lemma {:induction false} CarveOwners(s: seq<Seg>, total: nat, k: nat, pad: nat, n: nat) returns (q: seq<Stretch>)
    requires Tiles(s, total) && total > 0 && NormalForm(s)
    requires k < |s| && s[k].IsFree() && 0 < n && pad + n <= s[k].npages
    ensures Decorates(q, CarveAt(s, k, pad, n)) && Maximal(q, {})
    ensures s[k].start + pad + n <= |Owners(Decorate(s))|
    ensures Owners(q) == Assign(Owners(Decorate(s)), s[k].start + pad, n, |s|)
  {
    var o := Decorate(s);
    DecorateMaximal(s, total);
    CutOwners(o, s, total, k, pad, n, |s|);
    CutShape(o, k, pad, n, |s|);
    q := CutAt(o, k, pad, n, |s|);
    ReplaceDecorates(o, s, k, CutParts(o[k], pad, n, |s|), CarveParts(s[k], pad, n));
    NewOwnerIsDistinct(o, k, pad, n, |s|);
  }

  lemma {:induction false} NewOwnerIsDistinct(o: seq<Stretch>, k: nat, pad: nat, n: nat, owner: int)
    requires k < |o| && 0 < n && pad + n <= o[k].npages && Maximal(o, {})
    requires forall i :: 0 <= i < |o| ==> o[i].owner != owner
    ensures Maximal(CutAt(o, k, pad, n, owner), {})
  {
    var m := if pad > 0 then k + 1 else k;
    var q := CutAt(o, k, pad, n, owner);
    CutShape(o, k, pad, n, owner);
    assert {m, m + 1} == {m} + {m + 1};
    assert q[m].owner == owner;
    assert m > 0 ==> q[m - 1].owner != owner;
    assert m + 1 < |q| ==> q[m + 1].owner != owner;
    DropHole(q, m + 1, {m});
    assert {m} == {} + {m};
    DropHole(q, m, {});
  }

  lemma {:induction false} ReassignBack(lab: seq<int>, a: nat, n: nat, x: int, y: int)
    requires a + n <= |lab| && forall p :: a <= p < a + n ==> lab[p] == y
    ensures Assign(Assign(lab, a, n, x), a, n, y) == lab
  {
  }

  lemma {:induction false} CarvedNormal(s: seq<Seg>, total: nat, k: nat, pad: nat, n: nat)
    requires Tiles(s, total) && total > 0 && NormalForm(s)
    requires k < |s| && s[k].IsFree() && 0 < n && pad + n <= s[k].npages
    ensures NormalForm(CarveAt(s, k, pad, n))
  {
    var q := CarveOwners(s, total, k, pad, n);
    MaximalIsNormal(q, CarveAt(s, k, pad, n));
  }

  lemma {:induction false} ReleasedNormal(s: seq<Seg>, total: nat, k: nat, page: nat, n: nat)
    requires Tiles(s, total) && total > 0 && NormalForm(s)
    requires k < |s| && !s[k].IsFree() && 0 < n && s[k].start <= page && page + n <= s[k].start + s[k].npages
    ensures NormalForm(ReleaseAt(s, k, page, n))
  {
    DecorateMaximal(s, total);
    var q := ReleaseOwners(Decorate(s), s, total, k, page, n);
    MaximalIsNormal(q, ReleaseAt(s, k, page, n));
  }

  lemma {:induction false} FreeSegmentOwners(s: seq<Seg>, total: nat, k: nat, a: nat, n: nat)
    requires Tiles(s, total) && total > 0 && NormalForm(s)
    requires k < |s| && s[k].IsFree() && s[k].start <= a && a + n <= s[k].start + s[k].npages && n > 0
    ensures |Owners(Decorate(s))| == total && a + n <= total
    ensures forall p :: a <= p < a + n ==> Owners(Decorate(s))[p] == FREE
  {
    DecorateMaximal(s, total);
    EndInRange(s, total, k);
    OwnersAt(Decorate(s), s, total, k, a);
    forall p | a <= p < a + n
      ensures Owners(Decorate(s))[p] == FREE
    {
      OwnersAt(Decorate(s), s, total, k, p);
    }
  }

  /** Releasing the run of the new owner leaves the owners of the original list. */
  lemma {:induction false} ReleaseCarved(s: seq<Seg>, total: nat, k: nat, pad: nat, n: nat, t: seq<Seg>, m: nat)
    requires Tiles(s, total) && total > 0 && NormalForm(s)
    requires k < |s| && s[k].IsFree() && 0 < n && pad + n <= s[k].npages
    requires t == CarveAt(s, k, pad, n) && Tiles(t, total) && m < |t| && t[m] == Seg(s[k].start + pad, n, Used)
    ensures ReleaseAt(t, m, s[k].start + pad, n) == s
  {
    var a := s[k].start + pad;
    var o := CarveOwners(s, total, k, pad, n);
    var q := ReleaseOwners(o, t, total, m, a, n);
    ReleaseRefinesBitmap(t, total, m, a, n);
    DecorateMaximal(s, total);
    FreeSegmentOwners(s, total, k, a, n);
    ReassignBack(Owners(Decorate(s)), a, n, |s|, FREE);
    OwnersDetermineSegments(ReleaseAt(t, m, a, n), q, s, Decorate(s), total);
  }

  lemma CarvedMiddle(s: seq<Seg>, k: nat, pad: nat, n: nat)
    requires k < |s| && s[k].IsFree() && 0 < n && pad + n <= s[k].npages
    ensures var m := if pad > 0 then k + 1 else k;
            m < |CarveAt(s, k, pad, n)| && CarveAt(s, k, pad, n)[m] == Seg(s[k].start + pad, n, Used)
  {
  }

  /** Freeing exactly what was allocated restores the list, segment by segment. */
  lemma {:induction false} FreeUndoesAllocate(s: seq<Seg>, total: nat, k: nat, pad: nat, n: nat)
    requires Tiles(s, total) && total > 0 && NormalForm(s)
    requires k < |s| && s[k].IsFree() && 0 < n && pad + n <= s[k].npages
    ensures FreeList(CarveAt(s, k, pad, n), total, s[k].start + pad, n) == Freed(true, s)
  {
    hide CarveAt, ReleaseAt, UsedIndex, Pages;
    var a, m := s[k].start + pad, if pad > 0 then k + 1 else k;
    CarvedMiddle(s, k, pad, n);
    CarveRefinesBitmap(s, total, k, pad, n);
    assert a < total && UsedIndex(CarveAt(s, k, pad, n), a) == Some(m) by {
      EndInRange(CarveAt(s, k, pad, n), total, m);
      UsedIndexIs(CarveAt(s, k, pad, n), total, a, m);
    }
    assert ReleaseAt(CarveAt(s, k, pad, n), m, a, n) == s by {
      ReleaseCarved(s, total, k, pad, n, CarveAt(s, k, pad, n), m);
    }
  }

  // ---------- Freeing in pieces ----------

  datatype Piece = Piece(page: nat, n: nat)

  /** Free a list of pieces one after the other; stop at the first refusal. */
  function FreeAll(s: seq<Seg>, total: nat, ps: seq<Piece>): Freed
    decreases |ps|
  {
    if ps == [] then Freed(true, s)
    else
      var f := FreeList(s, total, ps[0].page, ps[0].n);
      if f.ok then FreeAll(f.list, total, ps[1..]) else f
  }

  ghost predicate InPiece(x: Piece, p: int) {
    x.page <= p < x.page + x.n
  }

  /** Non-empty pieces of [a, e), pairwise disjoint, in any order. */
  ghost predicate PiecesOf(ps: seq<Piece>, a: nat, e: nat) {
    && (forall i :: 0 <= i < |ps| ==> ps[i].n > 0 && a <= ps[i].page && ps[i].page + ps[i].n <= e)
    && (forall i, j :: 0 <= i < j < |ps| ==>
         ps[i].page + ps[i].n <= ps[j].page || ps[j].page + ps[j].n <= ps[i].page)
  }

  ghost predicate InSome(ps: seq<Piece>, p: int) {
    exists i :: 0 <= i < |ps| && InPiece(ps[i], p)
  }

  /** The pieces leave no page of [a, e) out. */
  ghost predicate Cover(ps: seq<Piece>, a: nat, e: nat) {
    forall p :: a <= p < e ==> InSome(ps, p)
  }

  lemma {:induction false} OneOwnerOneSegment(o: seq<Stretch>, s: seq<Seg>, total: nat, i: nat, a: nat, n: nat)
    requires Tiles(s, total) && Decorates(o, s) && Maximal(o, {}) && |Owners(o)| == total
    requires i < |s| && s[i].start <= a < s[i].start + s[i].npages && a + n <= total
    requires forall p :: a <= p < a + n ==> Owners(o)[p] == Owners(o)[a]
    ensures a + n <= s[i].start + s[i].npages
  {
    if a + n > s[i].start + s[i].npages {
      EndInRange(s, total, i);
      assert i + 1 < |s|;
      var e := s[i].start + s[i].npages;
      assert Joined(s, i);
      OwnersAt(o, s, total, i, a);
      OwnersAt(o, s, total, i + 1, e);
      BoundaryOwners(o, i);
    }
  }

  lemma {:induction false} BoundaryOwners(o: seq<Stretch>, i: nat)
    requires Maximal(o, {}) && i + 1 < |o|
    ensures o[i].owner != o[i + 1].owner
  {
    assert Change(o, i + 1);
  }

  /** One piece: it lies in one used segment, so `free` accepts it and hands it to FREE. */
  lemma {:induction false} FreeOnePiece(s: seq<Seg>, total: nat, o: seq<Stretch>, x: Piece, id: int) returns (q: seq<Stretch>)
    requires Tiles(s, total) && total > 0 && Decorates(o, s) && Maximal(o, {}) && |Owners(o)| == total
    requires x.n > 0 && x.page + x.n <= total && id != FREE
    requires forall p :: InPiece(x, p) ==> Owners(o)[p] == id
    ensures FreeList(s, total, x.page, x.n).ok
    ensures var t := FreeList(s, total, x.page, x.n).list;
            Tiles(t, total) && Decorates(q, t) && Maximal(q, {}) && Owners(q) == Assign(Owners(o), x.page, x.n, FREE)
  {
    var i := SegmentOf(s, total, x.page);
    assert InPiece(x, x.page);
    OwnersAt(o, s, total, i, x.page);
    forall p | x.page <= p < x.page + x.n
      ensures Owners(o)[p] == Owners(o)[x.page]
    {
      assert InPiece(x, p);
    }
    OneOwnerOneSegment(o, s, total, i, x.page, x.n);
    UsedIndexIs(s, total, x.page, i);
    q := ReleaseOwners(o, s, total, i, x.page, x.n);
    ReleaseRefinesBitmap(s, total, i, x.page, x.n);
  }

  /** s with owners o, whose pages in some piece of ps all belong to id. */
  ghost predicate Owned(s: seq<Seg>, total: nat, o: seq<Stretch>, ps: seq<Piece>, id: int) {
    && Tiles(s, total) && total > 0 && Decorates(o, s) && Maximal(o, {}) && |Owners(o)| == total
    && id != FREE
    && forall p :: InSome(ps, p) ==> 0 <= p < total && Owners(o)[p] == id
  }

  lemma {:induction false} FreeHead(s: seq<Seg>, total: nat, o: seq<Stretch>, ps: seq<Piece>, a: nat, e: nat, id: int)
    returns (q: seq<Stretch>)
    requires Owned(s, total, o, ps, id) && PiecesOf(ps, a, e) && e <= total && ps != []
    ensures FreeList(s, total, ps[0].page, ps[0].n).ok
    ensures Owned(FreeList(s, total, ps[0].page, ps[0].n).list, total, q, ps[1..], id)
    ensures Owners(q) == Assign(Owners(o), ps[0].page, ps[0].n, FREE)
  {
    forall p | InPiece(ps[0], p)
      ensures Owners(o)[p] == id
    {
      assert InSome(ps, p);
    }
    q := FreeOnePiece(s, total, o, ps[0], id);
    forall p | InSome(ps[1..], p)
      ensures 0 <= p < total && Owners(q)[p] == id
    {
      InTail(ps, p);
      HeadApart(ps, a, e, p);
    }
  }

  lemma {:induction false} FreeFirst(s: seq<Seg>, total: nat, o: seq<Stretch>, ps: seq<Piece>, a: nat, e: nat, id: int)
    returns (t: seq<Seg>, q: seq<Stretch>)
    requires Owned(s, total, o, ps, id) && PiecesOf(ps, a, e) && e <= total && ps != []
    ensures FreeAll(s, total, ps) == FreeAll(t, total, ps[1..]) && Owned(t, total, q, ps[1..], id)
    ensures |Owners(o)| == total && ps[0].page + ps[0].n <= total
    ensures Owners(q) == Assign(Owners(o), ps[0].page, ps[0].n, FREE)
  {
    q := FreeHead(s, total, o, ps, a, e, id);
    t := FreeList(s, total, ps[0].page, ps[0].n).list;
  }

  /** The pages of the pieces belong to nobody now; all others are whose they were. */
  ghost predicate PiecesFreed(o: seq<Stretch>, q: seq<Stretch>, ps: seq<Piece>, total: nat) {
    && |Owners(o)| == total && |Owners(q)| == total
    && forall p :: 0 <= p < total ==> Owners(q)[p] == if InSome(ps, p) then FREE else Owners(o)[p]
  }

  lemma {:induction false} FreePieces(s: seq<Seg>, total: nat, o: seq<Stretch>, ps: seq<Piece>, a: nat, e: nat, id: int)
    returns (q: seq<Stretch>)
    requires Owned(s, total, o, ps, id) && PiecesOf(ps, a, e) && e <= total
    ensures FreeAll(s, total, ps).ok
    ensures Owned(FreeAll(s, total, ps).list, total, q, [], id) && PiecesFreed(o, q, ps, total)
    decreases |ps|
  {
    hide Owned, Owners, PiecesOf, PiecesFreed;
    OwnedPages(s, total, o, ps, id);
    if ps == [] {
      q := o;
      NoneFreed(o, total);
    } else {
      hide FreeAll;
      var t, o' := FreeFirst(s, total, o, ps, a, e, id);
      TailPieces(ps, a, e);
      q := FreePieces(t, total, o', ps[1..], a, e, id);
      FirstFreed(o, o', q, ps, total);
    }
  }

  lemma NoneFreed(o: seq<Stretch>, total: nat)
    requires |Owners(o)| == total
    ensures PiecesFreed(o, o, [], total)
  {
  }

  lemma {:induction false} FirstFreed(o: seq<Stretch>, o': seq<Stretch>, q: seq<Stretch>, ps: seq<Piece>, total: nat)
    requires ps != [] && |Owners(o)| == total && ps[0].page + ps[0].n <= total && PiecesFreed(o', q, ps[1..], total)
    requires Owners(o') == Assign(Owners(o), ps[0].page, ps[0].n, FREE)
    ensures PiecesFreed(o, q, ps, total)
  {
    hide Owners;
    forall p | 0 <= p < total
      ensures Owners(q)[p] == if InSome(ps, p) then FREE else Owners(o)[p]
    {
      InTail(ps, p);
    }
  }

  lemma OwnedPages(s: seq<Seg>, total: nat, o: seq<Stretch>, ps: seq<Piece>, id: int)
    requires Owned(s, total, o, ps, id)
    ensures |Owners(o)| == total
  {
  }

  lemma {:induction false} HeadApart(ps: seq<Piece>, a: nat, e: nat, p: int)
    requires PiecesOf(ps, a, e) && ps != [] && InSome(ps[1..], p)
    ensures !InPiece(ps[0], p)
  {
    var i :| 0 <= i < |ps[1..]| && InPiece(ps[1..][i], p);
    assert ps[i + 1] == ps[1..][i];
  }

  lemma {:induction false} TailPieces(ps: seq<Piece>, a: nat, e: nat)
    requires PiecesOf(ps, a, e) && ps != []
    ensures PiecesOf(ps[1..], a, e)
  {
  }

  lemma {:induction false} InTail(ps: seq<Piece>, p: int)
    requires ps != []
    ensures InSome(ps, p) <==> InPiece(ps[0], p) || InSome(ps[1..], p)
  {
    if InSome(ps, p) {
      var i :| 0 <= i < |ps| && InPiece(ps[i], p);
      if i > 0 {
        assert ps[1..][i - 1] == ps[i];
      }
    }
    if InSome(ps[1..], p) {
      var i :| 0 <= i < |ps[1..]| && InPiece(ps[1..][i], p);
      assert ps[i + 1] == ps[1..][i];
    }
  }

  lemma {:induction false} OwnedByItself(s: seq<Seg>, total: nat, k: nat, ps: seq<Piece>)
    requires Tiles(s, total) && total > 0 && NormalForm(s) && k < |s| && !s[k].IsFree()
    requires PiecesOf(ps, s[k].start, s[k].start + s[k].npages)
    ensures Owned(s, total, Decorate(s), ps, k) && s[k].start + s[k].npages <= total
  {
    var o := Decorate(s);
    DecorateMaximal(s, total);
    EndInRange(s, total, k);
    OwnersAt(o, s, total, k, s[k].start);
    forall p | InSome(ps, p)
      ensures 0 <= p < total && Owners(o)[p] == k
    {
      OwnersAt(o, s, total, k, p);
    }
  }

  /** Returning an allocation in pieces, in any order of any partition, succeeds piece by piece and
      ends in the list that returning it at once gives. */
  lemma {:induction false} FreeInPiecesIsFreeAtOnce(s: seq<Seg>, total: nat, k: nat, ps: seq<Piece>)
    requires Tiles(s, total) && total > 0 && NormalForm(s) && k < |s| && !s[k].IsFree()
    requires PiecesOf(ps, s[k].start, s[k].start + s[k].npages) && Cover(ps, s[k].start, s[k].start + s[k].npages)
    ensures FreeAll(s, total, ps) == FreeList(s, total, s[k].start, s[k].npages)
    ensures FreeAll(s, total, ps).ok
  {
    hide FreeAll, FreeList, Owners, Decorate;
    var a, e := s[k].start, s[k].start + s[k].npages;
    OwnedByItself(s, total, k, ps);
    var q := FreePieces(s, total, Decorate(s), ps, a, e, k);
    var q' := FreeWhole(s, total, k);
    SameOwners(Owners(Decorate(s)), Owners(q), Owners(q'), ps, a, e);
    SameLists(FreeAll(s, total, ps), q, FreeList(s, total, a, s[k].npages), q', total);
  }

  lemma {:induction false} FreeWhole(s: seq<Seg>, total: nat, k: nat) returns (q: seq<Stretch>)
    requires Tiles(s, total) && total > 0 && NormalForm(s) && k < |s| && !s[k].IsFree()
    ensures FreeList(s, total, s[k].start, s[k].npages).ok
    ensures Owned(FreeList(s, total, s[k].start, s[k].npages).list, total, q, [], k)
    ensures s[k].start + s[k].npages <= |Owners(Decorate(s))|
    ensures Owners(q) == Assign(Owners(Decorate(s)), s[k].start, s[k].npages, FREE)
  {
    var whole := [Piece(s[k].start, s[k].npages)];
    OwnedByItself(s, total, k, whole);
    q := FreeHead(s, total, Decorate(s), whole, s[k].start, s[k].start + s[k].npages, k);
  }

  lemma {:induction false} SameLists(f: Freed, q: seq<Stretch>, g: Freed, q': seq<Stretch>, total: nat)
    requires Tiles(f.list, total) && Decorates(q, f.list) && Maximal(q, {})
    requires Tiles(g.list, total) && Decorates(q', g.list) && Maximal(q', {})
    requires f.ok == g.ok && Owners(q) == Owners(q')
    ensures f == g
  {
    OwnersDetermineSegments(f.list, q, g.list, q', total);
  }

  lemma {:induction false} SameOwners(lab: seq<int>, x: seq<int>, y: seq<int>, ps: seq<Piece>, a: nat, e: nat)
    requires PiecesOf(ps, a, e) && Cover(ps, a, e) && a <= e <= |lab| && |x| == |lab|
    requires forall p :: 0 <= p < |lab| ==> x[p] == if InSome(ps, p) then FREE else lab[p]
    requires y == Assign(lab, a, e - a, FREE)
    ensures x == y
  {
    forall p | 0 <= p < |lab|
      ensures x[p] == y[p]
    {
      if a <= p < e {
        assert InSome(ps, p);
      } else {
        assert !InSome(ps, p);
      }
    }
  }

  /** Allocate, return the run in pieces in any order: the original list is back. */
  lemma {:induction false} PiecesUndoAllocate(s: seq<Seg>, total: nat, k: nat, pad: nat, n: nat, ps: seq<Piece>)
    requires Tiles(s, total) && total > 0 && NormalForm(s)
    requires k < |s| && s[k].IsFree() && 0 < n && pad + n <= s[k].npages
    requires PiecesOf(ps, s[k].start + pad, s[k].start + pad + n)
    requires Cover(ps, s[k].start + pad, s[k].start + pad + n)
    ensures FreeAll(CarveAt(s, k, pad, n), total, ps) == Freed(true, s)
  {
    hide CarveAt, FreeList, FreeAll;
    assert FreeList(CarveAt(s, k, pad, n), total, s[k].start + pad, n) == Freed(true, s) by {
      FreeUndoesAllocate(s, total, k, pad, n);
    }
    assert FreeAll(CarveAt(s, k, pad, n), total, ps) == FreeList(CarveAt(s, k, pad, n), total, s[k].start + pad, n) by {
      CarvedMiddle(s, k, pad, n);
      CarveRefinesBitmap(s, total, k, pad, n);
      CarvedNormal(s, total, k, pad, n);
      FreeInPiecesIsFreeAtOnce(CarveAt(s, k, pad, n), total, if pad > 0 then k + 1 else k, ps);
    }
  }

  // ---------- Refusal ----------

  /** A refused free returns the list it was given; an accepted one flips exactly its pages. */
  lemma {:induction false} FreeListOnBitmap(s: seq<Seg>, total: nat, page: nat, n: nat)
    requires Tiles(s, total) && NormalForm(s)
    ensures Tiles(FreeList(s, total, page, n).list, total) && NormalForm(FreeList(s, total, page, n).list)
    ensures !FreeList(s, total, page, n).ok ==> FreeList(s, total, page, n).list == s
    ensures FreeList(s, total, page, n).ok && n > 0 ==>
      && AllPages(Pages(s), page, n, false)
      && Pages(FreeList(s, total, page, n).list) == Paint(Pages(s), page, n, true)
  {
    var f := FreeList(s, total, page, n);
    if f.ok && n > 0 {
      var k := UsedIndex(s, page).value;
      assert f.list == ReleaseAt(s, k, page, n);
      ReleaseRefinesBitmap(s, total, k, page, n);
      ReleasedNormal(s, total, k, page, n);
    } else {
      assert f.list == s;
    }
  }

  // ---------- How long the list can get ----------

  function UsedCount(s: seq<Seg>): nat {
    if s == [] then 0 else UsedCount(s[..|s| - 1]) + (if s[|s| - 1].IsFree() then 0 else 1)
  }

  /** In normal form there are at most 2 * allocated + 1 segments. */
  lemma {:induction false} NodeBound(s: seq<Seg>)
    requires NormalForm(s)
    ensures |s| <= 2 * UsedCount(s) + 1
    ensures |s| > 0 && !s[|s| - 1].IsFree() ==> |s| <= 2 * UsedCount(s)
  {
    if s != [] {
      var t := s[..|s| - 1];
      forall i | 0 <= i < |t| - 1
        ensures NotBothFree(t, i)
      {
        assert NotBothFree(s, i);
      }
      NodeBound(t);
      assert |s| > 1 ==> NotBothFree(s, |s| - 2);
    }
  }

  // ---------- Counting free pages ----------

  function Count(m: seq<bool>): nat {
    if m == [] then 0 else (if m[0] then 1 else 0) + Count(m[1..])
  }

  lemma {:induction false} CountConcat(a: seq<bool>, b: seq<bool>)
    ensures Count(a + b) == Count(a) + Count(b)
  {
    if a == [] {
      assert a + b == b;
    } else {
      CountConcat(a[1..], b);
      assert (a + b)[1..] == a[1..] + b;
    }
  }

  lemma {:induction false} CountRun(b: bool, n: nat)
    ensures Count(Run(b, n)) == if b then n else 0
  {
    if n > 0 {
      CountRun(b, n - 1);
      assert Run(b, n)[1..] == Run(b, n - 1);
    }
  }

  lemma {:induction false} CountPrefix(s: seq<Seg>, k: nat)
    requires k < |s|
    ensures Count(Pages(s[..k + 1])) == Count(Pages(s[..k])) + (if s[k].IsFree() then s[k].npages else 0)
  {
    assert s[..k + 1] == s[..k] + [s[k]];
    PagesConcat(s[..k], [s[k]]);
    PagesOne(s[k]);
    CountConcat(Pages(s[..k]), Run(s[k].IsFree(), s[k].npages));
    CountRun(s[k].IsFree(), s[k].npages);
  }
}
