/** Which chunks are on which list: every free chunk is on exactly the list its size and state call for,
    large bins are sorted, and a clear bit of the bin map means an empty bin. */
module BinContents {
  import opened Machine
  import opened HeapSizes
  import opened HeapChunks
  import opened BinLists

  /** The list a chunk belongs on; 0 for none. */
  ghost function ListOf(c: Chunk): int {
    match c.use
    case Unsorted => 1
    case Sorted => if c.size < TWO32 then BinIndex(c.size) else 0
    case Fast => NBINS + FastIndex(c.size)
    case _ => 0
  }

  /** `fastbin_index`. */
  function FastIndex(size: nat): int {
    size / 8 - 2
  }

  ghost predicate MemberAt(cs: Chunks, lists: seq<seq<nat>>, i: nat, k: nat)
    requires i < |lists| && k < |lists[i]|
  {
    lists[i][k] in cs && ListOf(cs[lists[i][k]]) == i
  }

  ghost predicate AtHome(cs: Chunks, lists: seq<seq<nat>>, p: nat)
    requires p in cs
  {
    ListOf(cs[p]) == 0 || (1 <= ListOf(cs[p]) < |lists| && OnList(lists[ListOf(cs[p])], p))
  }

  /** Lists hold what belongs on them, and nothing that belongs on a list is missing. */
  ghost predicate Listed(cs: Chunks, lists: seq<seq<nat>>) {
    && (forall i, k {:trigger MemberAt(cs, lists, i, k)} :: 0 <= i < |lists| && 0 <= k < |lists[i]| ==> MemberAt(cs, lists, i, k))
    && (forall p {:trigger AtHome(cs, lists, p)} :: p in cs ==> AtHome(cs, lists, p))
  }

  /** A free chunk's place. */
  lemma {:induction false} PlaceOf(cs: Chunks, lists: seq<seq<nat>>, p: nat) returns (k: nat)
    requires Listed(cs, lists) && p in cs && ListOf(cs[p]) != 0
    ensures 1 <= ListOf(cs[p]) < |lists| && k < |lists[ListOf(cs[p])]| && lists[ListOf(cs[p])][k] == p
  {
    assert AtHome(cs, lists, p);
    k :| 0 <= k < |lists[ListOf(cs[p])]| && lists[ListOf(cs[p])][k] == p;
  }

  lemma {:induction false} NotListed(cs: Chunks, lists: seq<seq<nat>>, p: nat)
    requires Listed(cs, lists) && lists != [] && lists[0] == [] && (p in cs ==> ListOf(cs[p]) == 0)
    ensures OnNone(lists, p)
  {
    forall i, k | 0 <= i < |lists| && 0 <= k < |lists[i]|
      ensures lists[i][k] != p
    {
      assert MemberAt(cs, lists, i, k);
    }
  }

  /** Taking a chunk off its list and out of the free chunks. */
  lemma {:induction false} UnlistKeeps(cs: Chunks, lists: seq<seq<nat>>, i: nat, k: nat, c: Chunk)
    requires Listed(cs, lists) && OnceEach(lists) && i < |lists| && k < |lists[i]| && ListOf(c) == 0
    ensures Listed(cs[lists[i][k] := c], lists[i := Without(lists[i], k)])
  {
    hide ListOf;
    var p := lists[i][k];
    var cs', t := cs[p := c], lists[i := Without(lists[i], k)];
    forall j, m | 0 <= j < |t| && 0 <= m < |t[j]|
      ensures MemberAt(cs', t, j, m)
    {
      var m' := if j == i && m >= k then m + 1 else m;
      assert MemberAt(cs, lists, j, m') && Differ(lists, j, m', i, k);
    }
    assert MemberAt(cs, lists, i, k);
    forall q | q in cs'
      ensures AtHome(cs', t, q)
    {
      if q != p && ListOf(cs[q]) != 0 {
        var m := PlaceOf(cs, lists, q);
        if ListOf(cs[q]) == i {
          assert t[i][if m < k then m else m - 1] == q;
        }
      }
    }
  }

  /** Entering a chunk that is on no list. */
  lemma {:induction false} RelistKeeps(cs: Chunks, lists: seq<seq<nat>>, k: nat, p: nat, c: Chunk)
    requires Listed(cs, lists) && OnNone(lists, p) && 1 <= ListOf(c) < |lists| && k <= |lists[ListOf(c)]|
    ensures var i := ListOf(c); Listed(cs[p := c], lists[i := With(lists[i], k, p)])
  {
    var i := ListOf(c);
    hide ListOf;
    var cs', t := cs[p := c], lists[i := With(lists[i], k, p)];
    forall j, m | 0 <= j < |t| && 0 <= m < |t[j]|
      ensures MemberAt(cs', t, j, m)
    {
      if j != i || m != k {
        var m' := if j == i && m > k then m - 1 else m;
        assert MemberAt(cs, lists, j, m') && !OnList(lists[j], p);
      }
    }
    forall q | q in cs'
      ensures AtHome(cs', t, q)
    {
      if q == p {
        assert t[i][k] == p;
      } else if ListOf(cs[q]) != 0 {
        assert AtHome(cs, lists, q);
        var m := PlaceOf(cs, lists, q);
        if ListOf(cs[q]) == i {
          assert t[i][if m < k then m else m + 1] == q;
        }
      } else {
        assert AtHome(cs, lists, q);
      }
    }
  }

  /** The chunks that belong on lists are the same. */
  ghost predicate SameListed(cs: Chunks, cs': Chunks) {
    && (forall p {:trigger cs'[p]} :: p in cs' && ListOf(cs'[p]) != 0 ==> p in cs && cs[p] == cs'[p])
    && (forall p {:trigger cs[p]} :: p in cs && ListOf(cs[p]) != 0 ==> p in cs' && cs[p] == cs'[p])
  }

  lemma {:induction false} SameListedKeeps(cs: Chunks, cs': Chunks, lists: seq<seq<nat>>)
    requires Listed(cs, lists) && lists != [] && lists[0] == [] && SameListed(cs, cs')
    ensures Listed(cs', lists)
  {
    hide ListOf;
    forall i, k | 0 <= i < |lists| && 0 <= k < |lists[i]|
      ensures MemberAt(cs', lists, i, k)
    {
      assert MemberAt(cs, lists, i, k);
    }
    forall p | p in cs'
      ensures AtHome(cs', lists, p)
    {
      if ListOf(cs'[p]) != 0 {
        assert AtHome(cs, lists, p);
      }
    }
  }

  // ---------- Sorted bins ----------

  ghost predicate InOrder(cs: Chunks, l: seq<nat>, k: nat, m: nat)
    requires k < |l| && m < |l|
  {
    l[k] in cs && l[m] in cs && cs[l[k]].size >= cs[l[m]].size
  }

  /** Sizes fall from first to last. */
  ghost predicate Descends(cs: Chunks, l: seq<nat>) {
    forall k, m {:trigger InOrder(cs, l, k, m)} :: 0 <= k < m < |l| ==> InOrder(cs, l, k, m)
  }

  ghost predicate BinsSorted(cs: Chunks, lists: seq<seq<nat>>) {
    |lists| == NLISTS && forall i {:trigger Descends(cs, lists[i])} :: 2 <= i < NBINS ==> Descends(cs, lists[i])
  }

  lemma {:induction false} DescendsWithout(cs: Chunks, l: seq<nat>, k: nat)
    requires Descends(cs, l) && k < |l|
    ensures Descends(cs, Without(l, k))
  {
    var t := Without(l, k);
    forall a, b | 0 <= a < b < |t|
      ensures InOrder(cs, t, a, b)
    {
      assert InOrder(cs, l, if a < k then a else a + 1, if b < k then b else b + 1);
    }
  }

  /** Where a chunk may enter a sorted list. */
  ghost predicate FitsAt(cs: Chunks, l: seq<nat>, k: nat, size: nat) {
    && k <= |l| && (forall m {:trigger l[m]} :: 0 <= m < |l| ==> l[m] in cs)
    && (forall m {:trigger l[m]} :: 0 <= m < k ==> cs[l[m]].size >= size)
    && (forall m {:trigger l[m]} :: k <= m < |l| ==> size >= cs[l[m]].size)
  }

  /** Where a chunk enters its bin: in front in a small bin; in a large one behind all chunks if none is smaller,
      else in front of the first that is not larger. */
  ghost predicate EntersAt(cs: Chunks, l: seq<nat>, k: nat, size: nat) {
    && k <= |l| && (forall m {:trigger l[m]} :: 0 <= m < |l| ==> l[m] in cs)
    && if size < MIN_LARGE_SIZE then k == 0
       else if forall m {:trigger l[m]} :: 0 <= m < |l| ==> cs[l[m]].size >= size then k == |l|
       else k < |l| && cs[l[k]].size <= size && forall m {:trigger l[m]} :: 0 <= m < k ==> cs[l[m]].size > size
  }

  lemma {:induction false} DescendsWith(cs: Chunks, l: seq<nat>, k: nat, p: nat, c: Chunk)
    requires Descends(cs, l) && FitsAt(cs, l, k, c.size) && !OnList(l, p)
    ensures Descends(cs[p := c], With(l, k, p))
  {
    var t, cs' := With(l, k, p), cs[p := c];
    forall a, b | 0 <= a < b < |t|
      ensures InOrder(cs', t, a, b)
    {
      if a != k && b != k {
        assert InOrder(cs, l, if a < k then a else a - 1, if b < k then b else b - 1);
      }
      assert a != k ==> t[a] == l[if a < k then a else a - 1];
      assert b != k ==> t[b] == l[if b < k then b else b - 1];
    }
  }

  lemma {:induction false} DescendsKept(cs: Chunks, cs': Chunks, l: seq<nat>)
    requires Descends(cs, l) && forall k {:trigger l[k]} :: 0 <= k < |l| && l[k] in cs ==> l[k] in cs' && cs'[l[k]] == cs[l[k]]
    ensures Descends(cs', l)
  {
    forall a, b | 0 <= a < b < |l|
      ensures InOrder(cs', l, a, b)
    {
      assert InOrder(cs, l, a, b);
    }
  }

  /** Chunks of one small bin all have the same size. */
  lemma {:induction false} SmallBinSize(a: nat, b: nat)
    requires ChunkSize(a) && ChunkSize(b) && a < TWO32 && b < TWO32 && BinIndex(a) == BinIndex(b) < 32
    ensures a == b
  {
    BinIndexInRange(a);
    BinIndexInRange(b);
    assert a == 16 * (a / 16) && b == 16 * (b / 16);
    DivModUnique(a, 8, 2 * (a / 16), 0);
    DivModUnique(b, 8, 2 * (b / 16), 0);
  }
}
