/** The free lists of the boundary-tag heap: circular doubly linked bins whose headers act as list nodes,
    and singly linked fastbins, all threaded through the same two link fields.  `lists` is their value:
    entry 1 is the unsorted bin, entries 2..95 the sorted bins, entries 96..104 the fastbins; bins are
    written from `first` (the header's fd) to `last` (its bk). */
module BinLists {
  import opened Machine
  import opened HeapSizes
  import opened HeapChunks

  datatype Node = Hdr(bin: nat) | At(addr: nat)

  type Links = map<Node, Node>

  const NLISTS: nat := 105
  /** Bin 0 does not exist: its header stands for the null pointer. */
  const NIL: Node := Hdr(0)

  /** Node k of the ring of bin i: the header stands on both sides of the list. */
  function NodeAt(i: nat, l: seq<nat>, k: int): Node {
    if 0 <= k < |l| then At(l[k]) else Hdr(i)
  }

  ghost predicate LinkedAt(fd: Links, bk: Links, i: nat, l: seq<nat>, k: int) {
    var a, b := NodeAt(i, l, k - 1), NodeAt(i, l, k);
    a in fd && fd[a] == b && b in bk && bk[b] == a
  }

  /** `fd` and `bk` run round the ring in opposite directions. */
  ghost predicate Ring(fd: Links, bk: Links, i: nat, l: seq<nat>) {
    forall k {:trigger LinkedAt(fd, bk, i, l, k)} :: 0 <= k <= |l| ==> LinkedAt(fd, bk, i, l, k)
  }

  ghost predicate NextAt(fd: Links, l: seq<nat>, k: nat)
    requires k < |l|
  {
    At(l[k]) in fd && fd[At(l[k])] == NodeAt(0, l, k + 1)
  }

  /** A null-terminated chain. */
  ghost predicate Chain(fd: Links, first: Node, l: seq<nat>) {
    first == NodeAt(0, l, 0) && forall k {:trigger NextAt(fd, l, k)} :: 0 <= k < |l| ==> NextAt(fd, l, k)
  }

  ghost predicate Threaded(fd: Links, bk: Links, fast: seq<Node>, lists: seq<seq<nat>>) {
    && |lists| == NLISTS && |fast| == FASTBINS_USED && lists[0] == []
    && (forall i {:trigger Ring(fd, bk, i, lists[i])} :: 1 <= i < NBINS ==> Ring(fd, bk, i, lists[i]))
    && (forall f {:trigger fast[f]} :: 0 <= f < FASTBINS_USED ==> Chain(fd, fast[f], lists[NBINS + f]))
  }

  ghost predicate Differ(lists: seq<seq<nat>>, i: nat, k: nat, j: nat, m: nat)
    requires i < |lists| && k < |lists[i]| && j < |lists| && m < |lists[j]|
  {
    lists[i][k] != lists[j][m]
  }

  /** No chunk is on two lists, or twice on one. */
  ghost predicate OnceEach(lists: seq<seq<nat>>) {
    forall i, k, j, m {:trigger Differ(lists, i, k, j, m)} ::
      0 <= i < |lists| && 0 <= k < |lists[i]| && 0 <= j < |lists| && 0 <= m < |lists[j]| && (i != j || k != m) ==>
      Differ(lists, i, k, j, m)
  }

  ghost predicate OnList(l: seq<nat>, p: nat) {
    exists k :: 0 <= k < |l| && l[k] == p
  }

  ghost predicate OnNone(lists: seq<seq<nat>>, p: nat) {
    forall i {:trigger lists[i]} :: 0 <= i < |lists| ==> !OnList(lists[i], p)
  }

  function Without(l: seq<nat>, k: nat): seq<nat>
    requires k < |l|
  {
    l[..k] + l[k + 1..]
  }

  function With(l: seq<nat>, k: nat, p: nat): seq<nat>
    requires k <= |l|
  {
    l[..k] + [p] + l[k..]
  }

  // ---------- Unlinking ----------

  /** `unlink`: the neighbours of node k point past it. */
  lemma {:induction false} UnlinkRing(fd: Links, bk: Links, i: nat, l: seq<nat>, k: nat)
    requires Ring(fd, bk, i, l) && k < |l| && forall a, b :: 0 <= a < b < |l| ==> l[a] != l[b]
    ensures var f, b := NodeAt(i, l, k + 1), NodeAt(i, l, k - 1);
            Ring(fd[b := f], bk[f := b], i, Without(l, k))
  {
    var f, b := NodeAt(i, l, k + 1), NodeAt(i, l, k - 1);
    var t := Without(l, k);
    var fd', bk' := fd[b := f], bk[f := b];
    forall m | 0 <= m <= |t|
      ensures LinkedAt(fd', bk', i, t, m)
    {
      assert LinkedAt(fd, bk, i, l, if m <= k then m else m + 1);
      assert NodeAt(i, t, m) == NodeAt(i, l, if m < k then m else m + 1);
      assert NodeAt(i, t, m - 1) == NodeAt(i, l, if m - 1 < k then m - 1 else m);
    }
  }

  /** Changing links of other nodes leaves a ring alone. */
  ghost predicate SameLinks(fd: Links, bk: Links, fd': Links, bk': Links, i: nat, l: seq<nat>) {
    forall k {:trigger NodeAt(i, l, k)} :: -1 <= k <= |l| ==>
      && (NodeAt(i, l, k) in fd ==> NodeAt(i, l, k) in fd' && fd'[NodeAt(i, l, k)] == fd[NodeAt(i, l, k)])
      && (NodeAt(i, l, k) in bk ==> NodeAt(i, l, k) in bk' && bk'[NodeAt(i, l, k)] == bk[NodeAt(i, l, k)])
  }

  lemma {:induction false} RingKept(fd: Links, bk: Links, fd': Links, bk': Links, i: nat, l: seq<nat>)
    requires Ring(fd, bk, i, l) && SameLinks(fd, bk, fd', bk', i, l)
    ensures Ring(fd', bk', i, l)
  {
    forall k | 0 <= k <= |l|
      ensures LinkedAt(fd', bk', i, l, k)
    {
      assert LinkedAt(fd, bk, i, l, k);
    }
  }

  lemma {:induction false} ChainKept(fd: Links, fd': Links, first: Node, l: seq<nat>)
    requires Chain(fd, first, l) && forall k {:trigger l[k]} :: 0 <= k < |l| && At(l[k]) in fd ==> At(l[k]) in fd' && fd'[At(l[k])] == fd[At(l[k])]
    ensures Chain(fd', first, l)
  {
    forall k | 0 <= k < |l|
      ensures NextAt(fd', l, k)
    {
      assert NextAt(fd, l, k);
    }
  }

  /** New links agree with old ones but at the given nodes. */
  ghost predicate OnlyAt(fd: Links, fd': Links, a: Node, b: Node) {
    forall n {:trigger fd'[n]} {:trigger n in fd'} :: n in fd && n != a && n != b ==> n in fd' && fd'[n] == fd[n]
  }

  /** Lists on which none of the changed nodes stand stay threaded. */
  lemma {:induction false} OthersKept(fd: Links, bk: Links, fd': Links, bk': Links, fast: seq<Node>, lists: seq<seq<nat>>,
                                      j: nat, a: Node, b: Node)
    requires Threaded(fd, bk, fast, lists) && 1 <= j < NLISTS
    requires OnlyAt(fd, fd', a, b) && OnlyAt(bk, bk', a, b) && Stranger(lists[j], j, a) && Stranger(lists[j], j, b)
    ensures j < NBINS ==> Ring(fd', bk', j, lists[j])
    ensures j >= NBINS ==> Chain(fd', fast[j - NBINS], lists[j])
  {
    if j < NBINS {
      RingKept(fd, bk, fd', bk', j, lists[j]);
    } else {
      ChainKept(fd, fd', fast[j - NBINS], lists[j]);
    }
  }

  /** Node n is neither the header nor a chunk of list j. */
  ghost predicate Stranger(l: seq<nat>, j: nat, n: Node) {
    n != Hdr(j) && (n.At? ==> !OnList(l, n.addr))
  }

  lemma {:induction false} MemberIsStranger(lists: seq<seq<nat>>, i: nat, k: int, j: nat)
    requires OnceEach(lists) && i < |lists| && j < |lists| && i != j
    ensures Stranger(lists[j], j, NodeAt(i, lists[i], k))
  {
    forall m | 0 <= m < |lists[j]| && 0 <= k < |lists[i]|
      ensures lists[j][m] != lists[i][k]
    {
      assert Differ(lists, i, k, j, m);
    }
  }

  lemma {:induction false} UnlinkKeeps(fd: Links, bk: Links, fast: seq<Node>, lists: seq<seq<nat>>, i: nat, k: nat)
    requires Threaded(fd, bk, fast, lists) && OnceEach(lists) && 1 <= i < NBINS && k < |lists[i]|
    ensures var f, b := NodeAt(i, lists[i], k + 1), NodeAt(i, lists[i], k - 1);
            var t := lists[i := Without(lists[i], k)];
            Threaded(fd[b := f], bk[f := b], fast, t) && OnceEach(t)
  {
    var f, b := NodeAt(i, lists[i], k + 1), NodeAt(i, lists[i], k - 1);
    var t := lists[i := Without(lists[i], k)];
    var fd', bk' := fd[b := f], bk[f := b];
    forall m, n | 0 <= m < n < |lists[i]|
      ensures lists[i][m] != lists[i][n]
    {
      assert Differ(lists, i, m, i, n);
    }
    UnlinkRing(fd, bk, i, lists[i], k);
    forall j | 1 <= j < NLISTS && j != i
      ensures (j < NBINS ==> Ring(fd', bk', j, t[j])) && (j >= NBINS ==> Chain(fd', fast[j - NBINS], t[j]))
    {
      MemberIsStranger(lists, i, k + 1, j);
      MemberIsStranger(lists, i, k - 1, j);
      OthersKept(fd, bk, fd', bk', fast, lists, j, f, b);
    }
    WithoutOnce(lists, i, k);
  }

  lemma {:induction false} WithoutOnce(lists: seq<seq<nat>>, i: nat, k: nat)
    requires OnceEach(lists) && i < |lists| && k < |lists[i]|
    ensures OnceEach(lists[i := Without(lists[i], k)]) && OnNone(lists[i := Without(lists[i], k)], lists[i][k])
  {
    var t := lists[i := Without(lists[i], k)];
    forall a, m, b, n | 0 <= a < |t| && 0 <= m < |t[a]| && 0 <= b < |t| && 0 <= n < |t[b]| && (a != b || m != n)
      ensures Differ(t, a, m, b, n)
    {
      assert Differ(lists, a, if a == i && m >= k then m + 1 else m, b, if b == i && n >= k then n + 1 else n);
    }
    forall a | 0 <= a < |t|
      ensures !OnList(t[a], lists[i][k])
    {
      forall m | 0 <= m < |t[a]|
        ensures t[a][m] != lists[i][k]
      {
        assert Differ(lists, a, if a == i && m >= k then m + 1 else m, i, k);
      }
    }
  }

  // ---------- Linking in ----------

  lemma {:induction false} InsertRing(fd: Links, bk: Links, i: nat, l: seq<nat>, k: nat, p: nat)
    requires Ring(fd, bk, i, l) && k <= |l| && !OnList(l, p) && forall a, b :: 0 <= a < b < |l| ==> l[a] != l[b]
    ensures var f, b := NodeAt(i, l, k), NodeAt(i, l, k - 1);
            Ring(fd[At(p) := f][b := At(p)], bk[At(p) := b][f := At(p)], i, With(l, k, p))
  {
    var f, b := NodeAt(i, l, k), NodeAt(i, l, k - 1);
    var t := With(l, k, p);
    var fd', bk' := fd[At(p) := f][b := At(p)], bk[At(p) := b][f := At(p)];
    forall m | 0 <= m <= |t|
      ensures LinkedAt(fd', bk', i, t, m)
    {
      assert LinkedAt(fd, bk, i, l, if m <= k then m else m - 1);
      assert NodeAt(i, t, m) == if m == k then At(p) else NodeAt(i, l, if m < k then m else m - 1);
      assert NodeAt(i, t, m - 1) == if m - 1 == k then At(p) else NodeAt(i, l, if m - 1 < k then m - 1 else m - 2);
    }
  }

  lemma {:induction false} InsertKeeps(fd: Links, bk: Links, fast: seq<Node>, lists: seq<seq<nat>>, i: nat, k: nat, p: nat)
    requires Threaded(fd, bk, fast, lists) && OnceEach(lists) && OnNone(lists, p) && 1 <= i < NBINS && k <= |lists[i]|
    ensures var f, b := NodeAt(i, lists[i], k), NodeAt(i, lists[i], k - 1);
            var t := lists[i := With(lists[i], k, p)];
            Threaded(fd[At(p) := f][b := At(p)], bk[At(p) := b][f := At(p)], fast, t) && OnceEach(t)
  {
    var f, b := NodeAt(i, lists[i], k), NodeAt(i, lists[i], k - 1);
    var t := lists[i := With(lists[i], k, p)];
    var fd', bk' := fd[At(p) := f][b := At(p)], bk[At(p) := b][f := At(p)];
    forall m, n | 0 <= m < n < |lists[i]|
      ensures lists[i][m] != lists[i][n]
    {
      assert Differ(lists, i, m, i, n);
    }
    InsertRing(fd, bk, i, lists[i], k, p);
    forall j | 1 <= j < NLISTS && j != i
      ensures (j < NBINS ==> Ring(fd', bk', j, t[j])) && (j >= NBINS ==> Chain(fd', fast[j - NBINS], t[j]))
    {
      MemberIsStranger(lists, i, k, j);
      MemberIsStranger(lists, i, k - 1, j);
      assert Stranger(lists[j], j, At(p));
      OthersKept(fd, bk, fd[At(p) := f], bk[At(p) := b], fast, lists, j, At(p), At(p));
      if j < NBINS {
        RingKept(fd[At(p) := f], bk[At(p) := b], fd', bk', j, lists[j]);
      } else {
        ChainKept(fd[At(p) := f], fd', fast[j - NBINS], lists[j]);
      }
    }
    WithOnce(lists, i, k, p);
  }

  lemma {:induction false} WithOnce(lists: seq<seq<nat>>, i: nat, k: nat, p: nat)
    requires OnceEach(lists) && OnNone(lists, p) && i < |lists| && k <= |lists[i]|
    ensures OnceEach(lists[i := With(lists[i], k, p)])
  {
    var t := lists[i := With(lists[i], k, p)];
    forall a, m, b, n | 0 <= a < |t| && 0 <= m < |t[a]| && 0 <= b < |t| && 0 <= n < |t[b]| && (a != b || m != n)
      ensures Differ(t, a, m, b, n)
    {
      var m', n' := if a == i && m > k then m - 1 else m, if b == i && n > k then n - 1 else n;
      if (a == i && m == k) || (b == i && n == k) {
        assert !OnList(lists[a], p) && !OnList(lists[b], p);
      } else {
        assert Differ(lists, a, m', b, n');
      }
    }
  }

  /** The unsorted list becomes the single chunk p, whatever was on it. */
  lemma {:induction false} SoleKeeps(fd: Links, bk: Links, fast: seq<Node>, lists: seq<seq<nat>>, p: nat)
    requires Threaded(fd, bk, fast, lists) && OnceEach(lists) && OnNone(lists[1 := []], p)
    ensures var t := lists[1 := [p]];
            && Threaded(fd[Hdr(1) := At(p)][At(p) := Hdr(1)], bk[Hdr(1) := At(p)][At(p) := Hdr(1)], fast, t)
            && OnceEach(t)
  {
    var t := lists[1 := [p]];
    var fd', bk' := fd[Hdr(1) := At(p)][At(p) := Hdr(1)], bk[Hdr(1) := At(p)][At(p) := Hdr(1)];
    forall k | 0 <= k <= 1
      ensures LinkedAt(fd', bk', 1, t[1], k)
    {
    }
    forall j | 1 <= j < NLISTS && j != 1
      ensures (j < NBINS ==> Ring(fd', bk', j, t[j])) && (j >= NBINS ==> Chain(fd', fast[j - NBINS], t[j]))
    {
      assert lists[1 := []][j] == lists[j];
      OthersKept(fd, bk, fd', bk', fast, lists, j, At(p), Hdr(1));
    }
    forall a, m, b, n | 0 <= a < |t| && 0 <= m < |t[a]| && 0 <= b < |t| && 0 <= n < |t[b]| && (a != b || m != n)
      ensures Differ(t, a, m, b, n)
    {
      assert a != 1 ==> lists[1 := []][a] == lists[a];
      assert b != 1 ==> lists[1 := []][b] == lists[b];
      if a != 1 && b != 1 {
        assert Differ(lists, a, m, b, n);
      }
    }
  }

  // ---------- Fastbins ----------

  lemma {:induction false} PushKeeps(fd: Links, bk: Links, fast: seq<Node>, lists: seq<seq<nat>>, f: nat, p: nat)
    requires Threaded(fd, bk, fast, lists) && OnceEach(lists) && OnNone(lists, p) && f < FASTBINS_USED
    ensures var t := lists[NBINS + f := [p] + lists[NBINS + f]];
            Threaded(fd[At(p) := fast[f]], bk, fast[f := At(p)], t) && OnceEach(t)
  {
    var l := lists[NBINS + f];
    var t := lists[NBINS + f := [p] + l];
    var fd' := fd[At(p) := fast[f]];
    assert !OnList(l, p);
    forall k | 0 <= k < |[p] + l|
      ensures NextAt(fd', [p] + l, k)
    {
      if k > 0 {
        assert NextAt(fd, l, k - 1);
      }
    }
    forall j | 1 <= j < NLISTS && j != NBINS + f
      ensures (j < NBINS ==> Ring(fd', bk, j, t[j])) && (j >= NBINS ==> Chain(fd', fast[f := At(p)][j - NBINS], t[j]))
    {
      assert Stranger(lists[j], j, At(p));
      OthersKept(fd, bk, fd', bk, fast, lists, j, At(p), At(p));
    }
    assert With(l, 0, p) == [p] + l;
    WithOnce(lists, NBINS + f, 0, p);
  }

  lemma {:induction false} PopKeeps(fd: Links, bk: Links, fast: seq<Node>, lists: seq<seq<nat>>, f: nat)
    requires Threaded(fd, bk, fast, lists) && OnceEach(lists) && f < FASTBINS_USED && lists[NBINS + f] != []
    ensures var l := lists[NBINS + f];
            var t := lists[NBINS + f := l[1..]];
            && fast[f] == At(l[0]) && At(l[0]) in fd
            && Threaded(fd, bk, fast[f := fd[At(l[0])]], t) && OnceEach(t) && OnNone(t, l[0])
  {
    var l := lists[NBINS + f];
    var t := lists[NBINS + f := l[1..]];
    assert Chain(fd, fast[f], l);
    assert NextAt(fd, l, 0);
    forall k | 0 <= k < |l[1..]|
      ensures NextAt(fd, l[1..], k)
    {
      assert NextAt(fd, l, k + 1);
    }
    assert Without(l, 0) == l[1..];
    WithoutOnce(lists, NBINS + f, 0);
  }
}
