/** The boundary-tag heap: one contiguous arena, its chunks' tags, and its free lists, changed in place. */
module BoundaryTagHeap {
  import opened Machine
  import opened HeapSizes
  import opened HeapChunks
  import opened BinLists
  import opened BinContents
  import opened BinMaps
  import opened ArenaGaps

  /** Fastbin chunks are within the fastbin limit. */
  ghost predicate SmallFast(cs: Chunks) {
    forall p {:trigger cs[p]} :: p in cs && cs[p].use.Fast? ==> 32 <= cs[p].size <= MAX_FAST
  }

  /** A clear bit means an empty bin. */
  ghost predicate MapOk(m: seq<nat>, lists: seq<seq<nat>>)
    requires |m| == 4 && |lists| == NLISTS
  {
    forall i {:trigger Marked(m, i)} :: 2 <= i < NBINS && !Marked(m, i) ==> lists[i] == []
  }

  ghost predicate EmptyFrom(lists: seq<seq<nat>>, lo: nat) {
    forall i {:trigger lists[i]} :: lo <= i < |lists| ==> lists[i] == []
  }

  /** When a small request that fits nothing exactly is split off the last remainder: it is the first of the unsorted
      chunks u, too large by a chunk, and none of the others has just the size. */
  ghost predicate RemainderServes(c: Chunks, u: seq<nat>, last: nat, nb: nat) {
    && nb < MIN_LARGE_SIZE && u != [] && u[0] == last && last in c && c[last].size > nb + MINSIZE
    && forall i {:trigger u[i]} :: 0 < i < |u| && u[i] in c ==> c[u[i]].size != nb
  }

  /** The last remainder once chunk p has served a small request: what is left of p, if anything is. */
  ghost function RemainderAfter(c: Chunks, p: nat, nb: nat, last: nat): nat {
    if nb < MIN_LARGE_SIZE && p in c && Free(c[p].use) && c[p].size >= nb + MINSIZE then p + nb else last
  }

  /** Everything about the contents of the lists. */
  ghost predicate Contents(cs: Chunks, lists: seq<seq<nat>>, m: seq<nat>) {
    Listed(cs, lists) && BinsSorted(cs, lists) && MapShape(m) && MapOk(m, lists) && SmallFast(cs)
  }

  lemma ContentsShape(cs: Chunks, lists: seq<seq<nat>>, m: seq<nat>)
    requires Contents(cs, lists, m)
    ensures |lists| == NLISTS && MapShape(m) && |m| == 4
  {
  }

  lemma {:induction false} UnlistContents(cs: Chunks, lists: seq<seq<nat>>, m: seq<nat>, i: nat, k: nat)
    requires Contents(cs, lists, m) && OnceEach(lists) && i < NLISTS && k < |lists[i]|
    ensures lists[i][k] in cs && ListOf(cs[lists[i][k]]) == i
    ensures Contents(cs[lists[i][k] := Chunk(cs[lists[i][k]].size, InUse)], lists[i := Without(lists[i], k)], m)
  {
    assert MemberAt(cs, lists, i, k);
    var p := lists[i][k];
    var c := Chunk(cs[p].size, InUse);
    var cs', t := cs[p := c], lists[i := Without(lists[i], k)];
    UnlistKeeps(cs, lists, i, k, c);
    forall j | 2 <= j < NBINS
      ensures Descends(cs', t[j])
    {
      assert Descends(cs, lists[j]);
      if j == i {
        DescendsWithout(cs, lists[i], k);
      }
      forall n | 0 <= n < |t[j]|
        ensures t[j][n] != p
      {
        assert Differ(lists, j, if j == i && n >= k then n + 1 else n, i, k);
      }
      DescendsKept(cs, cs', t[j]);
    }
  }

  /** A chunk on no list enters the list it belongs on, at a place that fits its size. */
  lemma {:induction false} RelistContents(cs: Chunks, lists: seq<seq<nat>>, m: seq<nat>, m': seq<nat>, k: nat, p: nat, c: Chunk)
    requires Contents(cs, lists, m) && OnNone(lists, p) && 1 <= ListOf(c) < NLISTS && k <= |lists[ListOf(c)]|
    requires 2 <= ListOf(c) < NBINS ==> FitsAt(cs, lists[ListOf(c)], k, c.size)
    requires MapShape(m') && forall i {:trigger Marked(m', i)} :: 2 <= i < NBINS && !Marked(m', i) ==> !Marked(m, i) && i != ListOf(c)
    requires c.use.Fast? ==> 32 <= c.size <= MAX_FAST
    ensures var i := ListOf(c); Contents(cs[p := c], lists[i := With(lists[i], k, p)], m')
  {
    var i := ListOf(c);
    hide ListOf, FitsAt;
    var cs', t := cs[p := c], lists[i := With(lists[i], k, p)];
    RelistKeeps(cs, lists, k, p, c);
    forall j | 2 <= j < NBINS
      ensures Descends(cs', t[j])
    {
      assert Descends(cs, lists[j]) && !OnList(lists[j], p);
      if j == i {
        DescendsWith(cs, lists[i], k, p, c);
      } else {
        DescendsKept(cs, cs', t[j]);
      }
    }
  }

  lemma {:induction false} SameListedContents(cs: Chunks, cs': Chunks, lists: seq<seq<nat>>, m: seq<nat>)
    requires Contents(cs, lists, m) && lists != [] && lists[0] == [] && SameListed(cs, cs') && SmallFast(cs')
    ensures Contents(cs', lists, m)
  {
    hide ListOf;
    SameListedKeeps(cs, cs', lists);
    forall j | 2 <= j < NBINS
      ensures Descends(cs', lists[j])
    {
      assert Descends(cs, lists[j]);
      forall n | 0 <= n < |lists[j]| && lists[j][n] in cs
        ensures lists[j][n] in cs' && cs'[lists[j][n]] == cs[lists[j][n]]
      {
        assert MemberAt(cs, lists, j, n);
      }
      DescendsKept(cs, cs', lists[j]);
    }
  }

  ghost function FastLists(lists: seq<seq<nat>>): seq<seq<nat>> {
    if |lists| == NLISTS then lists[NBINS..] else []
  }

  class MallocState {
    var fastbins: seq<Node>
    /** The chunk at the end of the arena; 0 stands for the initial, unusable top. */
    var top: nat
    var lastRemainder: nat
    var binmap: seq<nat>
    /** The two flag bits kept in `max_fast`. */
    var anyChunks: bool
    var fastChunks: bool
    /** Memory: the size and prev_size words at chunk addresses, and the link words. */
    var head: map<nat, nat>
    var foot: map<nat, nat>
    var fd: Links
    var bk: Links
    /** The chunks, the lists, and the arena's bounds. */
    ghost var cs: Chunks
    ghost var lists: seq<seq<nat>>
    ghost var base: nat
    ghost var end: nat

    /** `malloc_init_state`: circular links for every bin, no top chunk yet. */
    constructor ()
      ensures Valid() && top == 0 && cs == map[] && !anyChunks && !fastChunks
    {
      var f: Links, b: Links := map[], map[];
      for i := 1 to NBINS
        invariant forall j {:trigger Hdr(j)} :: 1 <= j < i ==>
          Hdr(j) in f && f[Hdr(j)] == Hdr(j) && Hdr(j) in b && b[Hdr(j)] == Hdr(j)
      {
        f := f[Hdr(i) := Hdr(i)];
        b := b[Hdr(i) := Hdr(i)];
      }
      fd, bk := f, b;
      fastbins := NoFast();
      top, lastRemainder, binmap := 0, 0, [0, 0, 0, 0];
      anyChunks, fastChunks := false, false;
      head, foot := map[], map[];
      cs, lists, base, end := map[], NoLists(), 0, 0;
      EmptyThreaded(f, b);
      assert Contents(map[], NoLists(), [0, 0, 0, 0]);
    }

    static function NoFast(): (r: seq<Node>)
      ensures |r| == FASTBINS_USED && forall f :: 0 <= f < FASTBINS_USED ==> r[f] == NIL
    {
      seq(FASTBINS_USED, _ => NIL)
    }

    static ghost function NoLists(): (r: seq<seq<nat>>)
      ensures |r| == NLISTS && forall i {:trigger r[i]} :: 0 <= i < NLISTS ==> r[i] == []
    {
      seq(NLISTS, _ => [])
    }

    static lemma {:induction false} EmptyThreaded(f: Links, b: Links)
      requires forall j {:trigger Hdr(j)} :: 1 <= j < NBINS ==>
        Hdr(j) in f && f[Hdr(j)] == Hdr(j) && Hdr(j) in b && b[Hdr(j)] == Hdr(j)
      ensures Threaded(f, b, NoFast(), NoLists()) && OnceEach(NoLists())
    {
      forall j | 1 <= j < NBINS
        ensures Ring(f, b, j, NoLists()[j])
      {
        assert f[Hdr(j)] == Hdr(j);
        assert LinkedAt(f, b, j, [], 0);
      }
    }

    ghost predicate LinksOk()
      reads this`fd, this`bk, this`fastbins, this`lists
    {
      Threaded(fd, bk, fastbins, lists) && OnceEach(lists)
    }

    ghost predicate FlagsOk()
      reads this`lists, this`anyChunks, this`fastChunks
    {
      (!anyChunks ==> EmptyFrom(lists, 1)) && (!fastChunks ==> EmptyFrom(lists, NBINS)) && (fastChunks ==> anyChunks)
    }

    ghost predicate ListsOk()
      reads this`fd, this`bk, this`fastbins, this`lists, this`anyChunks, this`fastChunks, this`cs, this`binmap
    {
      LinksOk() && Contents(cs, lists, binmap) && FlagsOk()
    }

    // ---------- Links ----------

    /** `unlink`. */
    method Unlink(p: nat, ghost i: nat, ghost k: nat)
      requires ListsOk() && 1 <= i < NBINS && k < |lists[i]| && lists[i][k] == p
      modifies this`fd, this`bk, this`lists, this`cs
      ensures ListsOk() && lists == old(lists)[i := Without(old(lists)[i], k)]
      ensures p in old(cs) && ListOf(old(cs)[p]) == i && cs == old(cs)[p := Chunk(old(cs)[p].size, InUse)]
      ensures FastLists(lists) == FastLists(old(lists))
    {
      hide ListOf, Contents;
      UnlinkKeeps(fd, bk, fastbins, lists, i, k);
      UnlistContents(cs, lists, binmap, i, k);
      assert Ring(fd, bk, i, lists[i]);
      assert LinkedAt(fd, bk, i, lists[i], k) && LinkedAt(fd, bk, i, lists[i], k + 1);
      var f, b := fd[At(p)], bk[At(p)];
      bk := bk[f := b];
      fd := fd[b := f];
      cs := cs[p := Chunk(cs[p].size, InUse)];
      lists := lists[i := Without(lists[i], k)];
    }

    /** `bck = victim->bk; bin->bk = bck; bck->fd = bin` for the last chunk of bin i. */
    method UnlinkLast(i: nat) returns (victim: nat)
      requires ListsOk() && 1 <= i < NBINS && lists[i] != []
      modifies this`fd, this`bk, this`lists, this`cs
      ensures victim == old(lists)[i][|old(lists)[i]| - 1]
      ensures ListsOk() && lists == old(lists)[i := Without(old(lists)[i], |old(lists)[i]| - 1)]
      ensures victim in old(cs) && ListOf(old(cs)[victim]) == i && cs == old(cs)[victim := Chunk(old(cs)[victim].size, InUse)]
    {
      hide ListOf, Contents;
      ghost var k := |lists[i]| - 1;
      UnlinkKeeps(fd, bk, fastbins, lists, i, k);
      UnlistContents(cs, lists, binmap, i, k);
      assert Ring(fd, bk, i, lists[i]);
      assert LinkedAt(fd, bk, i, lists[i], k) && LinkedAt(fd, bk, i, lists[i], k + 1);
      victim := bk[Hdr(i)].addr;
      var b := bk[At(victim)];
      bk := bk[Hdr(i) := b];
      fd := fd[b := Hdr(i)];
      cs := cs[victim := Chunk(cs[victim].size, InUse)];
      lists := lists[i := Without(lists[i], k)];
    }

    /** `last(bin) == bin`. */
    method IsEmpty(i: nat) returns (e: bool)
      requires LinksOk() && 1 <= i < NBINS
      ensures e <==> lists[i] == []
    {
      assert Ring(fd, bk, i, lists[i]) && LinkedAt(fd, bk, i, lists[i], |lists[i]|);
      e := bk[Hdr(i)] == Hdr(i);
    }

    /** Enter p at the front of the unsorted list. */
    method LinkUnsorted(p: nat)
      requires ListsOk() && anyChunks && p in cs && cs[p].use.InUse?
      modifies this`fd, this`bk, this`lists, this`cs
      ensures ListsOk() && lists == old(lists)[1 := [p] + old(lists)[1]] && FastLists(lists) == FastLists(old(lists))
      ensures cs == old(cs)[p := Chunk(old(cs)[p].size, Unsorted)]
    {
      hide Listed, BinsSorted, SmallFast;
      ghost var c := Chunk(cs[p].size, Unsorted);
      OnNoList(p);
      InsertKeeps(fd, bk, fastbins, lists, 1, 0, p);
      RelistContents(cs, lists, binmap, binmap, 0, p, c);
      assert Ring(fd, bk, 1, lists[1]) && LinkedAt(fd, bk, 1, lists[1], 0);
      assert With(lists[1], 0, p) == [p] + lists[1];
      var f := fd[Hdr(1)];
      bk := bk[At(p) := Hdr(1)];
      fd := fd[At(p) := f];
      fd := fd[Hdr(1) := At(p)];
      bk := bk[f := At(p)];
      cs := cs[p := c];
      lists := lists[1 := [p] + lists[1]];
    }

    lemma OnNoList(p: nat)
      requires LinksOk() && Contents(cs, lists, binmap) && (p in cs ==> ListOf(cs[p]) == 0)
      ensures OnNone(lists, p)
    {
      NotListed(cs, lists, p);
    }

    /** The unsorted list becomes the single chunk r. */
    method LinkSole(r: nat)
      requires ListsOk() && anyChunks && r in cs && cs[r].use.InUse? && lists[1] == []
      modifies this`fd, this`bk, this`lists, this`cs
      ensures ListsOk() && lists == old(lists)[1 := [r]] && cs == old(cs)[r := Chunk(old(cs)[r].size, Unsorted)]
      ensures FastLists(lists) == FastLists(old(lists))
    {
      hide Listed, BinsSorted, SmallFast;
      ghost var c := Chunk(cs[r].size, Unsorted);
      OnNoList(r);
      assert lists[1 := []] == lists;
      SoleKeeps(fd, bk, fastbins, lists, r);
      RelistContents(cs, lists, binmap, binmap, 0, r, c);
      assert With(lists[1], 0, r) == [r];
      bk := bk[Hdr(1) := At(r)];
      fd := fd[Hdr(1) := At(r)];
      bk := bk[At(r) := Hdr(1)];
      fd := fd[At(r) := Hdr(1)];
      cs := cs[r := c];
      lists := lists[1 := [r]];
    }

    /** Change chunks that are on no list. */
    ghost method Reshape(cs': Chunks)
      requires ListsOk() && SameListed(cs, cs') && SmallFast(cs')
      modifies this`cs
      ensures ListsOk() && cs == cs'
    {
      hide Contents, SameListed;
      SameListedContents(cs, cs', lists, binmap);
      cs := cs';
    }

    // ---------- Fastbins ----------

    /** The chunk that a request for nb bytes gets from its fastbin, 0 for none. */
    ghost function FastHead(nb: nat): nat
      reads this`fastbins
    {
      var f := nb / 8 - 2;
      if 32 <= nb <= MAX_FAST && f < |fastbins| && fastbins[f].At? then fastbins[f].addr else 0
    }

    /** A small request is split off the last remainder: no binned chunk has just the size, and the remainder serves. */
    ghost predicate Remaindered(nb: nat)
      reads this`cs, this`lists, this`lastRemainder
    {
      nb / 8 < |lists| && 1 < |lists| && lists[nb / 8] == [] && RemainderServes(cs, lists[1], lastRemainder, nb)
    }

    /** That chunk stands behind free memory: its size word has a clear bit. */
    ghost predicate Recycled(nb: nat)
      reads this`fastbins, this`head
    {
      FastHead(nb) != 0 && !FollowsUse(FastHead(nb))
    }

    /** Push p onto its fastbin. */
    method PushFast(p: nat, f: nat)
      requires ListsOk() && anyChunks && fastChunks && p in cs && cs[p].use.InUse? && 32 <= cs[p].size <= MAX_FAST
      requires f == FastIndex(cs[p].size)
      modifies this`fd, this`fastbins, this`lists, this`cs
      ensures ListsOk() && cs == old(cs)[p := Chunk(old(cs)[p].size, Fast)]
      ensures lists == old(lists)[NBINS + f := [p] + old(lists)[NBINS + f]] && |old(fastbins)| == FASTBINS_USED
      ensures fastbins == old(fastbins)[f := At(p)]
    {
      hide Listed, BinsSorted, SmallFast;
      ghost var c := Chunk(cs[p].size, Fast);
      OnNoList(p);
      PushKeeps(fd, bk, fastbins, lists, f, p);
      RelistContents(cs, lists, binmap, binmap, 0, p, c);
      assert With(lists[NBINS + f], 0, p) == [p] + lists[NBINS + f];
      fd := fd[At(p) := fastbins[f]];
      fastbins := fastbins[f := At(p)];
      cs := cs[p := c];
      lists := lists[NBINS + f := [p] + lists[NBINS + f]];
    }

    /** Take the first chunk off fastbin f. */
    method PopFast(f: nat) returns (victim: nat)
      requires ListsOk() && f < FASTBINS_USED && fastbins[f] != NIL
      modifies this`fastbins, this`lists, this`cs
      ensures ListsOk() && old(lists)[NBINS + f] != [] && victim == old(lists)[NBINS + f][0] && old(fastbins[f]) == At(victim)
      ensures lists == old(lists)[NBINS + f := old(lists)[NBINS + f][1..]]
      ensures victim in old(cs) && ListOf(old(cs)[victim]) == NBINS + f
      ensures cs == old(cs)[victim := Chunk(old(cs)[victim].size, InUse)]
    {
      hide Contents, ListOf;
      assert Chain(fd, fastbins[f], lists[NBINS + f]);
      PopKeeps(fd, bk, fastbins, lists, f);
      UnlistContents(cs, lists, binmap, NBINS + f, 0);
      assert Without(lists[NBINS + f], 0) == lists[NBINS + f][1..];
      victim := fastbins[f].addr;
      fastbins := fastbins[f := fd[At(victim)]];
      cs := cs[victim := Chunk(cs[victim].size, InUse)];
      lists := lists[NBINS + f := lists[NBINS + f][1..]];
    }

    // ---------- Tags ----------

    /** The arena as the chunk map c describes it. */
    ghost predicate ArenaOn(c: Chunks)
      reads this`head, this`foot, this`top, this`base, this`end
    {
      Arena(c, head, foot, top, base, end)
    }

    ghost predicate Valid()
      reads this
    {
      ArenaOn(cs) && ListsOk()
    }

    /** What a chunk's own words say: its size, and that a free chunk follows memory in use. */
    lemma {:induction false} ReadTags(c: Chunks, p: nat)
      requires ArenaOn(c) && p in c
      ensures p in head && SizeBits(head[p]) == c[p].size && 32 <= c[p].size < TWO32 && c[p].size % 16 == 0 && p % 16 == 0
      ensures (PrevInUse(head[p]) <==> head[p] == c[p].size + 1) && (!PrevInUse(head[p]) <==> head[p] == c[p].size)
      ensures top != 0 && top in c && 0 < base <= p && p + c[p].size <= end && (c[p].use.Top? <==> p == top) && (p == top <==> p + c[p].size == end)
      ensures !c[p].use.Top? ==>
        (var n := p + c[p].size; n in c && n in head && head[n] == c[n].size + UseBit(c[p].use))
      ensures Free(c[p].use) || c[p].use.Top? ==> PrevInUse(head[p])
    {
      assert ChunkOk(c, base, end, p) && TagAt(c, base, head, foot, p);
      assert ChunkOk(c, base, end, top);
      assert p < top ==> Before(c, p, top);
      assert top < p ==> Before(c, top, p);
      WordParts(c[p].size, head[p] - c[p].size);
      if p != base {
        var q := Predecessor(c, base, end, p);
        assert TagAt(c, base, head, foot, q);
      }
    }

    /** The memory in front of p is in use: what holds of every chunk handed out, unless it comes from a
        fastbin. */
    ghost predicate FollowsUse(p: nat)
      reads this`head
    {
      p in head && PrevInUse(head[p])
    }

    static lemma MarkedWord(nb: nat)
      requires nb % 16 == 0
      ensures PrevInUse(nb + 1)
    {
      WordParts(nb, 1);
    }

    /** `set_inuse_bit_at_offset`: the free chunk p, off its list already, is handed out whole. */
    method TakeWhole(p: nat, size: nat, ghost was: Chunks)
      requires ArenaOn(was) && ListsOk() && p in was && Free(was[p].use) && size == was[p].size
      requires cs == was[p := Chunk(size, InUse)]
      modifies this`head
      ensures Valid() && FollowsUse(p)
    {
      ReadTags(was, p);
      ReadTags(was, p + size);
      hide Tiled, Tagged, ListsOk;
      FuseKeeps(was, top, base, end, head, foot, p, p + size, InUse, head[p + size := WithBit(head[p + size])], foot);
      FuseSelf(was, base, end, p, InUse);
      head := head[p + size := WithBit(head[p + size])];
    }

    /** Fusing a run of chunks, with the right words written, keeps the arena in order. */
    static lemma {:induction false} FuseKeeps(was: Chunks, top: nat, base: nat, end: nat, head: map<nat, nat>, foot: map<nat, nat>,
                                              a: nat, e: nat, u: Use, head': map<nat, nat>, foot': map<nat, nat>)
      requires Arena(was, head, foot, top, base, end) && top != 0 && Fusable(was, end, a, e, u)
      requires SameWords(was, head, foot, head', foot', a, e) && EndsAt(was, head', foot', e, e - a, u)
      requires a in head' && a in head && head'[a] == e - a + (head[a] - was[a].size)
      requires Free(u) || u.Top? ==> head[a] == was[a].size + 1
      ensures Arena(Fuse(was, a, e, u), head', foot', if e == end then a else top, base, end)
    {
      FuseTiled(was, base, end, a, e, u);
      assert TagAt(was, base, head, foot, a);
      FuseTagged(was, base, end, head, foot, a, e, u, head', foot');
      assert ChunkOk(was, base, end, top) && ChunkOk(was, base, end, a);
      assert e in was ==> ChunkOk(was, base, end, e);
      assert e in was && top < e ==> Before(was, top, e);
    }

    /** So does cutting a chunk. */
    static lemma {:induction false} CutKeeps(was: Chunks, top: nat, base: nat, end: nat, head: map<nat, nat>, foot: map<nat, nat>,
                                             a: nat, n: nat, u: Use, v: Use, head': map<nat, nat>, foot': map<nat, nat>)
      requires Arena(was, head, foot, top, base, end) && top != 0 && Cuttable(was, a, n, u, v) && !Free(u)
      requires var e := a + was[a].size;
        SameWords(was, head, foot, head', foot', a, e) && EndsAt(was, head', foot', e, was[a].size - n, v)
      requires a in head' && a in head && head'[a] == n + (head[a] - was[a].size)
      requires a + n in head' && head'[a + n] == was[a].size - n + 1
      ensures Arena(Cut(was, a, n, u, v), head', foot', if a == top then a + n else top, base, end) && a + n !in was
    {
      CutTiled(was, base, end, a, n, u, v);
      assert TagAt(was, base, head, foot, a);
      CutTagged(was, base, end, head, foot, a, n, u, v, head', foot');
      assert ChunkOk(was, base, end, a);
    }

    lemma {:induction false} CutFreeKeeps(was: Chunks, p: nat, nb: nat)
      requires ArenaOn(was) && p in was && Free(was[p].use) && ChunkSize(nb) && nb + 32 <= was[p].size
      ensures p + nb !in was
      ensures var rest := was[p].size - nb;
        Arena(Cut(was, p, nb, InUse, Unsorted), head[p := nb + 1][p + nb := rest + 1], foot[p + was[p].size := rest], top, base, end)
    {
      ReadTags(was, p);
      ReadTags(was, p + was[p].size);
      assert TagAt(was, base, head, foot, p);
      var rest := was[p].size - nb;
      CutTiled(was, base, end, p, nb, InUse, Unsorted);
      hide Tiled, Tagged;
      CutKeeps(was, top, base, end, head, foot, p, nb, InUse, Unsorted, head[p := nb + 1][p + nb := rest + 1], foot[p + was[p].size := rest]);
    }

    /** Hand out the first nb bytes of the free chunk p, off its list already; the rest becomes the one
        unsorted chunk. */
    method SplitOff(p: nat, nb: nat, size: nat, ghost was: Chunks) returns (r: nat)
      requires ArenaOn(was) && ListsOk() && p in was && Free(was[p].use) && size == was[p].size
      requires cs == was[p := Chunk(size, InUse)] && lists[1] == [] && anyChunks
      requires ChunkSize(nb) && nb + MINSIZE <= size
      modifies this`head, this`foot, this`fd, this`bk, this`lists, this`cs
      ensures Valid() && cs == Cut(was, p, nb, InUse, Unsorted) && r == p + nb && lists == old(lists)[1 := [r]]
      ensures FollowsUse(p)
    {
      hide Arena, Contents, LinksOk, FlagsOk, Cut;
      r := p + nb;
      var rest := size - nb;
      CutFreeKeeps(was, p, nb);
      CutReshapes(was, p, nb);
      Reshape(Cut(was, p, nb, InUse, InUse));
      CutUse(was, p, nb);
      LinkSole(r);
      head := head[p := nb + 1];
      head := head[r := rest + 1];
      foot := foot[r + rest := rest];
      MarkedWord(nb);
    }

    lemma CutUse(was: Chunks, p: nat, nb: nat)
      requires p in was && nb <= was[p].size
      ensures var c := Cut(was, p, nb, InUse, InUse);
        p + nb in c && c[p + nb].use.InUse? && c[p + nb := Chunk(c[p + nb].size, Unsorted)] == Cut(was, p, nb, InUse, Unsorted)
    {
    }

    lemma CutReshapes(was: Chunks, p: nat, nb: nat)
      requires p in was && p + nb !in was && nb <= was[p].size
      requires Contents(was[p := Chunk(was[p].size, InUse)], lists, binmap)
      ensures SameListed(was[p := Chunk(was[p].size, InUse)], Cut(was, p, nb, InUse, InUse))
      ensures SmallFast(Cut(was, p, nb, InUse, InUse))
    {
    }

    // ---------- Consolidation ----------

    /** "Consolidate backward": a free chunk in front of the run [p, p + size) joins it. */
    method JoinPrev(p: nat, size: nat, ghost was: Chunks) returns (p': nat, size': nat)
      requires ArenaOn(was) && ListsOk() && Held(was, cs, end, p, p + size) && cs == was
      modifies this`fd, this`bk, this`lists, this`cs
      ensures ListsOk() && p' + size' == p + size && Held(was, cs, end, p', p' + size')
      ensures p' == p || (p' in was && Free(was[p'].use) && p' + was[p'].size == p)
      ensures p' in head && PrevInUse(head[p'])
      ensures FastLists(lists) == FastLists(old(lists))
    {
      hide Contents, LinksOk, FlagsOk, Tiled, Tagged, ListOf;
      ReadTags(was, p);
      p', size' := p, size;
      if !PrevInUse(head[p]) {
        ghost var b := FreeBefore(was, p);
        var prevsize := foot[p];
        size' := size + prevsize;
        p' := p - prevsize;
        ghost var k := FindFree(was, p');
        HoldPrev(was, cs, base, end, p, p + size, b);
        ReadTags(was, p');
        Unlink(p', ListOf(cs[p']), k);
      }
    }

    /** A clear bit means that the free chunk in front ends with its size in the footer. */
    lemma {:induction false} FreeBefore(c: Chunks, p: nat) returns (b: nat)
      requires ArenaOn(c) && p in c && p in head && !PrevInUse(head[p])
      ensures b in c && b + c[b].size == p && Free(c[b].use) && p in foot && foot[p] == c[b].size
    {
      ReadTags(c, p);
      assert TagAt(c, base, head, foot, p);
      b := Predecessor(c, base, end, p);
      ReadTags(c, b);
      assert TagAt(c, base, head, foot, b);
    }

    /** A free chunk is on the list of a bin. */
    lemma {:induction false} FindFree(c: Chunks, p: nat) returns (k: nat)
      requires ArenaOn(c) && p in c && Free(c[p].use) && p in cs && cs[p] == c[p] && ListsOk()
      ensures 1 <= ListOf(cs[p]) < NBINS && k < |lists[ListOf(cs[p])]| && lists[ListOf(cs[p])][k] == p
    {
      ReadTags(c, p);
      BinIndexInRange(c[p].size);
      k := PlaceOf(cs, lists, p);
    }

    /** "Consolidate forward": clear the bit behind the run [p, p + size); a free chunk there joins it. */
    method JoinNext(p: nat, size: nat, ghost was: Chunks) returns (size': nat)
      requires ArenaOn(was) && ListsOk() && Held(was, cs, end, p, p + size) && p + size != end && p + size != top
      modifies this`head, this`fd, this`bk, this`lists, this`cs
      ensures ListsOk() && size' >= size && Held(was, cs, end, p, p + size') && p + size' != end && p + size' != top
      ensures p + size' in was && !Free(was[p + size'].use)
      ensures size' > size ==> p + size in was && Free(was[p + size].use) && p + size' == p + size + was[p + size].size
      ensures FastLists(lists) == FastLists(old(lists))
      ensures head == old(head)[p + size := was[p + size].size] && p + size' in head && head[p + size'] == was[p + size'].size
    {
      hide Contents, LinksOk, FlagsOk, Tiled, Tagged, ListOf;
      var next := p + size;
      ReadTags(was, next);
      var nextsize := SizeBits(head[next]);
      ReadTags(was, next + nextsize);
      var nextinuse := PrevInUse(head[next + nextsize]);
      FollowedByUse(was, next);
      size' := size;
      if !nextinuse {
        ghost var k := FindFree(was, next);
        HoldNext(was, cs, base, end, p, next);
        Unlink(next, ListOf(cs[next]), k);
        size' := size + nextsize;
      }
      head := head[next := nextsize];
    }

    /** No free chunk, nor the top, stands behind a free chunk. */
    lemma {:induction false} FollowedByUse(c: Chunks, p: nat)
      requires ArenaOn(c) && p in c
      ensures Free(c[p].use) ==> p + c[p].size in c && !Free(c[p + c[p].size].use) && p + c[p].size != top && p + c[p].size != end
    {
      assert TagAt(c, base, head, foot, p);
      ReadTags(c, p);
      if p + c[p].size in c {
        ReadTags(c, p + c[p].size);
      }
    }

    /** The run [p, p + size) becomes one unsorted chunk; `next` is the old chunk behind the freed one. */
    method Finish(p: nat, size: nat, ghost was: Chunks, ghost head0: map<nat, nat>, ghost next: nat)
      requires Finishable(was, head0, p, size, next) && ListsOk() && anyChunks && Held(was, cs, end, p, p + size)
      modifies this`head, this`foot, this`fd, this`bk, this`lists, this`cs
      ensures Valid() && cs == Fuse(was, p, p + size, Unsorted) && FastLists(lists) == FastLists(old(lists))
    {
      hide Contents, LinksOk, FlagsOk, ListOf, Held, Fuse, Arena;
      FinishArena(was, head0, p, size, next);
      HeldReshapes(was, p + size, p);
      HeldFuse(was, cs, end, p, p + size, Unsorted);
      Reshape(Fuse(cs, p, p + size, InUse));
      LinkUnsorted(p);
      head := head[p := size + 1];
      foot := foot[p + size := size];
    }

    /** The words are those of a valid arena but for the bit behind the freed chunk, which is clear. */
    ghost predicate Finishable(was: Chunks, head0: map<nat, nat>, p: nat, size: nat, next: nat)
      reads this`head, this`foot, this`top, this`base, this`end
    {
      && Arena(was, head0, foot, top, base, end) && top != 0 && p in was
      && p + size in was && !Free(was[p + size].use) && p + size != top && p + size < end
      && p < next <= p + size && next in was && head == head0[next := was[next].size]
      && p in head0 && head0[p] == was[p].size + 1 && p + size in head && head[p + size] == was[p + size].size
    }

    lemma {:induction false} FinishArena(was: Chunks, head0: map<nat, nat>, p: nat, size: nat, next: nat)
      requires Finishable(was, head0, p, size, next)
      ensures Arena(Fuse(was, p, p + size, Unsorted), head[p := size + 1], foot[p + size := size], top, base, end)
    {
      OnlyOneTop(was, head0, p + size);
      FuseKeeps(was, top, base, end, head0, foot, p, p + size, Unsorted, head[p := size + 1], foot[p + size := size]);
    }

    lemma OnlyOneTop(c: Chunks, head0: map<nat, nat>, p: nat)
      requires Arena(c, head0, foot, top, base, end) && p in c && p != top
      ensures !c[p].use.Top? && p != end
    {
      assert ChunkOk(c, base, end, p) && ChunkOk(c, base, end, top);
      assert p < top ==> Before(c, p, top);
      assert top < p ==> Before(c, top, p);
    }

    /** A held run can be fused without touching the lists. */
    lemma HeldReshapes(was: Chunks, e: nat, p: nat)
      requires Held(was, cs, end, p, e) && Contents(cs, lists, binmap)
      ensures SameListed(cs, Fuse(cs, p, e, InUse)) && SmallFast(Fuse(cs, p, e, InUse))
      ensures p in Fuse(cs, p, e, InUse) && Fuse(cs, p, e, InUse)[p] == Chunk(e - p, InUse)
    {
    }

    /** The run [p, end) becomes the top chunk. */
    method FinishTop(p: nat, size: nat, ghost was: Chunks)
      requires ArenaOn(was) && top != 0 && ListsOk() && p in was
      requires size > 0 && Held(was, cs, end, p, p + size) && p + size == end && p in head && head[p] == was[p].size + 1
      modifies this`head, this`top, this`cs
      ensures Valid() && top == p && cs == Fuse(was, p, end, Top)
    {
      hide Contents, LinksOk, FlagsOk, ListOf, Held, Fuse, Arena;
      FinishTopArena(was, p);
      HeldFuse(was, cs, end, p, end, Top);
      TopReshapes(was, p);
      Reshape(Fuse(cs, p, end, Top));
      head := head[p := size + 1];
      top := p;
    }

    lemma {:induction false} FinishTopArena(was: Chunks, p: nat)
      requires ArenaOn(was) && top != 0 && p in was && p < end && p in head && head[p] == was[p].size + 1
      ensures Arena(Fuse(was, p, end, Top), head[p := end - p + 1], foot, p, base, end)
    {
      assert end in was ==> ChunkOk(was, base, end, end);
      FuseKeeps(was, top, base, end, head, foot, p, end, Top, head[p := end - p + 1], foot);
    }

    lemma TopOnNoList()
      requires Contents(cs, lists, binmap) && top in cs && cs[top].use.Top?
      ensures SameListed(cs, cs[top := Chunk(cs[top].size, InUse)]) && SmallFast(cs[top := Chunk(cs[top].size, InUse)])
    {
    }

    lemma TopReshapes(was: Chunks, p: nat)
      requires Held(was, cs, end, p, end) && Contents(cs, lists, binmap)
      ensures SameListed(cs, Fuse(cs, p, end, Top)) && SmallFast(Fuse(cs, p, end, Top))
    {
    }

    /** The chunks of [a, e) are p, a free one in front, and a free one or the top behind. */
    lemma {:induction false} RunMembers(c: Chunks, head0: map<nat, nat>, p: nat, a: nat, e: nat)
      requires Arena(c, head0, foot, top, base, end) && top != 0 && p in c && a in c
      requires a == p || (Free(c[a].use) && a + c[a].size == p)
      requires var n := p + c[p].size; e == n || (n in c && (Free(c[n].use) || c[n].use.Top?) && e == n + c[n].size)
      ensures forall q {:trigger c[q]} :: q in c && a <= q < e ==> q == p || Free(c[q].use) || c[q].use.Top?
    {
      var n := p + c[p].size;
      forall q | q in c && a <= q < e
        ensures q == p || Free(c[q].use) || c[q].use.Top?
      {
        assert a < q ==> Before(c, a, q);
        assert p < q ==> Before(c, p, q);
        assert n in c && n < q ==> Before(c, n, q);
      }
    }

    /** The run [a, a + size) that ends with p: what stands around it. */
    ghost predicate RunEndsWith(was: Chunks, p: nat, a: nat, size: nat)
      reads this`head
    {
      && p in was && a in was && was[p].use.InUse? && a + size == p + was[p].size
      && (a == p || (Free(was[a].use) && a + was[a].size == p)) && a in head && PrevInUse(head[a])
    }

    method ToUnsorted(p: nat, a: nat, size: nat, ghost was: Chunks) returns (size': nat)
      requires ArenaOn(was) && ListsOk() && anyChunks && RunEndsWith(was, p, a, size) && Held(was, cs, end, a, a + size)
      requires a + size != top
      modifies this`head, this`foot, this`fd, this`bk, this`lists, this`cs
      ensures Valid() && FastLists(lists) == FastLists(old(lists))
      ensures Merged(was, cs, end, p, a, size') && a + size' < end
    {
      hide Contents, LinksOk, FlagsOk, Tiled, Tagged, ListOf, SmallFast, Fuse, Held;
      ReadTags(was, p);
      ReadTags(was, a + size);
      ReadTags(was, a);
      ghost var head0 := head;
      size' := JoinNext(a, size, was);
      if a + size' in was {
        ReadTags2(was, a + size', head0);
      }
      RunMembers(was, head0, p, a, a + size');
      Finish(a, size', was, head0, a + size);
    }

    lemma ReadTags2(c: Chunks, p: nat, head0: map<nat, nat>)
      requires Arena(c, head0, foot, top, base, end) && p in c
      ensures p < end && base <= p
    {
      assert ChunkOk(c, base, end, p);
    }

    method ToTop(p: nat, a: nat, size: nat, ghost was: Chunks) returns (size': nat)
      requires ArenaOn(was) && ListsOk() && RunEndsWith(was, p, a, size) && Held(was, cs, end, a, a + size)
      requires a + size == top
      modifies this`head, this`top, this`cs
      ensures Valid() && top == a && a > 0 && a + size' == end && Merged(was, cs, end, p, a, size')
    {
      hide Contents, LinksOk, FlagsOk, ListOf, SmallFast, Fuse;
      ReadTags(was, top);
      ReadTags(was, a);
      ReadTags(was, p);
      RunMembers(was, head, p, a, end);
      HoldNext(was, cs, base, end, a, top);
      TopOnNoList();
      hide Arena, Held;
      Reshape(cs[top := Chunk(was[top].size, InUse)]);
      size' := size + SizeBits(head[top]);
      FinishTop(a, size', was);
    }

    /** The consolidating part of `free`, also one turn of `malloc_consolidate`: p, in nobody's hands any
        more, absorbs its free neighbours and goes to the unsorted list, or into the top chunk. */
    method Coalesce(p: nat) returns (size: nat, a: nat)
      requires Valid() && p in cs && cs[p].use.InUse? && anyChunks
      modifies this`head, this`foot, this`fd, this`bk, this`lists, this`cs, this`top
      ensures Valid() && FastLists(lists) == FastLists(old(lists)) && Merged(old(cs), cs, end, p, a, size)
      ensures a in old(cs) && top != 0 && top == if a + size == end then a else old(top)
    {
      hide Contents, LinksOk, FlagsOk, Tiled, Tagged, ListOf, SmallFast, Fuse, Held, Merged, FastLists;
      ghost var was := cs;
      ReadTags(cs, p);
      HoldOne(cs, base, end, p);
      var size0 := SizeBits(head[p]);
      a, size := JoinPrev(p, size0, was);
      if p + size0 != top {
        size := ToUnsorted(p, a, size, was);
      } else {
        size := ToTop(p, a, size, was);
      }
    }

    // ---------- The top chunk ----------

    /** Hand out the first nb bytes of the top chunk. */
    method SplitTop(nb: nat) returns (p: nat)
      requires Valid() && top != 0 && top in cs && ChunkSize(nb) && nb + MINSIZE <= cs[top].size
      modifies this`head, this`top, this`cs
      ensures Valid() && p == old(top) && top == p + nb && cs == Cut(old(cs), p, nb, InUse, Top) && top !in old(cs)
      ensures FollowsUse(p)
    {
      hide Contents, LinksOk, FlagsOk, Cut, ListOf;
      ReadTags(cs, top);
      p := top;
      var rest := SizeBits(head[p]) - nb;
      CutTopKeeps(p, nb);
      TopCutReshapes(nb);
      hide Arena;
      head := head[p := nb + 1];
      head := head[p + nb := rest + 1];
      Reshape(Cut(cs, p, nb, InUse, Top));
      top := p + nb;
      MarkedWord(nb);
    }

    lemma {:induction false} CutTopKeeps(p: nat, nb: nat)
      requires ArenaOn(cs) && top != 0 && p == top && ChunkSize(nb) && top in cs && nb + 32 <= cs[top].size
      ensures Arena(Cut(cs, p, nb, InUse, Top), head[p := nb + 1][p + nb := cs[p].size - nb + 1], foot, p + nb, base, end)
      ensures p + nb !in cs
    {
      ReadTags(cs, p);
      assert end in cs ==> ChunkOk(cs, base, end, end);
      CutTiled(cs, base, end, p, nb, InUse, Top);
      CutKeeps(cs, top, base, end, head, foot, p, nb, InUse, Top, head[p := nb + 1][p + nb := cs[p].size - nb + 1], foot);
    }

    lemma TopCutReshapes(nb: nat)
      requires Contents(cs, lists, binmap) && top in cs && cs[top].use.Top? && nb <= cs[top].size && top + nb !in cs
      ensures SameListed(cs, Cut(cs, top, nb, InUse, Top)) && SmallFast(Cut(cs, top, nb, InUse, Top))
    {
    }

    lemma TopThere()
      requires ArenaOn(cs) && top != 0
      ensures top in cs && cs[top].use.Top? && top in head && SizeBits(head[top]) == cs[top].size && top + cs[top].size == end
      ensures 0 < base <= top < end < TWO64 && top % 16 == 0 && cs[top].size % 16 == 0 && 32 <= cs[top].size
    {
      ReadTags(cs, top);
    }

    /** Contiguous new memory extends the top chunk. */
    method GrowTop(k: nat)
      requires Valid() && top != 0 && Aligned(k) && end + k <= base + 0x200_0000 && end + k < TWO64
      modifies this`head, this`cs, this`end
      ensures Valid() && end == old(end) + k && top in old(cs) && cs == Extend(old(cs), top, k)
    {
      hide Contents, LinksOk, FlagsOk, Extend, ListOf;
      ReadTags(cs, top);
      GrowArena(k);
      GrowReshapes(k);
      hide Arena;
      head := head[top := k + SizeBits(head[top]) + 1];
      Reshape(Extend(cs, top, k));
      end := end + k;
    }

    lemma {:induction false} GrowArena(k: nat)
      requires ArenaOn(cs) && top != 0 && Aligned(k) && end + k <= base + 0x200_0000 && end + k < TWO64
      ensures top in cs && Arena(Extend(cs, top, k), head[top := cs[top].size + k + 1], foot, top, base, end + k)
    {
      ReadTags(cs, top);
      var t, head' := Extend(cs, top, k), head[top := cs[top].size + k + 1];
      ExtendTiled(cs, base, end, top, k);
      forall p | p in t
        ensures TagAt(t, base, head', foot, p)
      {
        assert TagAt(cs, base, head, foot, p) && ChunkOk(cs, base, end, p);
        assert end + k in cs ==> ChunkOk(cs, base, end, end + k);
      }
    }

    lemma GrowReshapes(k: nat)
      requires Contents(cs, lists, binmap) && top in cs && cs[top].use.Top?
      ensures SameListed(cs, Extend(cs, top, k)) && SmallFast(Extend(cs, top, k))
    {
    }

    /** The first memory: an arena that is all top chunk. */
    method FirstTop(b: nat, k: nat)
      requires Valid() && top == 0 && b > 0 && Aligned(b) && Aligned(k) && 32 <= k <= 0x200_0000 && b + k < TWO64
      modifies this`head, this`top, this`cs, this`base, this`end
      ensures Valid() && top == base == b && end == b + k && cs == map[b := Chunk(k, Top)]
    {
      hide Contents, LinksOk, FlagsOk, ListOf;
      FirstArena(b, k, head[b := k + 1], foot);
      FirstReshapes(b, k);
      Reshape(map[b := Chunk(k, Top)]);
      top := b;
      head := head[top := k + 1];
      base, end := b, b + k;
    }

    static lemma {:induction false} FirstArena(b: nat, k: nat, head: map<nat, nat>, foot: map<nat, nat>)
      requires b > 0 && Aligned(b) && Aligned(k) && 32 <= k <= 0x200_0000 && b + k < TWO64 && b in head && head[b] == k + 1
      ensures Arena(map[b := Chunk(k, Top)], head, foot, b, b, b + k)
    {
      WholeSixteens(b, k);
      var c: Chunks := map[b := Chunk(k, Top)];
      assert ChunkOk(c, b, b + k, b) && TagAt(c, b, head, foot, b);
    }

    lemma FirstReshapes(b: nat, k: nat)
      requires cs == map[]
      ensures SameListed(cs, map[b := Chunk(k, Top)]) && SmallFast(map[b := Chunk(k, Top)])
    {
    }

    // ---------- Binning ----------

    /** What the words say of a chunk on a bin's list, while chunk v may be held. */
    lemma {:induction false} ReadMember(c: Chunks, v: nat, i: nat, k: nat)
      requires ArenaOn(c) && ListsOk() && 1 <= i < NBINS && k < |lists[i]|
      requires cs == c || (v in c && cs == c[v := Chunk(c[v].size, InUse)])
      ensures var q := lists[i][k];
        && q in c && q in cs && c[q] == cs[q] && (cs == c || q != v) && ChunkSize(c[q].size) && c[q].size < TWO32
        && (if i == 1 then c[q].use.Unsorted? else c[q].use.Sorted? && BinIndex(c[q].size) == i)
        && q in head && head[q] == c[q].size + 1 && SizeBits(head[q]) == c[q].size
    {
      hide Contents, LinksOk, FlagsOk, Arena;
      var q := MemberOf(i, k);
      ReadTags(c, q);
      BinIndexInRange(c[q].size);
    }

    lemma MemberOf(i: nat, k: nat) returns (q: nat)
      requires ListsOk() && i < NLISTS && k < |lists[i]|
      ensures q == lists[i][k] && q in cs && ListOf(cs[q]) == i
    {
      q := lists[i][k];
      assert MemberAt(cs, lists, i, k);
    }

    /** `fd` and `bk` of the header: the first and the last chunk of bin i. */
    lemma RingEnds(i: nat)
      requires LinksOk() && 1 <= i < NBINS
      ensures Hdr(i) in fd && fd[Hdr(i)] == NodeAt(i, lists[i], 0)
      ensures Hdr(i) in bk && bk[Hdr(i)] == NodeAt(i, lists[i], |lists[i]| - 1)
    {
      assert Ring(fd, bk, i, lists[i]);
      assert LinkedAt(fd, bk, i, lists[i], 0) && LinkedAt(fd, bk, i, lists[i], |lists[i]|);
    }

    lemma RingAt(i: nat, k: nat)
      requires LinksOk() && 1 <= i < NBINS && k < |lists[i]|
      ensures At(lists[i][k]) in fd && fd[At(lists[i][k])] == NodeAt(i, lists[i], k + 1)
      ensures At(lists[i][k]) in bk && bk[At(lists[i][k])] == NodeAt(i, lists[i], k - 1)
    {
      assert Ring(fd, bk, i, lists[i]);
      assert LinkedAt(fd, bk, i, lists[i], k) && LinkedAt(fd, bk, i, lists[i], k + 1);
    }

    lemma SortedAt(i: nat, k: nat, m: nat)
      requires Contents(cs, lists, binmap) && 2 <= i < NBINS && k < m < |lists[i]|
      ensures lists[i][k] in cs && lists[i][m] in cs && cs[lists[i][k]].size >= cs[lists[i][m]].size
    {
      assert Descends(cs, lists[i]) && InOrder(cs, lists[i], k, m);
    }

    /** Where a chunk goes in its bin: at the front of a small bin, before the first chunk that is not
        larger in a sorted one.  The walk is over before it gets to the header, whose size word it would
        otherwise read. */
    method FindSpot(size: nat, i: nat, ghost c: Chunks, ghost v: nat) returns (bck: Node, fwd: Node, ghost k: nat)
      requires ArenaOn(c) && ListsOk() && ChunkSize(size) && size < TWO32 && i == BinIndex(size) && 2 <= i < NBINS
      requires v in c && cs == c[v := Chunk(c[v].size, InUse)]
      ensures k <= |lists[i]| && bck == NodeAt(i, lists[i], k - 1) && fwd == NodeAt(i, lists[i], k)
      ensures FitsAt(cs, lists[i], k, size) && EntersAt(cs, lists[i], k, size)
    {
      hide Arena, Ring, Chain, OnceEach, FlagsOk, ListOf, Contents, BinIndex;
      ghost var l := lists[i];
      forall m | 0 <= m < |l|
        ensures l[m] in cs && l[m] in head && head[l[m]] == cs[l[m]].size + 1
        ensures size < MIN_LARGE_SIZE ==> cs[l[m]].size == size
        ensures cs[l[m]].size % 16 == 0
      {
        ReadMember(c, v, i, m);
        BinIndexInRange(size);
        BinIndexInRange(c[l[m]].size);
        if size < MIN_LARGE_SIZE {
          SmallBinSize(c[l[m]].size, size);
        }
      }
      RingEnds(i);
      bck := Hdr(i);
      fwd := fd[bck];
      k := 0;
      if size >= MIN_LARGE_SIZE && fwd != bck {
        if size < head[bk[bck].addr] {
          fwd := bck;
          bck := bk[bck];
          k := |l|;
          forall m | 0 <= m < |l|
            ensures cs[l[m]].size >= size
          {
            if m < |l| - 1 {
              SortedAt(i, m, |l| - 1);
            }
          }
        } else {
          // Or with the bit to speed comparisons.
          var word := WithBit(size);
          WordParts(size, 0);
          while word < head[fwd.addr]
            invariant k < |l| && fwd == At(l[k])
            invariant forall m {:trigger l[m]} :: 0 <= m < k ==> cs[l[m]].size > size
            decreases |l| - k
          {
            RingAt(i, k);
            fwd := fd[fwd];
            k := k + 1;
          }
          RingAt(i, k);
          bck := bk[fwd];
          forall m | k <= m < |l|
            ensures size >= cs[l[m]].size
          {
            if k < m {
              SortedAt(i, k, m);
            }
          }
        }
      }
    }

    /** Mark bin i and link v in between bck and fwd. */
    method LinkSorted(v: nat, size: u64, i: nat, bck: Node, fwd: Node, ghost k: nat)
      requires ListsOk() && anyChunks && v in cs && cs[v] == Chunk(size, InUse) && ChunkSize(size) && size < TWO32
      requires i == BinIndex(size) && 2 <= i < NBINS && k <= |lists[i]| && FitsAt(cs, lists[i], k, size)
      requires bck == NodeAt(i, lists[i], k - 1) && fwd == NodeAt(i, lists[i], k)
      modifies this`fd, this`bk, this`lists, this`cs, this`binmap
      ensures ListsOk() && cs == old(cs)[v := Chunk(size, Sorted)] && lists == old(lists)[i := With(old(lists)[i], k, v)]
    {
      hide Contents, FitsAt, EmptyFrom, BinIndex;
      ContentsShape(cs, lists, binmap);
      OnNoList(v);
      InsertKeeps(fd, bk, fastbins, lists, i, k, v);
      MarkedContents(i, k, v, size);
      BinsOnly(lists, i, With(lists[i], k, v));
      binmap := MarkBin(binmap, i);
      bk := bk[At(v) := bck];
      fd := fd[At(v) := fwd];
      bk := bk[fwd := At(v)];
      fd := fd[bck := At(v)];
      cs := cs[v := Chunk(size, Sorted)];
      lists := lists[i := With(lists[i], k, v)];
    }

    /** "Place chunk in bin": the unsorted chunk v, off its list already. */
    method BinChunk(v: nat, size: u64, ghost was: Chunks)
      requires ArenaOn(was) && ListsOk() && anyChunks && v in was && was[v] == Chunk(size, Unsorted)
      requires cs == was[v := Chunk(size, InUse)]
      modifies this`fd, this`bk, this`lists, this`cs, this`binmap
      ensures Valid() && cs == was[v := Chunk(size, Sorted)] && |lists| == |old(lists)| == NLISTS
      ensures 2 <= BinIndex(size) < NBINS && Entered(old(cs), old(lists), lists, BinIndex(size), v, size)
    {
      hide Arena, Ring, Chain, OnceEach, FlagsOk, Contents, FitsAt, BinIndex, EntersAt;
      ReadTags(was, v);
      ContentsShape(cs, lists, binmap);
      BinIndexInRange(size);
      BinIndexIs(size);
      var i := if size < MIN_LARGE_SIZE then size / 8 else LargeBinIndex(size % TWO32);
      var bck, fwd;
      ghost var k;
      bck, fwd, k := FindSpot(size, i, was, v);
      StillSorted(was, v);
      LinkSorted(v, size, i, bck, fwd, k);
      assert cs == was[v := Chunk(size, Sorted)];
    }

    static lemma BinIndexIs(size: u64)
      ensures BinIndex(size) == if size < MIN_LARGE_SIZE then size / 8 else LargeBinIndex(size % TWO32)
    {
    }

    static lemma BinsOnly(ls: seq<seq<nat>>, i: nat, l: seq<nat>)
      requires |ls| == NLISTS && i < NBINS
      ensures EmptyFrom(ls, NBINS) ==> EmptyFrom(ls[i := l], NBINS)
      ensures forall j :: 0 <= j < NLISTS && j != i ==> ls[i := l][j] == ls[j]
    {
    }

    lemma {:induction false} MarkedContents(i: nat, k: nat, v: nat, size: nat)
      requires Contents(cs, lists, binmap) && OnNone(lists, v) && ChunkSize(size) && size < TWO32 && i == BinIndex(size)
      requires 2 <= i < NBINS && k <= |lists[i]| && FitsAt(cs, lists[i], k, size)
      ensures Contents(cs[v := Chunk(size, Sorted)], lists[i := With(lists[i], k, v)], MarkBin(binmap, i))
    {
      hide Listed, BinsSorted, SmallFast, FitsAt, Marked, MarkBin;
      MarkBinMarks(binmap, i, 0);
      forall j | 2 <= j < NBINS && !Marked(MarkBin(binmap, i), j)
        ensures !Marked(binmap, j) && j != i
      {
        MarkBinMarks(binmap, i, j);
      }
      RelistContents(cs, lists, binmap, MarkBin(binmap, i), k, v, Chunk(size, Sorted));
    }

    /** Tags do not tell unsorted chunks from binned ones. */
    lemma {:induction false} StillSorted(was: Chunks, v: nat)
      requires ArenaOn(was) && v in was && was[v].use.Unsorted?
      ensures ArenaOn(was[v := Chunk(was[v].size, Sorted)])
    {
      ReadTags(was, v);
      ReadTags(was, v + was[v].size);
      assert TagAt(was, base, head, foot, v);
      FollowedByUse(was, v);
      FuseSelf(was, base, end, v, Sorted);
      FuseKeeps(was, top, base, end, head, foot, v, v + was[v].size, Sorted, head, foot);
    }

    // ---------- Unsorted chunks ----------

    /** The remainder r replaces the victim as the one unsorted chunk and as last remainder. */
    method ReplaceLast(victim: nat, r: nat, ghost nb: nat)
      requires ListsOk() && anyChunks && lists[1] == [victim] && victim in cs && nb < cs[victim].size && victim + nb !in cs
      requires r == victim + nb
      modifies this`fd, this`bk, this`lists, this`cs, this`lastRemainder
      ensures ListsOk() && victim in old(cs) && cs == Cut(old(cs), victim, nb, InUse, Unsorted)
      ensures lists == old(lists)[1 := [r]] && |old(lists)| == NLISTS
      ensures lastRemainder == r
    {
      hide Contents, EmptyFrom, Cut;
      SoleContents(victim, nb);
      fd := fd[Hdr(1) := At(r)];
      bk := bk[Hdr(1) := At(r)];
      lastRemainder := r;
      fd := fd[At(r) := Hdr(1)];
      bk := bk[At(r) := Hdr(1)];
      cs := Cut(cs, victim, nb, InUse, Unsorted);
      lists := lists[1 := [r]];
    }

    /** A small request splits the last remainder when it is the only unsorted chunk. */
    method SplitLast(victim: nat, nb: nat, size: nat)
      requires Valid() && anyChunks && lists[1] == [victim] && victim in cs && cs[victim].size == size
      requires ChunkSize(nb) && nb + MINSIZE < size
      modifies this`head, this`foot, this`fd, this`bk, this`lists, this`cs, this`lastRemainder
      ensures Valid() && victim in old(cs) && old(cs)[victim].use.Unsorted? && cs == Cut(old(cs), victim, nb, InUse, Unsorted)
      ensures lists == old(lists)[1 := [victim + nb]] && FollowsUse(victim)
      ensures lastRemainder == victim + nb
    {
      hide Arena, Contents, FlagsOk, Cut, ListOf, LinksOk;
      ReadMember(cs, victim, 1, 0);
      var rest := size - nb;
      var r := victim + nb;
      CutFreeKeeps(cs, victim, nb);
      ReplaceLast(victim, r, nb);
      head := head[victim := nb + 1];
      head := head[r := rest + 1];
      foot := foot[r + rest := rest];
      MarkedWord(nb);
    }

    lemma {:induction false} SoleContents(victim: nat, nb: nat)
      requires ListsOk() && anyChunks && lists[1] == [victim] && victim in cs && nb < cs[victim].size && victim + nb !in cs
      ensures var r := victim + nb; var t := lists[1 := [r]];
        && Threaded(fd[Hdr(1) := At(r)][At(r) := Hdr(1)], bk[Hdr(1) := At(r)][At(r) := Hdr(1)], fastbins, t) && OnceEach(t)
        && Contents(Cut(cs, victim, nb, InUse, Unsorted), t, binmap)
      ensures fastChunks || EmptyFrom(lists[1 := [victim + nb]], NBINS)
    {
      hide Ring, Chain;
      var r := victim + nb;
      UnlistContents(cs, lists, binmap, 1, 0);
      WithoutOnce(lists, 1, 0);
      var ls := lists[1 := []];
      assert Without(lists[1], 0) == [];
      CutReshapes0(victim, nb, ls);
      SameListedContents(cs[victim := Chunk(cs[victim].size, InUse)], Cut(cs, victim, nb, InUse, InUse), ls, binmap);
      NotListed(Cut(cs, victim, nb, InUse, InUse), ls, r);
      SoleKeeps(fd, bk, fastbins, lists, r);
      CutUse(cs, victim, nb);
      RelistContents(Cut(cs, victim, nb, InUse, InUse), ls, binmap, binmap, 0, r, Chunk(cs[victim].size - nb, Unsorted));
      assert With(ls[1], 0, r) == [r] && ls[1 := [r]] == lists[1 := [r]];
      BinsOnly(lists, 1, [r]);
    }

    lemma CutReshapes0(p: nat, nb: nat, ls: seq<seq<nat>>)
      requires p in cs && p + nb !in cs && nb <= cs[p].size && Contents(cs[p := Chunk(cs[p].size, InUse)], ls, binmap)
      ensures SameListed(cs[p := Chunk(cs[p].size, InUse)], Cut(cs, p, nb, InUse, InUse))
      ensures SmallFast(Cut(cs, p, nb, InUse, InUse))
    {
    }

    static ghost predicate ExactFit(c: Chunks, p: nat, nb: nat) {
      p in c && Free(c[p].use) && c[p].size == nb
    }

    /** One turn: the last unsorted chunk is used or goes to its bin (then the result is 0). */
    method TakeUnsorted(nb: u64) returns (victim: nat)
      requires Valid() && anyChunks && ChunkSize(nb) && lists[1] != []
      modifies this`head, this`foot, this`fd, this`bk, this`lists, this`cs, this`binmap, this`lastRemainder
      ensures Valid() && (victim != 0 ==> HandedOut(old(cs), cs, victim, nb) && FollowsUse(victim))
      ensures victim == 0 ==> Rebinned(old(cs), cs) && |lists[1]| < |old(lists)[1]|
      ensures victim == 0 && nb < MIN_LARGE_SIZE ==> lists[nb / 8] == old(lists)[nb / 8]
      // The last one is split if it is the only one and the last remainder, taken if it fits exactly, else binned.
      ensures var u := old(lists)[1]; var v := u[|u| - 1];
        && v in old(cs) && (victim != 0 ==> victim == v)
        && (if RemainderLast(u, old(lastRemainder)) && nb < MIN_LARGE_SIZE && old(cs)[v].size > nb + MINSIZE then
              victim != 0 && lastRemainder == v + nb && Free(old(cs)[v].use)
            else (victim != 0 <==> old(cs)[v].size == nb) && lastRemainder == old(lastRemainder))
        && (victim != 0 && old(cs)[v].size == nb ==> ExactFit(old(cs), victim, nb))
        && (victim == 0 ==> lists[1] == u[..|u| - 1])
    {
      hide Arena, Contents, FlagsOk, Cut, ListOf, Ring, Chain, OnceEach, BinIndex, Differ, Rebinned;
      ghost var k := |lists[1]| - 1;
      ReadMember(cs, 0, 1, k);
      RingEnds(1);
      RingAt(1, k);
      victim := bk[Hdr(1)].addr;
      ReadTags(cs, victim);
      var bck := bk[At(victim)];
      var size := SizeBits(head[victim]);
      if nb < MIN_LARGE_SIZE && bck == Hdr(1) && victim == lastRemainder && size > nb + MINSIZE {
        assert lists[1] == [victim];
        CutFreeKeeps(cs, victim, nb);
        SplitLast(victim, nb, size);
        return;
      }
      var taken := TakeOrBin(nb, victim, size);
      if !taken {
        victim := 0;
      }
    }

    static ghost predicate RemainderLast(u: seq<nat>, last: nat) {
      |u| == 1 && u[0] == last
    }

    /** The last unsorted chunk is taken if it has exactly the right size, else it goes to its bin. */
    method TakeOrBin(nb: u64, victim: nat, size: nat) returns (taken: bool)
      requires Valid() && anyChunks && ChunkSize(nb) && lists[1] != [] && victim == lists[1][|lists[1]| - 1]
      requires victim in cs && cs[victim].size == size
      modifies this`head, this`foot, this`fd, this`bk, this`lists, this`cs, this`binmap
      ensures Valid() && victim != 0
      ensures taken ==> HandedOut(old(cs), cs, victim, nb) && FollowsUse(victim) && ExactFit(old(cs), victim, nb)
      ensures taken <==> size == nb
      ensures !taken ==> Rebinned(old(cs), cs) && lists[1] == old(lists)[1][..|old(lists)[1]| - 1]
      ensures !taken && nb < MIN_LARGE_SIZE ==> lists[nb / 8] == old(lists)[nb / 8]
    {
      hide Arena, Contents, FlagsOk, Cut, ListOf, Ring, Chain, OnceEach, BinIndex, Differ;
      ReadMember(cs, 0, 1, |lists[1]| - 1);
      ReadTags(cs, victim);
      ghost var was := cs;
      var v := UnlinkLast(1);
      taken := size == nb;
      if taken {
        TakeWhole(victim, size, was);
        return;
      }
      BinChunk(victim, size, was);
      OtherBin(nb, size);
    }

    /** The first half of a search: unsorted chunks are used if they fit exactly (or are the last remainder
        of a run of small requests) and go to their bins otherwise.  0 means that none was used. */
    method ProcessUnsorted(nb: u64) returns (victim: nat, ghost mid: Chunks)
      requires Valid() && anyChunks && ChunkSize(nb)
      modifies this`head, this`foot, this`fd, this`bk, this`lists, this`cs, this`binmap, this`lastRemainder
      ensures Valid() && Rebinned(old(cs), mid)
      ensures victim == 0 ==> lists[1] == [] && mid == cs
      ensures victim != 0 ==> HandedOut(mid, cs, victim, nb) && FollowsUse(victim)
      ensures victim == 0 && nb < MIN_LARGE_SIZE && old(lists)[nb / 8] == [] ==> lists[nb / 8] == []
      ensures if RemainderServes(old(cs), old(lists)[1], old(lastRemainder), nb) then victim == old(lastRemainder) && victim != 0
              else victim != 0 ==> ExactFit(mid, victim, nb)
      ensures lastRemainder == if victim != 0 then RemainderAfter(mid, victim, nb, old(lastRemainder)) else old(lastRemainder)
    {
      hide Arena, Contents, FlagsOk, HandedOut, Ring, Chain, OnceEach, Rebinned;
      victim := 0;
      mid := cs;
      RebinnedSelf(cs);
      var empty := IsEmpty(1);
      ghost var u := lists[1];
      assert u[..|u|] == u;
      while !empty
        invariant Valid() && mid == cs && Rebinned(old(cs), cs) && victim == 0 && (empty <==> lists[1] == [])
        invariant nb < MIN_LARGE_SIZE && old(lists)[nb / 8] == [] ==> lists[nb / 8] == []
        invariant lastRemainder == old(lastRemainder)
        invariant |lists[1]| <= |u| && lists[1] == u[..|lists[1]|]
        invariant forall i {:trigger u[i]} :: |lists[1]| <= i < |u| ==> u[i] in cs && cs[u[i]].size != nb
        invariant |lists[1]| == 0 ==> !RemainderServes(old(cs), u, old(lastRemainder), nb)
        decreases |lists[1]|
      {
        ghost var m, was := |lists[1]|, cs;
        assert lists[1] == u[..m] && lists[1][m - 1] == u[m - 1];
        victim := TakeUnsorted(nb);
        RebinnedSizes(old(cs), was);
        assert m == 1 ==> u[0] == u[..m][0];
        if victim != 0 {
          return;
        }
        RebinnedSizes(was, cs);
        RebinnedTrans(old(cs), was, cs);
        mid := cs;
        empty := IsEmpty(1);
        assert lists[1] == u[..m - 1];
      }
    }

    static lemma RebinnedSelf(s: Chunks)
      ensures Rebinned(s, s)
    {
    }

    static lemma RebinnedSizes(s: Chunks, t: Chunks)
      ensures Rebinned(s, t) ==> forall p {:trigger p in t} {:trigger p in s} ::
        (p in t <==> p in s) && (p in s ==> t[p].size == s[p].size && (Free(t[p].use) <==> Free(s[p].use)))
    {
    }

    static lemma RebinnedTrans(s: Chunks, t: Chunks, r: Chunks)
      requires Rebinned(s, t) && Rebinned(t, r)
      ensures Rebinned(s, r)
    {
    }

    /** A chunk of another size goes to another small bin. */
    static lemma OtherBin(nb: u64, size: u64)
      requires ChunkSize(nb) && ChunkSize(size) && size < TWO32 && size != nb
      ensures nb < MIN_LARGE_SIZE ==> BinIndex(size) != nb / 8
    {
      if nb < MIN_LARGE_SIZE && BinIndex(size) == nb / 8 {
        SmallBinSize(size, nb);
      }
    }

    // ---------- Best fit ----------

    /** "Exhaust" or "Split": hand out the free chunk, off its list already. */
    method Deliver(victim: nat, nb: u64, size: nat, advertise: bool, ghost was: Chunks) returns (ghost n: nat)
      requires ArenaOn(was) && ListsOk() && anyChunks && victim in was && Free(was[victim].use) && size == was[victim].size
      requires cs == was[victim := Chunk(size, InUse)] && lists[1] == [] && ChunkSize(nb) && nb <= size
      modifies this`head, this`foot, this`fd, this`bk, this`lists, this`cs, this`lastRemainder
      ensures Valid() && HandedOut(was, cs, victim, n) && nb <= n < nb + MINSIZE && FollowsUse(victim)
      ensures lastRemainder == if advertise && size >= nb + MINSIZE then victim + nb else old(lastRemainder)
    {
      hide Arena, Contents, FlagsOk, LinksOk, Cut, ListOf;
      if size - nb < MINSIZE {
        TakeWhole(victim, size, was);
        n := size;
      } else {
        CutFreeKeeps(was, victim, nb);
        var r := SplitOff(victim, nb, size, was);
        if advertise {
          lastRemainder := r;
        }
        n := nb;
      }
    }

    /** The scan of a large request's own bin, from the smallest chunk up. */
    method ScanBin(nb: u64, idx: nat) returns (victim: nat, ghost n: nat)
      requires Valid() && anyChunks && ChunkSize(nb) && lists[1] == [] && idx == BinIndex(nb) && 4 <= idx < NBINS
      modifies this`head, this`foot, this`fd, this`bk, this`lists, this`cs, this`lastRemainder
      ensures Valid() && (victim == 0 ==> cs == old(cs) && lists == old(lists) && AllBelow(cs, lists[idx], nb))
      ensures victim != 0 ==> HandedOut(old(cs), cs, victim, n) && nb <= n < nb + MINSIZE && FollowsUse(victim)
      ensures victim != 0 ==> BestFit(old(cs), victim, nb) && nb < TWO32
      ensures victim != 0 ==> LastFit(old(cs), old(lists)[idx], victim, nb)
      ensures lastRemainder == old(lastRemainder)
    {
      hide Arena, Contents, FlagsOk, ListOf, Ring, Chain, OnceEach, HandedOut, BestFit, BinIndex, SmallestFit, LastFit;
      ghost var k: nat := |lists[idx]|;
      n := 0;
      RingEnds(idx);
      var node := bk[Hdr(idx)];
      while node != Hdr(idx)
        invariant Valid() && cs == old(cs) && lists == old(lists) && head == old(head) && foot == old(foot)
        invariant fd == old(fd) && bk == old(bk) && lastRemainder == old(lastRemainder)
        invariant k <= |lists[idx]| && node == NodeAt(idx, lists[idx], k - 1)
        invariant forall m {:trigger lists[idx][m]} :: k <= m < |lists[idx]| ==> lists[idx][m] in cs && cs[lists[idx][m]].size < nb
        decreases k
      {
        k := k - 1;
        ReadMember(cs, 0, idx, k);
        RingAt(idx, k);
        victim := node.addr;
        var size := SizeBits(head[victim]);
        if size >= nb {
          FirstFitIsSmallest(idx, k, nb);
          FirstFitIsLast(cs, lists[idx], k, nb);
          BestOfBin(idx, nb, idx, victim);
          n := TakeAt(nb, idx, victim, size, k);
          return;
        }
        node := bk[node];
      }
      victim := 0;
    }

    /** Chunk `victim`, the k-th of bin i, is unlinked and handed out. */
    method TakeAt(nb: u64, i: nat, victim: nat, size: nat, ghost k: nat) returns (ghost n: nat)
      requires Valid() && anyChunks && ChunkSize(nb) && lists[1] == [] && 2 <= i < NBINS && k < |lists[i]| && victim == lists[i][k]
      requires victim in head && size == SizeBits(head[victim]) && victim in cs && cs[victim].size == size >= nb
      modifies this`head, this`foot, this`fd, this`bk, this`lists, this`cs, this`lastRemainder
      ensures Valid() && victim != 0 && HandedOut(old(cs), cs, victim, n) && nb <= n < nb + MINSIZE && FollowsUse(victim)
      ensures lastRemainder == old(lastRemainder)
    {
      hide Arena, Contents, FlagsOk, Ring, Chain, OnceEach, HandedOut;
      ghost var was := cs;
      ReadMember(cs, 0, i, k);
      ReadTags(cs, victim);
      Unlink(victim, i, k);
      n := Deliver(victim, nb, size, false, was);
    }

    static lemma FirstFitIsLast(c: Chunks, l: seq<nat>, k: nat, nb: nat)
      requires k < |l| && l[k] in c && c[l[k]].size >= nb
      requires forall m {:trigger l[m]} :: k < m < |l| ==> l[m] in c && c[l[m]].size < nb
      ensures LastFit(c, l, l[k], nb)
    {
    }

    lemma {:induction false} FirstFitIsSmallest(i: nat, k: nat, nb: nat)
      requires ListsOk() && 2 <= i < NBINS && k < |lists[i]| && lists[i][k] in cs && cs[lists[i][k]].size >= nb
      requires forall m {:trigger lists[i][m]} :: k < m < |lists[i]| ==> lists[i][m] in cs && cs[lists[i][m]].size < nb
      ensures SmallestFit(cs, lists[i], lists[i][k], nb)
    {
      hide Contents;
      forall m | 0 <= m < |lists[i]|
        ensures lists[i][m] in cs && (cs[lists[i][m]].size >= nb ==> cs[lists[i][m]].size >= cs[lists[i][k]].size)
      {
        if m < k {
          SortedAt(i, m, k);
        }
      }
    }

    /** The search of the bin map, word by word, for the first non-empty bin behind idx; NBINS if there is
        none.  Bits of bins that turn out to be empty are cleared on the way. */
    method NextBin(idx: nat) returns (i: nat)
      requires Valid() && 1 <= idx < NBINS
      modifies this`binmap
      ensures Valid() && idx < i <= NBINS && (i < NBINS ==> lists[i] != [])
      ensures forall j {:trigger lists[j]} :: idx < j < i ==> lists[j] == []
    {
      hide Arena, Listed, BinsSorted, SmallFast, MapOk, FlagsOk, Ring, Chain, OnceEach, Bit, And, AndNot;
      i := idx + 1;
      var block: nat := i / 32;
      ContentsShape(cs, lists, binmap);
      var map0 := binmap[block];
      ghost var b: nat := i % 32;
      var bit: nat := BitWord(i % 32);
      while true
        invariant Valid() && block <= 3 && i == 32 * block + b && b <= 32 && idx < i <= NBINS
        invariant map0 == binmap[block] && bit == BitWord(b)
        invariant forall j {:trigger lists[j]} :: idx < j < i ==> lists[j] == []
        decreases 128 - i
      {
        ContentsShape(cs, lists, binmap);
        if bit > map0 || bit == 0 {
          SkipRest(idx, i, block, b);
          ghost var i0 := 32 * block + 32;
          block := block + 1;
          while block < 3 && binmap[block] == 0
            invariant Valid() && |binmap| == 4 && block <= 4 && i0 <= 32 * block
            invariant forall j {:trigger lists[j]} :: idx < j < 32 * block && j < NBINS ==> lists[j] == []
          {
            SkipBlock(block);
            block := block + 1;
          }
          if block >= 3 {
            i := NBINS;
            return;
          }
          map0 := binmap[block];
          i := 32 * block;
          b := 0;
          bit := 1;
        }
        i, bit, b := FirstBit(idx, i, block, bit, b);
        var empty := IsEmpty(i);
        if !empty {
          return;
        }
        Unmark(block, b);
        map0 := AndNot(map0, bit);
        binmap := binmap[block := map0];
        ShiftBit(b);
        i := i + 1;
        b := b + 1;
        bit := bit * 2 % TWO32;
      }
    }

    /** An unmarked bin is empty. */
    lemma UnmarkedIsEmpty(j: nat)
      requires Contents(cs, lists, binmap) && 2 <= j < NBINS && !Marked(binmap, j)
      ensures lists[j] == []
    {
    }

    lemma {:induction false} SkipRest(idx: nat, i: nat, block: nat, b: nat)
      requires Contents(cs, lists, binmap) && block <= 3 && i == 32 * block + b && 2 <= i <= NBINS
      requires BitWord(b) > binmap[block] || BitWord(b) == 0
      requires forall j {:trigger lists[j]} :: idx < j < i ==> lists[j] == []
      ensures forall j {:trigger lists[j]} :: idx < j < 32 * block + 32 && j < NBINS ==> lists[j] == []
    {
      hide Contents, BitWord, Marked;
      ContentsShape(cs, lists, binmap);
      forall j | i <= j < 32 * block + 32 && j < NBINS
        ensures lists[j] == []
      {
        RestOfBlock(binmap, block, b, j);
        UnmarkedIsEmpty(j);
      }
    }

    lemma {:induction false} SkipBlock(block: nat)
      requires Contents(cs, lists, binmap) && 1 <= block < 3 && binmap[block] == 0
      ensures forall j {:trigger lists[j]} :: 32 * block <= j < 32 * block + 32 ==> lists[j] == []
    {
      hide Contents, Marked;
      ContentsShape(cs, lists, binmap);
      forall j | 32 * block <= j < 32 * block + 32
        ensures lists[j] == []
      {
        ZeroBlock(binmap, block, j);
        UnmarkedIsEmpty(j);
      }
    }

    /** "Advance to bin with set bit. There must be one." */
    method FirstBit(idx: nat, i0: nat, block: nat, bit0: nat, ghost b0: nat) returns (i: nat, bit: nat, ghost b: nat)
      requires Contents(cs, lists, binmap) && block < 3 && i0 == 32 * block + b0 && b0 < 32 && 1 <= idx < i0
      requires bit0 == BitWord(b0) && bit0 <= binmap[block]
      requires forall j {:trigger lists[j]} :: idx < j < i0 ==> lists[j] == []
      ensures i0 <= i == 32 * block + b && b < 32 && bit == BitWord(b) && Bit(binmap[block], b)
      ensures forall j {:trigger lists[j]} :: idx < j < i ==> lists[j] == []
    {
      hide Contents, Bit, And, BitWord, Marked;
      ContentsShape(cs, lists, binmap);
      i, bit, b := i0, bit0, b0;
      ghost var c := BitToFind(binmap[block], b0);
      while And(bit, binmap[block]) == 0
        invariant b0 <= b <= c && i == 32 * block + b && bit == BitWord(b)
        invariant forall j {:trigger lists[j]} :: idx < j < i ==> lists[j] == []
        decreases c - b
      {
        BitWordTest(binmap[block], b);
        ClearBit(binmap, block, b);
        UnmarkedIsEmpty(i);
        ShiftBit(b);
        i := i + 1;
        b := b + 1;
        bit := bit * 2 % TWO32;
      }
      BitWordTest(binmap[block], b);
    }

    static lemma {:induction false} BitToFind(w: nat, b: nat) returns (c: nat)
      requires b < 32 && BitWord(b) <= w < TWO32
      ensures b <= c < 32 && Bit(w, c)
    {
      Pow2ThirtyTwo();
      c := SomeBitAbove(w, b, 32);
    }

    static lemma {:induction false} BitWordTest(w: nat, b: nat)
      requires b < 32
      ensures And(BitWord(b), w) == 0 <==> !Bit(w, b)
    {
      BitTest(w, b);
    }

    /** Clearing the bit of an empty bin. */
    lemma {:induction false} Unmark(block: nat, b: nat)
      requires Contents(cs, lists, binmap) && block < 3 && b < 32 && 2 <= 32 * block + b && lists[32 * block + b] == []
      ensures Contents(cs, lists, binmap[block := AndNot(binmap[block], BitWord(b))])
    {
      hide Listed, BinsSorted, SmallFast, Marked, UnmarkBin;
      var i := 32 * block + b;
      ContentsShape(cs, lists, binmap);
      ClearBit(binmap, block, b);
      UnmarkBinUnmarks(binmap, i, 0);
      forall j | 2 <= j < NBINS && !Marked(UnmarkBin(binmap, i), j)
        ensures lists[j] == []
      {
        UnmarkBinUnmarks(binmap, i, j);
      }
    }

    /** The second half of a search, when all free chunks are in their bins. */
    method TakeBest(nb: u64, idx: nat) returns (r: Search, ghost n: nat)
      requires Valid() && anyChunks && ChunkSize(nb) && lists[1] == [] && idx == BinIndex(nb) && 4 <= idx < NBINS
      requires nb < MIN_LARGE_SIZE ==> lists[idx] == []
      modifies this`head, this`foot, this`fd, this`bk, this`lists, this`cs, this`lastRemainder, this`binmap
      ensures Valid()
      ensures r.Victim? ==> HandedOut(old(cs), cs, r.p, n) && nb <= n < nb + MINSIZE && BestFit(old(cs), r.p, nb)
      ensures r.Victim? ==> FollowsUse(r.p)
      ensures !r.Victim? ==> cs == old(cs)
      ensures r.Nothing? ==> NoneFits(cs, nb)
      // Later bins are taken to suffice; for a request of 4 GiB or more none of them does.
      ensures r.TooSmall? <==> nb >= TWO32 && exists j :: idx < j < NBINS && old(lists)[j] != []
      ensures lastRemainder == if r.Victim? then RemainderAfter(old(cs), r.p, nb, old(lastRemainder)) else old(lastRemainder)
    {
      hide Arena, Contents, FlagsOk, ListOf, Ring, Chain, OnceEach, HandedOut, BinIndex, SmallestFit, BestFit, NoneFits, AllBelow, LastFit;
      n := 0;
      if nb >= MIN_LARGE_SIZE {
        var p;
        p, n := ScanBin(nb, idx);
        if p != 0 {
          return Victim(p), n;
        }
      }
      assert AllBelow(cs, lists[idx], nb) by {
        EmptyAllBelow(cs, lists[idx], nb);
      }
      var i := NextBin(idx);
      if i == NBINS {
        NoneInBins(idx, nb);
        return Nothing, n;
      }
      ghost var k := |lists[i]| - 1;
      ReadMember(cs, 0, i, k);
      RingEnds(i);
      LastIsSmallest(i, nb);
      var victim := bk[Hdr(i)].addr;
      var size := SizeBits(head[victim]);
      LaterFits(nb, size, idx, i);
      if size < nb {
        return TooSmall, n;
      }
      BestOfBin(idx, nb, i, victim);
      n := TakeLast(nb, i, victim, size);
      r := Victim(victim);
    }

    /** The last chunk of bin i is unlinked and handed out. */
    method TakeLast(nb: u64, i: nat, victim: nat, size: nat) returns (ghost n: nat)
      requires Valid() && anyChunks && ChunkSize(nb) && lists[1] == [] && 2 <= i < NBINS && lists[i] != []
      requires victim == lists[i][|lists[i]| - 1] && victim in cs && Free(cs[victim].use) && cs[victim].size == size >= nb
      modifies this`head, this`foot, this`fd, this`bk, this`lists, this`cs, this`lastRemainder
      ensures Valid() && victim != 0 && HandedOut(old(cs), cs, victim, n) && nb <= n < nb + MINSIZE && FollowsUse(victim)
      ensures lastRemainder == RemainderAfter(old(cs), victim, nb, old(lastRemainder))
    {
      hide Arena, Contents, FlagsOk, Ring, Chain, OnceEach, HandedOut;
      ReadTags(cs, victim);
      ghost var was := cs;
      var v := UnlinkLast(i);
      n := Deliver(victim, nb, size, nb < MIN_LARGE_SIZE, was);
    }

    static lemma EmptyAllBelow(cs: Chunks, l: seq<nat>, nb: nat)
      ensures l == [] ==> AllBelow(cs, l, nb)
    {
    }

    /** The first chunk of a later bin is large enough, but for huge requests, for which none is. */
    static lemma {:induction false} LaterFits(nb: u64, size: nat, idx: nat, i: nat)
      requires ChunkSize(size) && size < TWO32 && BinIndex(size) == i && BinIndex(nb) == idx && idx < i
      ensures size < nb <==> nb >= TWO32
    {
      if nb < TWO32 {
        LaterBinsSuffice(nb, size);
      }
    }

    lemma {:induction false} LastIsSmallest(i: nat, nb: nat)
      requires ListsOk() && 2 <= i < NBINS && lists[i] != []
      ensures var p := lists[i][|lists[i]| - 1]; p in cs && (cs[p].size >= nb ==> SmallestFit(cs, lists[i], p, nb))
    {
      hide SmallestFit;
      var p := MemberOf(i, |lists[i]| - 1);
      if cs[p].size >= nb {
        FirstFitIsSmallest(i, |lists[i]| - 1, nb);
      }
    }

    /** With no unsorted chunk, every free chunk is in the bin of its size. */
    lemma {:induction false} FreeIsBinned(q: nat)
      requires ArenaOn(cs) && ListsOk() && lists[1] == [] && q in cs && Free(cs[q].use)
      ensures cs[q].size < TWO32 && ChunkSize(cs[q].size) && 4 <= BinIndex(cs[q].size) <= 95 && OnList(lists[BinIndex(cs[q].size)], q)
    {
      ReadTags(cs, q);
      BinIndexInRange(cs[q].size);
      var k := FindFree(cs, q);
    }

    lemma {:induction false} BestOfBin(idx: nat, nb: u64, i: nat, p: nat)
      requires ArenaOn(cs) && ListsOk() && lists[1] == [] && idx == BinIndex(nb) && 4 <= idx <= i < NBINS
      requires SmallestFit(cs, lists[i], p, nb) && (idx < i ==> AllBelow(cs, lists[idx], nb))
      requires p in cs && Free(cs[p].use) && cs[p].size < TWO32 && BinIndex(cs[p].size) == i
      requires forall j {:trigger lists[j]} :: idx < j < i ==> lists[j] == []
      ensures BestFit(cs, p, nb)
    {
      hide Arena, LinksOk, FlagsOk, Contents, BinIndex;
      ContentsShape(cs, lists, binmap);
      forall q | q in cs && Free(cs[q].use) && cs[q].size >= nb
        ensures cs[q].size >= cs[p].size
      {
        FreeIsBinned(q);
        BinIndexMonotone(nb, cs[q].size);
        if BinIndex(cs[q].size) > i {
          LaterBinsSuffice(cs[p].size, cs[q].size);
        }
      }
    }

    lemma {:induction false} NoneInBins(idx: nat, nb: u64)
      requires ArenaOn(cs) && ListsOk() && lists[1] == [] && idx == BinIndex(nb) && 4 <= idx < NBINS
      requires AllBelow(cs, lists[idx], nb) && forall j {:trigger lists[j]} :: idx < j < NBINS ==> lists[j] == []
      ensures NoneFits(cs, nb)
    {
      hide Arena, LinksOk, FlagsOk, Contents, BinIndex;
      ContentsShape(cs, lists, binmap);
      forall q | q in cs && Free(cs[q].use)
        ensures cs[q].size < nb
      {
        FreeIsBinned(q);
        if cs[q].size >= nb {
          BinIndexMonotone(nb, cs[q].size);
        }
      }
    }

    // ---------- malloc without the top chunk ----------

    /** A fastbin chunk of exactly the requested size. */
    method TakeFast(nb: u64) returns (p: nat)
      requires Valid() && ChunkSize(nb) && nb <= MAX_FAST
      modifies this`fastbins, this`lists, this`cs
      ensures Valid() && (p == 0 ==> cs == old(cs) && lists == old(lists))
      ensures p != 0 ==> Owned(cs) == Owned(old(cs))[p := nb] && p !in Owned(old(cs)) && p % 16 == 0
      ensures p == old(FastHead(nb))
      ensures p != 0 ==> p in old(cs) && old(cs)[p].use.Fast?
    {
      hide Arena, Contents, EmptyFrom, Ring, Chain, OnceEach, ListOf, FlagsOk;
      var f := nb / 8 - 2;
      FastNotNil(f);
      p := 0;
      if fastbins[f] != NIL {
        ghost var was := cs;
        p := PopFast(f);
        ReadTags(was, p);
        FastMember(was, p, f);
        FastIsInUse(was, p, InUse);
        SameFastSize(was[p].size, nb);
        OwnedTaken(was, p);
      }
    }

    static lemma {:induction false} SameFastSize(a: nat, b: nat)
      requires ChunkSize(a) && ChunkSize(b) && FastIndex(a) == FastIndex(b)
      ensures a == b
    {
      assert a == 16 * (a / 16) && b == 16 * (b / 16);
      DivModUnique(a, 8, 2 * (a / 16), 0);
      DivModUnique(b, 8, 2 * (b / 16), 0);
    }

    /** A chunk of a small bin: all of them fit exactly. */
    method TakeSmall(nb: u64) returns (p: nat)
      requires Valid() && anyChunks && ChunkSize(nb) && nb < MIN_LARGE_SIZE
      modifies this`head, this`fd, this`bk, this`lists, this`cs
      ensures Valid() && (p == 0 ==> cs == old(cs) && lists == old(lists) && |lists| == NLISTS && lists[nb / 8] == [])
      ensures p != 0 ==> Owned(cs) == Owned(old(cs))[p := nb] && p !in Owned(old(cs)) && p % 16 == 0 && FollowsUse(p)
      ensures p != 0 ==> BestFit(old(cs), p, nb)
      ensures p != 0 ==> ExactFit(old(cs), p, nb) && |old(lists)| == NLISTS && old(lists)[nb / 8] != []
      // The one that has been there longest.
      ensures p != 0 ==> var l := old(lists)[nb / 8]; p == l[|l| - 1]
    {
      hide Arena, Contents, FlagsOk, ListOf, Ring, Chain, OnceEach, BinIndex;
      var idx: nat := nb / 8;
      p := 0;
      var empty := IsEmpty(idx);
      if !empty {
        ghost var was := cs;
        ReadMember(cs, 0, idx, |lists[idx]| - 1);
        p := UnlinkLast(idx);
        ReadTags(was, p);
        SmallIsExact(was[p].size, nb);
        TakeWhole(p, nb, was);
        OwnedTaken(was, p);
      }
    }

    static lemma SmallIsExact(size: nat, nb: u64)
      requires ChunkSize(size) && size < TWO32 && ChunkSize(nb) && nb < MIN_LARGE_SIZE && BinIndex(size) == nb / 8
      ensures size == nb
    {
      SmallBinSize(size, nb);
    }

    /** The search of `malloc` through fastbins, bins and unsorted chunks.  The top chunk is looked at only
        when no free chunk is large enough. */
    method FromBins(nb: u64) returns (r: Search)
      requires Valid() && anyChunks && ChunkSize(nb) && nb + MINSIZE < TWO64
      modifies this
      ensures Valid() && (top == 0 <==> old(top) == 0) && base == old(base) && end == old(end)
      ensures (fastChunks ==> old(fastChunks)) && anyChunks
      ensures r.Victim? ==> HasNew(Owned(old(cs)), Owned(cs), r.p, nb) && r.p != 0 && (FollowsUse(r.p) <==> !old(Recycled(nb)))
      ensures r.Nothing? ==> old(FastHead(nb)) == 0
      ensures !r.Victim? ==> Owned(cs) == Owned(old(cs))
      ensures r.Nothing? ==> NoneFits(cs, nb) && (fastChunks ==> nb < MIN_LARGE_SIZE)
      ensures r.TooSmall? ==> nb >= TWO32
      // Small requests: first the fastbin, then an exact fit, then the last remainder, then best fit.
      ensures nb < MIN_LARGE_SIZE ==>
        (if old(FastHead(nb)) != 0 then r == Victim(old(FastHead(nb)))
         else if old(Remaindered(nb)) then r == Victim(old(lastRemainder))
         else r.Victim? ==> BestFit(old(cs), r.p, nb))
      ensures nb < MIN_LARGE_SIZE ==>
        lastRemainder == if r.Victim? then RemainderAfter(old(cs), r.p, nb, old(lastRemainder)) else old(lastRemainder)
      ensures nb < MIN_LARGE_SIZE && r.Nothing? ==> NoneFits(old(cs), nb)
      // Large requests: best fit over the gaps that callers' chunks leave.
      ensures nb >= MIN_LARGE_SIZE && r.Victim? ==> BestGap(Owned(old(cs)), base, r.p, nb)
      ensures nb >= MIN_LARGE_SIZE && r.Nothing? ==> !SomeGapFits(Owned(old(cs)), base, nb)
      ensures nb >= TWO32 ==> !r.Victim? && (r.TooSmall? <==> LaterGap(Owned(old(cs)), base, nb))
    {
      hide Arena, ListsOk, Owned, HandedOut, NoneFits, BestFit, Rebinned, BestGap, SomeGapFits, LaterGap, LaterChunk, NoneFast;
      var p;
      if nb <= MAX_FAST {
        p := TakeFast(nb);
        if p != 0 {
          return Victim(p);
        }
      }
      if nb < MIN_LARGE_SIZE {
        p := TakeSmall(nb);
        if p != 0 {
          return Victim(p);
        }
      } else if fastChunks {
        Consolidate();
      }
      if nb < MIN_LARGE_SIZE {
        r := Sort(nb);
      } else {
        r := SortLarge(nb);
      }
    }

    /** The same for a large request: every gap between callers' chunks is one free chunk by now. */
    method SortLarge(nb: u64) returns (r: Search)
      requires Valid() && anyChunks && !fastChunks && ChunkSize(nb) && MIN_LARGE_SIZE <= nb && nb + MINSIZE < TWO64
      modifies this`head, this`foot, this`fd, this`bk, this`lists, this`cs, this`lastRemainder, this`binmap
      ensures Valid()
      ensures r.Victim? ==> HasNew(Owned(old(cs)), Owned(cs), r.p, nb) && r.p != 0 && FollowsUse(r.p)
      ensures r.Victim? ==> BestGap(Owned(old(cs)), base, r.p, nb)
      ensures !r.Victim? ==> Owned(cs) == Owned(old(cs))
      ensures r.Nothing? ==> NoneFits(cs, nb) && !SomeGapFits(Owned(old(cs)), base, nb)
      ensures nb >= TWO32 ==> !r.Victim? && (r.TooSmall? <==> LaterGap(Owned(old(cs)), base, nb))
      ensures r.TooSmall? ==> nb >= TWO32
    {
      hide ListsOk, Owned, NoneFits, BestFit, BestGap, SomeGapFits, LaterGap, LaterChunk, NoneFast, Tiled, Tagged;
      FlagTells();
      ghost var was, head0, foot0 := cs, head, foot;
      r := Sort(nb);
      if r.Victim? {
        FitIsGap(was, head0, foot0, r.p, nb);
      } else {
        FlagTells();
        GapsAreChunks(nb);
      }
    }

    lemma FitIsGap(was: Chunks, head0: map<nat, nat>, foot0: map<nat, nat>, p: nat, nb: nat)
      requires Arena(was, head0, foot0, top, base, end) && NoneFast(was) && BestFit(was, p, nb)
      ensures BestGap(Owned(was), base, p, nb)
    {
      BestFitIsBestGap(was, head0, foot0, top, base, end, p, nb);
    }

    lemma GapsAreChunks(nb: u64)
      requires ArenaOn(cs) && NoneFast(cs)
      ensures NoneFits(cs, nb) ==> !SomeGapFits(Owned(cs), base, nb)
      ensures LaterChunk(cs, nb) <==> LaterGap(Owned(cs), base, nb)
    {
      if top != 0 {
        hide BinIndex;
        if NoneFits(cs, nb) {
          NoneFitsNoGap(cs, head, foot, top, base, end, nb);
        }
        LaterChunkIsLaterGap(cs, head, foot, top, base, end, nb);
      }
    }

    /** Unsorted chunks first, then the bins. */
    method Sort(nb: u64) returns (r: Search)
      requires Valid() && anyChunks && ChunkSize(nb) && nb + MINSIZE < TWO64
      requires nb < MIN_LARGE_SIZE ==> |lists| == NLISTS && lists[nb / 8] == []
      modifies this`head, this`foot, this`fd, this`bk, this`lists, this`cs, this`lastRemainder, this`binmap
      ensures Valid()
      ensures r.Victim? ==> HasNew(Owned(old(cs)), Owned(cs), r.p, nb) && r.p != 0 && FollowsUse(r.p)
      ensures !r.Victim? ==> Owned(cs) == Owned(old(cs))
      ensures r.Nothing? ==> NoneFits(cs, nb) && NoneFits(old(cs), nb)
      ensures if RemainderServes(old(cs), old(lists)[1], old(lastRemainder), nb) then r.Victim? && r.p == old(lastRemainder)
              else r.Victim? ==> BestFit(old(cs), r.p, nb)
      ensures lastRemainder == if r.Victim? then RemainderAfter(old(cs), r.p, nb, old(lastRemainder)) else old(lastRemainder)
      ensures nb >= TWO32 ==> !r.Victim? && (r.TooSmall? <==> LaterChunk(cs, nb))
      ensures r.TooSmall? ==> nb >= TWO32
    {
      hide Arena, Contents, LinksOk, FlagsOk, HandedOut, NoneFits, BestFit, Rebinned, Owned, BinIndex, ExactFit, RemainderServes, LaterChunk;
      AnyBinIndexInRange(nb);
      BinIndexIs(nb);
      var idx := if nb < MIN_LARGE_SIZE then nb / 8 else LargeBinIndex(nb % TWO32);
      ghost var was := cs;
      var p;
      ghost var mid;
      p, mid := ProcessUnsorted(nb);
      OwnedRebinned(was, mid);
      RebinnedSizes(was, mid);
      if p != 0 {
        OwnedNew(mid, p, nb, nb);
        ExactIsBest(was, mid, p, nb);
        SmallEnough(p);
        return Victim(p);
      }
      LaterListed(nb, idx);
      ghost var n;
      r, n := TakeBest(nb, idx);
      if r.Victim? {
        OwnedNew(mid, r.p, n, nb);
        BestBefore(was, mid, r.p, nb);
        SmallEnough(r.p);
      } else {
        NoneBefore(was, mid, nb);
      }
    }

    /** Sorting chunks into bins changes no size: what fits best after it did so before. */
    static lemma BestBefore(was: Chunks, mid: Chunks, p: nat, nb: nat)
      requires Rebinned(was, mid) && BestFit(mid, p, nb)
      ensures BestFit(was, p, nb)
    {
      assert p in was;
      forall q | q in was && Free(was[q].use) && was[q].size >= nb
        ensures was[q].size >= was[p].size
      {
        assert q in mid && mid[q].size == was[q].size;
      }
    }

    static lemma NoneBefore(was: Chunks, mid: Chunks, nb: nat)
      requires Rebinned(was, mid)
      ensures NoneFits(mid, nb) ==> NoneFits(was, nb)
    {
    }

    static lemma ExactIsBest(was: Chunks, mid: Chunks, p: nat, nb: nat)
      requires Rebinned(was, mid)
      ensures ExactFit(mid, p, nb) ==> BestFit(was, p, nb)
    {
      if ExactFit(mid, p, nb) {
        BestBefore(was, mid, p, nb);
      }
    }

    /** No chunk has 4 GiB. */
    lemma SmallEnough(p: nat)
      requires ArenaOn(cs) && p in Owned(cs)
      ensures Owned(cs)[p] < TWO32
    {
      ReadTags(cs, p);
    }

    /** With all free chunks in their bins, a later bin in use is a free chunk of a later bin. */
    lemma {:induction false} LaterListed(nb: u64, idx: nat)
      requires Valid() && lists[1] == [] && idx == BinIndex(nb) && 4 <= idx < NBINS
      ensures (exists j {:trigger lists[j]} :: idx < j < NBINS && lists[j] != []) <==> LaterChunk(cs, nb)
    {
      hide Arena, Contents, Ring, Chain, OnceEach, FlagsOk, BinIndex;
      if j :| idx < j < NBINS && lists[j] != [] {
        ReadMember(cs, 0, j, 0);
        assert lists[j][0] in cs;
      }
      if q :| q in cs && Free(cs[q].use) && cs[q].size < TWO32 && BinIndex(cs[q].size) > BinIndex(nb) {
        FreeIsBinned(q);
        assert lists[BinIndex(cs[q].size)] != [];
      }
    }

    lemma OwnedNew(s: Chunks, p: nat, n: nat, nb: nat)
      requires HandedOut(s, cs, p, n) && ArenaOn(cs) && nb <= n < nb + MINSIZE
      ensures HasNew(Owned(s), Owned(cs), p, nb) && p != 0
    {
      OwnedHandedOut(s, cs, p, n);
      ReadTags(cs, p);
    }

    // ---------- malloc_consolidate ----------

    /** For the tags a fastbin chunk is in use. */
    lemma {:induction false} FastIsInUse(was: Chunks, p: nat, u: Use)
      requires ArenaOn(was) && p in was && (was[p].use.Fast? || was[p].use.InUse?) && (u.Fast? || u.InUse?)
      ensures ArenaOn(was[p := Chunk(was[p].size, u)])
    {
      ReadTags(was, p);
      ReadTags(was, p + was[p].size);
      assert TagAt(was, base, head, foot, p);
      FuseSelf(was, base, end, p, u);
      FuseKeeps(was, top, base, end, head, foot, p, p + was[p].size, u, head, foot);
    }

    /** Consolidate the first chunk of fastbin f. */
    method ConsolidateOne(f: nat)
      requires Valid() && anyChunks && f < FASTBINS_USED && lists[NBINS + f] != []
      modifies this`head, this`foot, this`fd, this`bk, this`lists, this`cs, this`top, this`fastbins
      ensures Valid() && Owned(cs) == Owned(old(cs)) && (top == 0 <==> old(top) == 0)
      ensures |lists| == |old(lists)| == NLISTS && lists[NBINS + f] == old(lists)[NBINS + f][1..]
      ensures forall i {:trigger lists[i]} :: NBINS <= i < NLISTS && i != NBINS + f ==> lists[i] == old(lists)[i]
    {
      hide Arena, Contents, EmptyFrom, Ring, Chain, OnceEach, Merged, ListOf, NodeAt;
      ghost var was := cs;
      FastNotNil(f);
      var p := PopFast(f);
      ReadTags(was, p);
      FastMember(was, p, f);
      FastIsInUse(was, p, InUse);
      ghost var ls, cs1 := lists, cs;
      OwnedFast(was, p);
      var size, a := Coalesce(p);
      OwnedMerged(cs1, cs, end, p, a, size);
      SameFastLists(ls, lists);
    }

    static lemma SameFastLists(ls: seq<seq<nat>>, ls': seq<seq<nat>>)
      requires |ls| == |ls'| == NLISTS && FastLists(ls) == FastLists(ls')
      ensures forall i {:trigger ls'[i]} :: NBINS <= i < NLISTS ==> ls'[i] == ls[i]
    {
      forall i | NBINS <= i < NLISTS
        ensures ls'[i] == ls[i]
      {
        assert FastLists(ls)[i - NBINS] == ls[i] && FastLists(ls')[i - NBINS] == ls'[i];
      }
    }

    lemma FastNotNil(f: nat)
      requires LinksOk() && f < FASTBINS_USED
      ensures fastbins[f] == NIL <==> lists[NBINS + f] == []
      ensures fastbins[f] == NIL || fastbins[f].At?
    {
      assert Chain(fd, fastbins[f], lists[NBINS + f]);
    }

    /** The chunks of a fastbin. */
    static lemma FastMember(was: Chunks, p: nat, f: nat)
      requires p in was && was[p].size < TWO32 && ListOf(was[p]) == NBINS + f && f < FASTBINS_USED
      ensures was[p].use.Fast? && FastIndex(was[p].size) == f
    {
      if was[p].use.Sorted? && was[p].size >= 32 {
        AnyBinIndexInRange(was[p].size);
      }
    }

    /** `malloc_consolidate`: every fastbin chunk becomes consolidated free memory. */
    method Consolidate()
      requires Valid() && anyChunks
      modifies this`head, this`foot, this`fd, this`bk, this`lists, this`cs, this`top, this`fastbins, this`fastChunks
      ensures Valid() && Owned(cs) == Owned(old(cs)) && !fastChunks && (top == 0 <==> old(top) == 0)
      ensures forall p {:trigger cs[p]} :: p in cs ==> !cs[p].use.Fast?
    {
      hide Arena, Contents, EmptyFrom, Ring, Chain, OnceEach, ListOf, Owned;
      for f := 0 to FASTBINS_USED
        invariant Valid() && Owned(cs) == Owned(old(cs)) && |lists| == NLISTS && (top == 0 <==> old(top) == 0)
        invariant forall i {:trigger lists[i]} :: NBINS <= i < NBINS + f ==> lists[i] == []
      {
        FastNotNil(f);
        while fastbins[f] != NIL
          invariant Valid() && Owned(cs) == Owned(old(cs)) && |lists| == NLISTS && (top == 0 <==> old(top) == 0)
          invariant forall i {:trigger lists[i]} :: NBINS <= i < NBINS + f ==> lists[i] == []
          invariant fastbins[f] == NIL <==> lists[NBINS + f] == []
          decreases |lists[NBINS + f]|
        {
          ConsolidateOne(f);
          FastNotNil(f);
        }
      }
      FastListsEmpty();
      fastChunks := false;
    }

    lemma FastListsEmpty()
      requires ArenaOn(cs) && ListsOk() && forall i {:trigger lists[i]} :: NBINS <= i < NLISTS ==> lists[i] == []
      ensures EmptyFrom(lists, NBINS) && forall p {:trigger cs[p]} :: p in cs ==> !cs[p].use.Fast?
    {
      forall p | p in cs
        ensures !cs[p].use.Fast?
      {
        if cs[p].use.Fast? {
          FastHome(p);
        }
      }
    }

    /** The other flag: when it is clear, no chunk is on any list. */
    lemma {:induction false} NoneListed()
      requires Valid() && !anyChunks
      ensures !fastChunks && forall p {:trigger cs[p]} :: p in cs ==> !Free(cs[p].use)
    {
      forall p | p in cs
        ensures !Free(cs[p].use)
      {
        if Free(cs[p].use) {
          var k := FindFree(cs, p);
        }
      }
    }

    lemma NoFastHead(nb: nat)
      requires Valid() && !fastChunks
      ensures FastHead(nb) == 0
    {
      hide Arena, Contents;
      if 32 <= nb <= MAX_FAST {
        FastNotNil(nb / 8 - 2);
      }
    }

    /** The flag in `max_fast`: when it is clear, no chunk is on a fastbin. */
    lemma {:induction false} FlagTells()
      requires Valid() && !fastChunks
      ensures NoneFast(cs)
    {
      forall p | p in cs
        ensures !cs[p].use.Fast?
      {
        if cs[p].use.Fast? {
          FastHome(p);
        }
      }
    }

    lemma {:induction false} FastHome(p: nat)
      requires ArenaOn(cs) && ListsOk() && p in cs && cs[p].use.Fast?
      ensures var f := FastIndex(cs[p].size); 0 <= f < FASTBINS_USED && lists[NBINS + f] != []
    {
      ReadTags(cs, p);
      var k := PlaceOf(cs, lists, p);
    }

    // ---------- Resizing chunks in use ----------

    /** Take the free chunk behind the chunk in use p off its list. */
    method HoldBehind(p: nat, next: nat, ghost was: Chunks)
      requires ArenaOn(was) && ListsOk() && cs == was && p in was && was[p].use.InUse? && next == p + was[p].size
      requires next in was && Free(was[next].use)
      modifies this`fd, this`bk, this`lists, this`cs
      ensures ListsOk() && next in was && Held(was, cs, end, p, next + was[next].size)
    {
      hide Contents, LinksOk, FlagsOk, Tiled, Tagged, ListOf;
      ReadTags(was, next);
      HoldOne(was, base, end, p);
      HoldNext(was, cs, base, end, p, next);
      ghost var k := FindFree(was, next);
      Unlink(next, ListOf(cs[next]), k);
    }

    /** `set_head_size`: a new size under the old bit. */
    function Resized(h: nat, size: nat): nat {
      size + h % 2
    }

    /** The held run [p, p + size) becomes one chunk in use. */
    method SettleWhole(p: nat, size: nat, ghost was: Chunks)
      requires ArenaOn(was) && ListsOk() && top != 0 && p in was && Held(was, cs, end, p, p + size)
      requires p + size in was
      modifies this`head, this`cs
      ensures Valid() && cs == Fuse(was, p, p + size, InUse)
    {
      hide Contents, LinksOk, FlagsOk, ListOf, Fuse;
      assert size > 0;
      WholeArena(was, p, size);
      HeldReshapes(was, p + size, p);
      hide Held;
      HeldFuse(was, cs, end, p, p + size, InUse);
      hide Arena;
      head := head[p := Resized(head[p], size)];
      head := head[p + size := WithBit(head[p + size])];
      Reshape(Fuse(cs, p, p + size, InUse));
    }

    lemma {:induction false} WholeArena(was: Chunks, p: nat, size: nat)
      requires ArenaOn(was) && top != 0 && p in was && 0 < size && p + size in was
      ensures p in head && p + size in head
      ensures Arena(Fuse(was, p, p + size, InUse), head[p := Resized(head[p], size)][p + size := WithBit(head[p + size])],
                    foot, top, base, end)
    {
      ReadTags(was, p);
      ReadTags(was, p + size);
      FuseKeeps(was, top, base, end, head, foot, p, p + size, InUse,
                head[p := Resized(head[p], size)][p + size := WithBit(head[p + size])], foot);
    }

    /** The held run [p, p + size) becomes a chunk of nb bytes and one for the rest, both in use. */
    method SettleSplit(p: nat, size: nat, nb: nat, ghost was: Chunks)
      requires ArenaOn(was) && ListsOk() && top != 0 && p in was && Held(was, cs, end, p, p + size)
      requires p + size in was && ChunkSize(nb) && nb + MINSIZE <= size
      modifies this`head, this`cs
      ensures Valid() && p in Fuse(was, p, p + size, InUse)
      ensures cs == Cut(Fuse(was, p, p + size, InUse), p, nb, InUse, InUse) && p + nb !in Fuse(was, p, p + size, InUse)
    {
      hide Contents, LinksOk, FlagsOk, ListOf, Held, Fuse, Cut;
      SplitArena(was, p, size, nb);
      HeldReshapes(was, p + size, p);
      HeldFuse(was, cs, end, p, p + size, InUse);
      hide Arena;
      var rest := size - nb;
      Reshape(Fuse(cs, p, p + size, InUse));
      CutInUseReshapes(p, nb);
      Reshape(Cut(cs, p, nb, InUse, InUse));
      head := head[p := Resized(head[p], nb)];
      head := head[p + nb := rest + 1];
      head := head[p + size := WithBit(head[p + size])];
    }

    lemma CutInUseReshapes(p: nat, nb: nat)
      requires Contents(cs, lists, binmap) && p in cs && cs[p].use.InUse? && nb <= cs[p].size && p + nb !in cs
      ensures SameListed(cs, Cut(cs, p, nb, InUse, InUse)) && SmallFast(Cut(cs, p, nb, InUse, InUse))
    {
    }

    lemma {:induction false} SplitArena(was: Chunks, p: nat, size: nat, nb: nat)
      requires ArenaOn(was) && top != 0 && p in was && p + size in was && ChunkSize(nb) && nb + 32 <= size
      ensures p in head && p + size in head
      ensures var f := Fuse(was, p, p + size, InUse);
        && p in f && f[p] == Chunk(size, InUse) && p + nb !in f
        && Arena(Cut(f, p, nb, InUse, InUse),
                 head[p := Resized(head[p], nb)][p + nb := size - nb + 1][p + size := WithBit(head[p + size])],
                 foot, top, base, end)
    {
      ReadTags(was, p);
      ReadTags(was, p + size);
      var f := Fuse(was, p, p + size, InUse);
      var head1 := head[p := Resized(head[p], size)][p + size := WithBit(head[p + size])];
      WholeArena(was, p, size);
      assert p in f && f[p] == Chunk(size, InUse);
      CutArena(f, head1, foot, top, base, end, p, nb);
      assert head1[p := Resized(head[p], nb)][p + nb := size - nb + 1]
          == head[p := Resized(head[p], nb)][p + nb := size - nb + 1][p + size := WithBit(head[p + size])];
    }

    /** Cutting a chunk in use leaves two chunks in use. */
    static lemma {:induction false} CutArena(f: Chunks, head: map<nat, nat>, foot: map<nat, nat>, top: nat, base: nat, end: nat,
                                             p: nat, nb: nat)
      requires Arena(f, head, foot, top, base, end) && top != 0 && p in f && f[p].use.InUse? && ChunkSize(nb) && nb + 32 <= f[p].size
      ensures p in head && (head[p] == f[p].size || head[p] == f[p].size + 1) && p + nb !in f
      ensures Arena(Cut(f, p, nb, InUse, InUse), head[p := nb + (head[p] - f[p].size)][p + nb := f[p].size - nb + 1], foot, top, base, end)
    {
      assert ChunkOk(f, base, end, p) && TagAt(f, base, head, foot, p);
      assert ChunkOk(f, base, end, top);
      CutTiled(f, base, end, p, nb, InUse, InUse);
      CutKeeps(f, top, base, end, head, foot, p, nb, InUse, InUse,
               head[p := nb + (head[p] - f[p].size)][p + nb := f[p].size - nb + 1], foot);
    }

    /** "Expand forward into top": p, in front of the top chunk, grows to nb bytes. */
    method GrowOverTop(p: nat, nb: nat)
      requires Valid() && top != 0 && p in cs && cs[p].use.InUse? && top == p + cs[p].size
      requires ChunkSize(nb) && cs[p].size <= nb && p + nb + MINSIZE <= end
      modifies this`head, this`top, this`cs
      ensures Valid() && top == p + nb && cs == MoveTop(old(cs), p, old(top), nb, end)
    {
      hide Contents, LinksOk, FlagsOk, ListOf, MoveTop;
      ReadTags(cs, p);
      ReadTags(cs, top);
      MoveTopArena(p, nb);
      MoveTopReshapes(p, nb);
      hide Arena;
      var newsize := SizeBits(head[p]) + SizeBits(head[top]);
      Reshape(MoveTop(cs, p, top, nb, end));
      head := head[p := Resized(head[p], nb)];
      top := p + nb;
      head := head[top := newsize - nb + 1];
    }

    lemma {:induction false} MoveTopArena(p: nat, nb: nat)
      requires Valid() && top != 0 && p in cs && cs[p].use.InUse? && top == p + cs[p].size
      requires ChunkSize(nb) && cs[p].size <= nb && p + nb + 32 <= end
      ensures p in head && top in cs && top + cs[top].size == end && (p + nb in cs ==> p + nb == top)
      ensures Arena(MoveTop(cs, p, top, nb, end), head[p := Resized(head[p], nb)][p + nb := end - (p + nb) + 1], foot, p + nb, base, end)
    {
      ReadTags(cs, p);
      ReadTags(cs, top);
      var head' := head[p := Resized(head[p], nb)][p + nb := end - (p + nb) + 1];
      assert TagAt(cs, base, head, foot, p);
      TopIsLast(cs, base, end, top);
      MoveTopTiled(cs, base, end, p, top, nb);
      MoveTopTagged(cs, base, end, head, foot, p, top, nb, head');
    }

    lemma MoveTopReshapes(p: nat, nb: nat)
      requires Contents(cs, lists, binmap) && p in cs && cs[p].use.InUse? && top in cs && cs[top].use.Top?
      requires p + nb <= end && (p + nb in cs ==> p + nb == top)
      ensures SameListed(cs, MoveTop(cs, p, top, nb, end)) && SmallFast(MoveTop(cs, p, top, nb, end))
    {
    }

    /** Cut the chunk in use p after nb bytes: two chunks in use. */
    method CutInUse(p: nat, nb: nat)
      requires Valid() && p in cs && cs[p].use.InUse? && ChunkSize(nb) && nb + MINSIZE <= cs[p].size
      modifies this`head, this`cs
      ensures Valid() && p + nb !in old(cs) && cs == Cut(old(cs), p, nb, InUse, InUse)
      ensures forall x: nat {:trigger FollowsUse(x)} :: x in old(cs) ==> (FollowsUse(x) <==> old(FollowsUse(x)))
    {
      hide Contents, LinksOk, FlagsOk, ListOf, Cut;
      ReadTags(cs, p);
      CutArena(cs, head, foot, top, base, end, p, nb);
      CutInUseReshapes(p, nb);
      hide Arena;
      var rest := SizeBits(head[p]) - nb;
      Reshape(Cut(cs, p, nb, InUse, InUse));
      BitKept(head[p], nb);
      head := head[p := Resized(head[p], nb)];
      head := head[p + nb := rest + 1];
    }

    lemma BitKept(h: nat, size: nat)
      requires size % 16 == 0
      ensures PrevInUse(Resized(h, size)) <==> PrevInUse(h)
    {
      WordParts(size, h % 2);
    }

    /** The fastbin part of `free`. */
    method FreeFast(p: nat, size: nat)
      requires Valid() && p in cs && cs[p].use.InUse? && size == cs[p].size <= MAX_FAST
      modifies this`fd, this`fastbins, this`lists, this`cs, this`anyChunks, this`fastChunks
      ensures Valid() && cs == old(cs)[p := Chunk(size, Fast)] && anyChunks && fastChunks && FastHead(size) == p
    {
      hide Arena, Contents, LinksOk, ListOf;
      ReadTags(cs, p);
      FastIsInUse(cs, p, Fast);
      fastChunks, anyChunks := true, true;
      PushFast(p, size / 8 - 2);
    }
  }

  /** A fast chunk behind a chunk that has just been consolidated stands behind free memory. */
  lemma {:induction false} FastBehindFree(m: MallocState, was: Chunks, p: nat, q: nat, a: nat, size: nat)
    requires m.Valid() && Merged(was, m.cs, m.end, p, a, size) && q == p + was[p].size && q in was && was[q].use.Fast? && q < m.end
    ensures q in m.head && !m.FollowsUse(q)
  {
    hide MallocState.ListsOk;
    assert a + size == q && q in m.cs && a in m.cs;
    assert TagAt(m.cs, m.base, m.head, m.foot, a);
    m.ReadTags(m.cs, q);
    WordParts(m.cs[q].size, 0);
  }

  /** Free a small chunk, then the one in front of it: the small one stays on its fastbin, now behind free
      memory, and is what the next request of its size gets. */
  method RecycledBehindFree() returns (m: MallocState)
    ensures m.Valid() && m.Recycled(32)
  {
    hide MallocState.ListsOk, FastLists, Arena, Merged, Tiled, Tagged;
    m := new MallocState();
    m.FirstTop(0x1000, 0x1000);
    var large := m.SplitTop(96);
    var small := m.SplitTop(32);
    assert m.cs[large] == Chunk(96, InUse) && m.cs[small] == Chunk(32, InUse);
    m.FreeFast(small, 32);
    m.ReadTags(m.cs, small);
    ghost var was := m.cs;
    var size, a := m.Coalesce(large);
    FastBehindFree(m, was, large, small, a, size);
  }

  lemma OwnedTaken(cs: Chunks, p: nat)
    requires p in cs && !cs[p].use.InUse?
    ensures Owned(cs[p := Chunk(cs[p].size, InUse)]) == Owned(cs)[p := cs[p].size] && p !in Owned(cs)
  {
  }

  lemma OwnedFast(cs: Chunks, p: nat)
    requires p in cs && !cs[p].use.InUse?
    ensures Owned(cs[p := Chunk(cs[p].size, InUse)]) - {p} == Owned(cs)
  {
  }

  lemma OwnedMerged(cs: Chunks, cs': Chunks, end: nat, p: nat, a: nat, size: nat)
    requires Merged(cs, cs', end, p, a, size) && cs[p].use.InUse?
    ensures Owned(cs') == Owned(cs) - {p}
  {
    forall q | q in cs
      ensures q in Owned(cs') <==> q in Owned(cs) - {p}
    {
    }
  }

  lemma OwnedHandedOut(s: Chunks, t: Chunks, p: nat, n: nat)
    requires HandedOut(s, t, p, n)
    ensures Owned(t) == Owned(s)[p := n] && p !in Owned(s)
  {
  }

  lemma OwnedRebinned(s: Chunks, t: Chunks)
    requires Rebinned(s, t)
    ensures Owned(t) == Owned(s)
  {
  }

  datatype Search = Nothing | Victim(p: nat) | TooSmall

  /** v entered bin i at its place, and the other lists are as they were. */
  ghost predicate Entered(c: Chunks, ls: seq<seq<nat>>, ls': seq<seq<nat>>, i: nat, v: nat, size: nat) {
    && |ls| == |ls'| == NLISTS && i < NLISTS && (forall j :: 0 <= j < NLISTS && j != i ==> ls'[j] == ls[j])
    && exists k: nat {:trigger EntersAt(c, ls[i], k, size)} ::
         EntersAt(c, ls[i], k, size) && ls'[i] == ls[i][..k] + [v] + ls[i][k..]
  }

  /** The last chunk of the list that holds nb bytes. */
  ghost predicate LastFit(cs: Chunks, l: seq<nat>, p: nat, nb: nat) {
    exists k {:trigger l[k]} :: 0 <= k < |l| && l[k] == p && p in cs && cs[p].size >= nb && AllBelow(cs, l[k + 1..], nb)
  }

  ghost predicate AllBelow(cs: Chunks, l: seq<nat>, nb: nat) {
    forall m {:trigger l[m]} :: 0 <= m < |l| ==> l[m] in cs && cs[l[m]].size < nb
  }

  /** p holds nb bytes and is the smallest chunk of the list that does. */
  ghost predicate SmallestFit(cs: Chunks, l: seq<nat>, p: nat, nb: nat) {
    && OnList(l, p) && p in cs && cs[p].size >= nb
    && forall m {:trigger l[m]} :: 0 <= m < |l| ==> l[m] in cs && (cs[l[m]].size >= nb ==> cs[l[m]].size >= cs[p].size)
  }

  /** Chunks may have moved from the unsorted list to their bins; nothing else changed. */
  ghost predicate Rebinned(s: Chunks, t: Chunks) {
    && (forall p {:trigger p in t} {:trigger p in s} :: p in t <==> p in s)
    && (forall p {:trigger t[p]} {:trigger s[p]} :: p in t && p in s ==>
          t[p] == s[p] || (s[p].use.Unsorted? && t[p] == Chunk(s[p].size, Sorted)))
  }

  /** The first n bytes of the free or top chunk p, or all of it, are in use. */
  ghost predicate HandedOut(s: Chunks, t: Chunks, p: nat, n: nat) {
    && p in s && (Free(s[p].use) || s[p].use.Top?)
    && (if n == s[p].size then Free(s[p].use) && t == s[p := Chunk(n, InUse)]
        else n >= 32 && n + 32 <= s[p].size && p + n !in s
             && t == Cut(s, p, n, InUse, if s[p].use.Top? then Top else Unsorted))
  }

  /** p and the free memory around it became one chunk [a, a + size), the top chunk or an unsorted one. */
  ghost predicate Merged(cs: Chunks, cs': Chunks, end: nat, p: nat, a: nat, size: nat) {
    && p in cs && a <= p < p + cs[p].size <= a + size
    && cs' == Fuse(cs, a, a + size, if a + size == end then Top else Unsorted)
    && forall q {:trigger cs[q]} :: q in cs && a <= q < a + size ==> q == p || Free(cs[q].use) || cs[q].use.Top?
  }
}
