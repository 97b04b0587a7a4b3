/** What freeing a chunk merges, and where the top chunk begins: both told from the chunks as they were before
    the call. */
module FreedRuns {
  import opened Machine
  import opened HeapSizes
  import opened HeapChunks
  import opened ArenaGaps
  import opened BoundaryTagHeap

  const CONSOLIDATION_THRESHOLD: int := 0x2_0000
  const TRIM_THRESHOLD: int := 0x4_0000

  /** Chunk b is free and ends where p begins. */
  ghost predicate FreeInFront(cs: Chunks, b: nat, p: nat) {
    b in cs && Free(cs[b].use) && b + cs[b].size == p
  }

  ghost function Front(cs: Chunks, p: nat): nat {
    if exists b {:trigger FreeInFront(cs, b, p)} :: FreeInFront(cs, b, p)
    then var b :| FreeInFront(cs, b, p); cs[b].size
    else 0
  }

  /** The size of the free or top chunk that begins at n. */
  function Behind(cs: Chunks, n: nat): nat {
    if n in cs && (Free(cs[n].use) || cs[n].use.Top?) then cs[n].size else 0
  }

  /** The size of chunk p together with the free chunk in front of it and the free or top chunk behind. */
  ghost function FreedRun(cs: Chunks, p: nat): nat
    requires p in cs
  {
    Front(cs, p) + cs[p].size + Behind(cs, p + cs[p].size)
  }

  /** No chunk in a caller's hands but p reaches into the last n bytes of the arena. */
  ghost predicate LastBytesUnused(cs: Chunks, base: nat, end: nat, p: nat, n: nat) {
    base + n <= end && forall q {:trigger cs[q]} :: q in cs && q != p && cs[q].use.InUse? ==> q + cs[q].size + n <= end
  }

  /** Freeing p makes the heap ask for less memory: p is no fastbin chunk, it makes 128 KiB or more of free
      memory in one piece, and nothing else is in use in the last 256 KiB of the arena. */
  ghost predicate FreeTrims(cs: Chunks, base: nat, end: nat, p: nat)
    requires p in cs
  {
    && cs[p].size > MAX_FAST && FreedRun(cs, p) >= CONSOLIDATION_THRESHOLD
    && LastBytesUnused(cs, base, end, p, TRIM_THRESHOLD)
  }

  /** The same for the front of chunk p, n bytes, whose rest stays in use. */
  ghost predicate FrontTrims(cs: Chunks, end: nat, p: nat, n: nat)
    requires p in cs
  {
    && n > MAX_FAST && Front(cs, p) + n >= CONSOLIDATION_THRESHOLD && p + cs[p].size + TRIM_THRESHOLD <= end
    && OthersEndBefore(cs, end, p, p + cs[p].size)
  }

  /** The same for the end of a run of chunks [p, e), of which the first n bytes stay in use. */
  ghost predicate RestTrims(cs: Chunks, end: nat, p: nat, e: nat, n: nat) {
    && p + n + MAX_FAST < e && e - (p + n) + Behind(cs, e) >= CONSOLIDATION_THRESHOLD && p + n + TRIM_THRESHOLD <= end
    && OthersEndBefore(cs, end, p, e)
  }

  /** No chunk in a caller's hands, but for those that begin in [p, e), reaches into the last 256 KiB. */
  ghost predicate OthersEndBefore(cs: Chunks, end: nat, p: nat, e: nat) {
    forall q {:trigger cs[q]} :: q in cs && !(p <= q < e) && cs[q].use.InUse? ==> q + cs[q].size + TRIM_THRESHOLD <= end
  }

  // ---------- Giving back a part ----------

  /** Freeing what was cut off the end of a run. */
  lemma {:induction false} RestIsFreed(cs: Chunks, base: nat, end: nat, p: nat, e: nat, n: nat)
    requires 0 < n && p + n < e && p in Fuse(cs, p, e, InUse)
    requires var t := Cut(Fuse(cs, p, e, InUse), p, n, InUse, InUse); Tiled(t, base, end)
    ensures var t := Cut(Fuse(cs, p, e, InUse), p, n, InUse, InUse); FreeTrims(t, base, end, p + n) <==> RestTrims(cs, end, p, e, n)
  {
    var t := Cut(Fuse(cs, p, e, InUse), p, n, InUse, InUse);
    hide Fuse, Cut;
    NothingInFront(t, base, end, p);
    CutRun(cs, p, e, n);
    assert ChunkOk(t, base, end, p);
    assert t[p].size == n && t[p + n] == Chunk(e - (p + n), InUse);
    assert Behind(t, e) == Behind(cs, e);
    forall q | q in cs && !(p <= q < e)
      ensures q in t && q != p + n && t[q] == cs[q]
    {
    }
    forall q | q in t && q != p && q != p + n
      ensures q in cs && !(p <= q < e) && t[q] == cs[q]
    {
    }
  }

  lemma CutRun(cs: Chunks, p: nat, e: nat, n: nat)
    requires 0 < n && p + n < e && p in Fuse(cs, p, e, InUse)
    ensures var t := Cut(Fuse(cs, p, e, InUse), p, n, InUse, InUse);
      && p in t && t[p] == Chunk(n, InUse) && p + n in t && t[p + n] == Chunk(e - (p + n), InUse)
      && (forall q {:trigger q in t} {:trigger q in cs} :: q in t <==> q == p || q == p + n || (q in cs && !(p <= q < e)))
      && (forall q {:trigger t[q]} {:trigger cs[q]} :: q in cs && !(p <= q < e) ==> t[q] == cs[q])
  {
  }

  /** Behind a chunk in use no chunk is free that ends with it. */
  lemma {:induction false} NothingInFront(cs: Chunks, base: nat, end: nat, p: nat)
    requires Tiled(cs, base, end) && p in cs && cs[p].use.InUse?
    ensures Front(cs, p + cs[p].size) == 0
  {
    assert ChunkOk(cs, base, end, p);
    var e := p + cs[p].size;
    forall b: nat
      ensures !FreeInFront(cs, b, e)
    {
      assert b in cs ==> ChunkOk(cs, base, end, b);
      assert b in cs && b < p ==> Before(cs, b, p);
      assert b in cs && p < b ==> Before(cs, p, b);
    }
  }

  /** Freeing the front that was cut off a chunk. */
  lemma {:induction false} FrontIsFreed(cs: Chunks, base: nat, end: nat, p: nat, n: nat)
    requires Tiled(cs, base, end) && p in cs && cs[p].use.InUse? && 0 < n < cs[p].size
    ensures FreeTrims(Cut(cs, p, n, InUse, InUse), base, end, p) <==> FrontTrims(cs, end, p, n)
  {
    var t := Cut(cs, p, n, InUse, InUse);
    assert ChunkOk(cs, base, end, p);
    forall b: nat
      ensures FreeInFront(cs, b, p) <==> FreeInFront(t, b, p)
    {
    }
    forall b: nat, c: nat | FreeInFront(cs, b, p) && FreeInFront(cs, c, p)
      ensures b == c
    {
      assert b < c ==> Before(cs, b, c);
      assert c < b ==> Before(cs, c, b);
      assert ChunkOk(cs, base, end, b) && ChunkOk(cs, base, end, c);
    }
    forall b: nat | FreeInFront(cs, b, p)
      ensures t[b] == cs[b]
    {
    }
    assert Front(t, p) == Front(cs, p);
    assert Behind(t, p + n) == 0;
    forall q | q in cs && p < q
      ensures p + cs[p].size <= q
    {
      assert Before(cs, p, q);
    }
  }

  // ---------- The merged run ----------

  lemma {:induction false} MergedBehind(cs: Chunks, cs': Chunks, base: nat, end: nat, head: map<nat, nat>, foot: map<nat, nat>,
                                        head': map<nat, nat>, foot': map<nat, nat>, p: nat, a: nat, size: nat)
    requires Tiled(cs, base, end) && Tagged(cs, base, head, foot) && Tiled(cs', base, end) && Tagged(cs', base, head', foot')
    requires Merged(cs, cs', end, p, a, size) && cs[p].use.InUse? && a in cs
    ensures var n := p + cs[p].size;
      a + size == if n in cs && (Free(cs[n].use) || cs[n].use.Top?) then n + cs[n].size else n
  {
    var n := p + cs[p].size;
    assert ChunkOk(cs, base, end, p) && ChunkOk(cs', base, end, a) && TagAt(cs', base, head', foot', a);
    assert n in cs && ChunkOk(cs, base, end, n) && TagAt(cs, base, head, foot, n);
    var m := n + cs[n].size;
    assert a + size == end || a + size in cs;
    assert n < a + size ==> Free(cs[n].use) || cs[n].use.Top?;
    if a + size in cs && n < a + size {
      assert Before(cs, n, a + size);
    }
    assert m in cs && Free(cs[n].use) ==> !Free(cs[m].use) && !cs[m].use.Top?;
  }

  lemma {:induction false} MergedFront(cs: Chunks, cs': Chunks, base: nat, end: nat, head: map<nat, nat>, foot: map<nat, nat>,
                                       head': map<nat, nat>, foot': map<nat, nat>, p: nat, a: nat, size: nat)
    requires Tiled(cs, base, end) && Tagged(cs, base, head, foot) && Tiled(cs', base, end) && Tagged(cs', base, head', foot')
    requires Merged(cs, cs', end, p, a, size) && cs[p].use.InUse? && a in cs
    ensures p - a == Front(cs, p)
  {
    assert ChunkOk(cs, base, end, p) && ChunkOk(cs, base, end, a) && TagAt(cs, base, head, foot, a);
    if a < p {
      // The chunk at a is free and what follows it is not, so that is p.
      assert Before(cs, a, p);
      assert Free(cs[a].use);
      var n := a + cs[a].size;
      assert n in cs && !Free(cs[n].use) && !cs[n].use.Top?;
      assert n == p;
      assert FreeInFront(cs, a, p);
    }
    forall b: nat | FreeInFront(cs, b, p)
      ensures b == a
    {
      assert ChunkOk(cs, base, end, b);
      assert b < a ==> Before(cs, b, a);
      assert a < b ==> Before(cs, a, b);
      assert b < a ==> TagAt(cs', base, head', foot', b);
    }
  }

  /** The run that consolidation builds is p with its free neighbours. */
  lemma {:induction false} MergedIsFreedRun(cs: Chunks, cs': Chunks, base: nat, end: nat, head: map<nat, nat>, foot: map<nat, nat>,
                                            head': map<nat, nat>, foot': map<nat, nat>, p: nat, a: nat, size: nat)
    requires Tiled(cs, base, end) && Tagged(cs, base, head, foot) && Tiled(cs', base, end) && Tagged(cs', base, head', foot')
    requires Merged(cs, cs', end, p, a, size) && cs[p].use.InUse? && a in cs
    ensures size == FreedRun(cs, p)
  {
    hide Tiled, Tagged, Merged, Front;
    MergedBehind(cs, cs', base, end, head, foot, head', foot', p, a, size);
    MergedFront(cs, cs', base, end, head, foot, head', foot', p, a, size);
  }

  // ---------- Where the top chunk begins ----------

  /** With empty fastbins the top chunk begins right behind the last chunk in use. */
  lemma {:induction false} TopFollowsUse(cs: Chunks, base: nat, end: nat, head: map<nat, nat>, foot: map<nat, nat>, top: nat, p: nat, n: nat)
    requires Tiled(cs, base, end) && Tagged(cs, base, head, foot) && top in cs && cs[top].use.Top?
    requires (forall q {:trigger cs[q]} :: q in cs ==> !cs[q].use.Fast?) && (p in cs ==> !cs[p].use.InUse?)
    ensures cs[top].size >= n <==> LastBytesUnused(cs, base, end, p, n)
  {
    assert ChunkOk(cs, base, end, top);
    forall q | q in cs && q != p && cs[q].use.InUse?
      ensures q + cs[q].size <= top
    {
      assert q < top ==> Before(cs, q, top);
      assert top < q ==> Before(cs, top, q);
      assert ChunkOk(cs, base, end, q);
    }
    if top != base {
      var b := Predecessor(cs, base, end, top);
      assert TagAt(cs, base, head, foot, b) && ChunkOk(cs, base, end, b);
      assert cs[b].use.InUse?;
    }
  }

  /** Only callers' chunks matter for the last bytes. */
  lemma SameUseSameLastBytes(cs: Chunks, cs': Chunks, base: nat, end: nat, p: nat, n: nat)
    requires p in cs && Owned(cs') == Owned(cs) - {p}
    ensures LastBytesUnused(cs, base, end, p, n) <==> LastBytesUnused(cs', base, end, p, n)
    ensures p in cs' ==> !cs'[p].use.InUse?
  {
    assert p !in Owned(cs');
    forall q | q != p
      ensures (q in cs && cs[q].use.InUse?) <==> (q in cs' && cs'[q].use.InUse?)
      ensures q in cs && cs[q].use.InUse? ==> q in cs' && cs'[q].size == cs[q].size
    {
      assert q in Owned(cs) <==> q in Owned(cs');
      assert q in Owned(cs) ==> Owned(cs)[q] == Owned(cs')[q];
    }
  }

  // ---------- Arenas whose only allocation must not be freed or shrunk ----------

  /** Where the limits lie: a chunk of n bytes in front of a top chunk of t bytes. */
  lemma {:induction false} FreeTrimsIff(n: nat, t: nat)
    requires n > 0 && t > 0
    ensures var cs := map[0x1000 := Chunk(32, InUse), 0x1020 := Chunk(n, InUse), 0x1020 + n := Chunk(t, Top)];
      FreeTrims(cs, 0x1000, 0x1020 + n + t, 0x1020) <==> n > 80 && n + t >= 0x4_0000
  {
    var cs := map[0x1000 := Chunk(32, InUse), 0x1020 := Chunk(n, InUse), 0x1020 + n := Chunk(t, Top)];
    NoneInFront(cs, 0x1020);
    assert cs[0x1000].use.InUse? && cs[0x1020 + n] == Chunk(t, Top);
  }

  /** With a fastbin chunk between the two, which is not merged though it is not in use. */
  lemma {:induction false} FreeBehindFastTrimsIff(n: nat, t: nat)
    requires n > 0 && t > 0
    ensures var cs := map[0x1000 := Chunk(32, InUse), 0x1020 := Chunk(n, InUse), 0x1020 + n := Chunk(32, Fast), 0x1040 + n := Chunk(t, Top)];
      FreeTrims(cs, 0x1000, 0x1040 + n + t, 0x1020) <==> n >= 0x2_0000 && n + 32 + t >= 0x4_0000
  {
    var cs := map[0x1000 := Chunk(32, InUse), 0x1020 := Chunk(n, InUse), 0x1020 + n := Chunk(32, Fast), 0x1040 + n := Chunk(t, Top)];
    NoneInFront(cs, 0x1020);
    assert cs[0x1000].use.InUse? && cs[0x1020 + n] == Chunk(32, Fast);
  }

  lemma NoneInFront(cs: Chunks, p: nat)
    requires forall b {:trigger cs[b]} :: b in cs ==> !Free(cs[b].use)
    ensures Front(cs, p) == 0
  {
    assert forall b: nat {:trigger FreeInFront(cs, b, p)} :: !FreeInFront(cs, b, p);
  }

  /** One chunk of 64 KiB in front of a top chunk of 256 KiB: freeing it asks for less memory. */
  lemma {:induction false} FreeTrimsSmallArena()
    ensures var cs := map[0x1000 := Chunk(0x1_0000, InUse), 0x1_1000 := Chunk(0x4_0000, Top)];
      && Arena(cs, map[0x1000 := 0x1_0001, 0x1_1000 := 0x4_0001], map[], 0x1_1000, 0x1000, 0x5_1000)
      && FreeTrims(cs, 0x1000, 0x5_1000, 0x1000)
  {
    var cs := map[0x1000 := Chunk(0x1_0000, InUse), 0x1_1000 := Chunk(0x4_0000, Top)];
    var head := map[0x1000 := 0x1_0001, 0x1_1000 := 0x4_0001];
    forall p | p in cs
      ensures ChunkOk(cs, 0x1000, 0x5_1000, p) && TagAt(cs, 0x1000, head, map[], p)
    {
    }
    forall p, q | p in cs && q in cs && p < q
      ensures Before(cs, p, q)
    {
    }
  }

  /** The same arena: shrinking the chunk to 32 bytes gives back 64 KiB but 32 bytes in front of the 256 KiB.
      Giving back 80 bytes is harmless: they go to a fastbin. */
  lemma {:induction false} ShrinkTrimsSmallArena()
    ensures var cs := map[0x1000 := Chunk(0x1_0000, InUse), 0x1_1000 := Chunk(0x4_0000, Top)];
      RestTrims(cs, 0x5_1000, 0x1000, 0x1_1000, 32) && !RestTrims(cs, 0x5_1000, 0x1000, 0x1_1000, 0xFFB0)
  {
  }

  /** A chunk of 192 KiB in front of a top chunk of 256 KiB: so does giving back 128 KiB in front of an aligned
      spot. */
  lemma {:induction false} LeaderTrimsSmallArena()
    ensures var cs := map[0x1000 := Chunk(0x3_0000, InUse), 0x3_1000 := Chunk(0x4_0000, Top)];
      FrontTrims(cs, 0x7_1000, 0x1000, 0x2_0000)
  {
    var cs := map[0x1000 := Chunk(0x3_0000, InUse), 0x3_1000 := Chunk(0x4_0000, Top)];
    assert forall b: nat {:trigger FreeInFront(cs, b, 0x1000)} :: !FreeInFront(cs, b, 0x1000);
  }
}
