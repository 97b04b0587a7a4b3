/** The arena as callers see it: their chunks, and the gaps between them.  Fast and free chunks fill the gaps;
    once the fastbins are empty every gap is one free chunk and the last one is the top chunk. */
module ArenaGaps {
  import opened Machine
  import opened HeapSizes
  import opened HeapChunks

  // ---------- Chunks and callers ----------

  /** The chunks tile the arena, the words in memory say so, and the last chunk is the top.  There is no
      arena before the first extension. */
  ghost predicate Arena(c: Chunks, head: map<nat, nat>, foot: map<nat, nat>, top: nat, base: nat, end: nat) {
    if top == 0 then c == map[]
    else
      && 0 < base <= top < end <= base + 0x200_0000 && end < TWO64
      && Tiled(c, base, end) && Tagged(c, base, head, foot) && top in c && c[top].use.Top?
  }

  /** Chunk p of nb to nb + 31 bytes is new in the callers' hands, and nothing else changed there. */
  ghost predicate HasNew(was: map<nat, nat>, now: map<nat, nat>, p: nat, nb: nat) {
    p % 16 == 0 && p !in was && p in now && nb <= now[p] < nb + MINSIZE && now == was[p := now[p]]
  }

  /** The chunks in the hands of callers, with their sizes. */
  ghost function Owned(cs: Chunks): map<nat, nat> {
    map p | p in cs && cs[p].use.InUse? :: cs[p].size
  }

  /** p is the smallest free chunk that holds nb bytes. */
  ghost predicate BestFit(cs: Chunks, p: nat, nb: nat) {
    && p in cs && Free(cs[p].use) && cs[p].size >= nb
    && forall q {:trigger cs[q]} :: q in cs && Free(cs[q].use) && cs[q].size >= nb ==> cs[q].size >= cs[p].size
  }

  ghost predicate NoneFits(cs: Chunks, nb: nat) {
    forall q {:trigger cs[q]} :: q in cs && Free(cs[q].use) ==> cs[q].size < nb
  }

  // ---------- Gaps ----------

  /** No chunk of o meets [a, e). */
  ghost predicate Clear(o: map<nat, nat>, a: nat, e: nat) {
    forall q {:trigger o[q]} {:trigger q in o} :: q in o ==> q + o[q] <= a || e <= q
  }

  /** nb bytes can be had inside the arena with at least a minimal chunk left behind them. */
  ghost predicate RoomFor(o: map<nat, nat>, base: nat, end: nat, nb: nat) {
    exists a {:trigger RoomAt(o, base, end, nb, a)} :: RoomAt(o, base, end, nb, a)
  }

  ghost predicate RoomAt(o: map<nat, nat>, base: nat, end: nat, nb: nat, a: nat) {
    base <= a && a + nb + MINSIZE <= end && Clear(o, a, a + nb)
  }

  /** Chunk q of o ends at a. */
  ghost predicate Ends(o: map<nat, nat>, q: nat, a: nat) {
    q in o && q + o[q] == a
  }

  ghost predicate BeginsGap(o: map<nat, nat>, base: nat, a: nat) {
    a == base || exists q {:trigger Ends(o, q, a)} :: Ends(o, q, a)
  }

  /** The n bytes at a lie between two chunks of o, or between the base and the first one. */
  ghost predicate Gap(o: map<nat, nat>, base: nat, a: nat, n: nat) {
    n > 0 && BeginsGap(o, base, a) && a + n in o && Clear(o, a, a + n)
  }

  /** The last t bytes of the arena are what lies behind the last chunk of o. */
  ghost predicate Tail(o: map<nat, nat>, base: nat, end: nat, t: nat) {
    base + t <= end && BeginsGap(o, base, end - t) && Clear(o, end - t, end)
  }

  ghost predicate SomeGapFits(o: map<nat, nat>, base: nat, nb: nat) {
    exists a: nat, n: nat {:trigger Gap(o, base, a, n)} :: Gap(o, base, a, n) && n >= nb
  }

  /** The smallest gap that holds nb bytes begins at p. */
  ghost predicate BestGap(o: map<nat, nat>, base: nat, p: nat, nb: nat) {
    exists n: nat {:trigger Gap(o, base, p, n)} :: Gap(o, base, p, n) && n >= nb
      && forall a: nat, m: nat {:trigger Gap(o, base, a, m)} :: Gap(o, base, a, m) && m >= nb ==> n <= m
  }

  /** A gap whose size belongs in a later bin than the request: for requests of 4 GiB and more, whose bin is
      computed from the low 32 bits, such a gap may be too small. */
  ghost predicate LaterGap(o: map<nat, nat>, base: nat, nb: u64) {
    exists a: nat, n: nat {:trigger Gap(o, base, a, n)} :: Gap(o, base, a, n) && n < TWO32 && BinIndex(n) > BinIndex(nb)
  }

  // ---------- Gaps and free chunks ----------

  ghost predicate NoneFast(cs: Chunks) {
    forall p {:trigger cs[p]} :: p in cs ==> !cs[p].use.Fast?
  }

  /** The chunks are in order; some of them may be fast chunks. */
  ghost predicate Standing(cs: Chunks, head: map<nat, nat>, foot: map<nat, nat>, top: nat, base: nat, end: nat) {
    top != 0 && Arena(cs, head, foot, top, base, end)
  }

  lemma {:induction false} FreeIsGap(cs: Chunks, head: map<nat, nat>, foot: map<nat, nat>, top: nat, base: nat, end: nat, p: nat)
    requires Standing(cs, head, foot, top, base, end) && NoneFast(cs) && p in cs && Free(cs[p].use)
    ensures Gap(Owned(cs), base, p, cs[p].size)
  {
    var n := p + cs[p].size;
    assert ChunkOk(cs, base, end, p) && TagAt(cs, base, head, foot, p);
    assert n in cs && cs[n].use.InUse?;
    if p != base {
      var b := Predecessor(cs, base, end, p);
      assert ChunkOk(cs, base, end, b) && TagAt(cs, base, head, foot, b);
      assert Ends(Owned(cs), b, p);
    }
    forall q | q in Owned(cs)
      ensures q + cs[q].size <= p || n <= q
    {
      assert q < p ==> Before(cs, q, p);
      assert p < q ==> Before(cs, p, q);
    }
  }

  /** Where a gap or the tail begins, a chunk begins that is not in a caller's hands. */
  lemma {:induction false} ChunkAtGap(cs: Chunks, head: map<nat, nat>, foot: map<nat, nat>, top: nat, base: nat, end: nat, a: nat, e: nat)
    requires Standing(cs, head, foot, top, base, end) && BeginsGap(Owned(cs), base, a) && a < e && Clear(Owned(cs), a, e)
    ensures a in cs && !cs[a].use.InUse?
  {
    if a != base {
      var q :| Ends(Owned(cs), q, a);
      assert ChunkOk(cs, base, end, q);
    }
    assert ChunkOk(cs, base, end, a);
    assert cs[a].use.InUse? ==> a in Owned(cs);
  }

  lemma {:induction false} GapIsFree(cs: Chunks, head: map<nat, nat>, foot: map<nat, nat>, top: nat, base: nat, end: nat, a: nat, n: nat)
    requires Standing(cs, head, foot, top, base, end) && NoneFast(cs) && Gap(Owned(cs), base, a, n)
    ensures a in cs && Free(cs[a].use) && cs[a].size == n
  {
    ChunkAtGap(cs, head, foot, top, base, end, a, a + n);
    assert ChunkOk(cs, base, end, a) && Before(cs, a, a + n) && ChunkOk(cs, base, end, a + n) && TagAt(cs, base, head, foot, a);
    var m := a + cs[a].size;
    assert m in Owned(cs);
  }

  lemma {:induction false} TopIsTail(cs: Chunks, head: map<nat, nat>, foot: map<nat, nat>, top: nat, base: nat, end: nat)
    requires Standing(cs, head, foot, top, base, end) && NoneFast(cs)
    ensures Tail(Owned(cs), base, end, cs[top].size)
  {
    assert ChunkOk(cs, base, end, top);
    if top != base {
      var b := Predecessor(cs, base, end, top);
      assert ChunkOk(cs, base, end, b) && TagAt(cs, base, head, foot, b);
      assert Ends(Owned(cs), b, top);
    }
    forall q | q in Owned(cs)
      ensures q + cs[q].size <= top
    {
      assert ChunkOk(cs, base, end, q);
      assert q < top ==> Before(cs, q, top);
      assert top < q ==> Before(cs, top, q);
    }
  }

  lemma {:induction false} TailExists(cs: Chunks, head: map<nat, nat>, foot: map<nat, nat>, top: nat, base: nat, end: nat) returns (t: nat)
    requires Standing(cs, head, foot, top, base, end)
    ensures Tail(Owned(cs), base, end, t)
  {
    var e := top;
    assert ChunkOk(cs, base, end, top);
    forall q | q in Owned(cs)
      ensures q + cs[q].size <= top || end <= q
    {
      assert q < top ==> Before(cs, q, top);
      assert top < q ==> Before(cs, top, q);
      assert ChunkOk(cs, base, end, q);
    }
    while e != base
      invariant e in cs && !cs[e].use.InUse? && base <= e < end && Clear(Owned(cs), e, end)
      decreases e
    {
      var b := Predecessor(cs, base, end, e);
      assert ChunkOk(cs, base, end, b);
      if cs[b].use.InUse? {
        assert Ends(Owned(cs), b, e);
        break;
      }
      forall q | q in Owned(cs)
        ensures q + cs[q].size <= b || end <= q
      {
        assert q < b ==> Before(cs, q, b);
        assert b < q ==> Before(cs, b, q);
      }
      e := b;
    }
    t := end - e;
  }

  lemma {:induction false} TailIsOne(o: map<nat, nat>, base: nat, end: nat, t: nat, u: nat)
    requires Tail(o, base, end, t) && Tail(o, base, end, u) && forall q {:trigger o[q]} :: q in o ==> base <= q && q + o[q] <= end && o[q] > 0
    ensures t == u
  {
  }

  /** What is handed out was room. */
  lemma {:induction false} NewWasRoom(was: map<nat, nat>, cs: Chunks, head: map<nat, nat>, foot: map<nat, nat>, top: nat, base: nat, end: nat,
                                      p: nat, nb: nat)
    requires Standing(cs, head, foot, top, base, end) && HasNew(was, Owned(cs), p, nb)
    ensures RoomFor(was, base, end, nb)
  {
    var n := p + cs[p].size;
    assert ChunkOk(cs, base, end, p) && ChunkOk(cs, base, end, n);
    forall q | q in was
      ensures q + was[q] <= p || p + nb <= q
    {
      assert q in Owned(cs) && Owned(cs)[q] == was[q];
      assert q < p ==> Before(cs, q, p);
      assert p < q ==> Before(cs, p, q);
    }
    assert RoomAt(was, base, end, nb, p);
  }

  /** If neither a free chunk nor the top chunk serves, callers' chunks leave no room. */
  lemma {:induction false} NothingFitsNoRoom(cs: Chunks, head: map<nat, nat>, foot: map<nat, nat>, top: nat, base: nat, end: nat, nb: nat)
    requires Standing(cs, head, foot, top, base, end) && NoneFast(cs) && nb >= 32
    requires NoneFits(cs, nb) && cs[top].size < nb + MINSIZE
    ensures !RoomFor(Owned(cs), base, end, nb)
  {
    if RoomFor(Owned(cs), base, end, nb) {
      var a :| RoomAt(Owned(cs), base, end, nb, a);
      NoRoomAt(cs, head, foot, top, base, end, nb, a);
    }
  }

  lemma {:induction false} NoRoomAt(cs: Chunks, head: map<nat, nat>, foot: map<nat, nat>, top: nat, base: nat, end: nat, nb: nat, a: nat)
    requires Standing(cs, head, foot, top, base, end) && NoneFast(cs) && nb >= 32
    requires NoneFits(cs, nb) && cs[top].size < nb + MINSIZE && base <= a && a + nb + MINSIZE <= end
    ensures !Clear(Owned(cs), a, a + nb)
  {
    var p := ChunkOfByte(cs, base, end, a);
    var n := p + cs[p].size;
    assert ChunkOk(cs, base, end, p) && ChunkOk(cs, base, end, top) && TagAt(cs, base, head, foot, p);
    assert p < top ==> Before(cs, p, top);
    assert cs[p].use.InUse? ==> p in Owned(cs);
    assert Free(cs[p].use) ==> n in Owned(cs) && n < a + nb;
  }

  lemma {:induction false} NoneFitsNoGap(cs: Chunks, head: map<nat, nat>, foot: map<nat, nat>, top: nat, base: nat, end: nat, nb: nat)
    requires Standing(cs, head, foot, top, base, end) && NoneFast(cs) && NoneFits(cs, nb)
    ensures !SomeGapFits(Owned(cs), base, nb)
  {
    forall a: nat, n: nat | Gap(Owned(cs), base, a, n)
      ensures n < nb
    {
      GapIsFree(cs, head, foot, top, base, end, a, n);
    }
  }

  lemma {:induction false} BestFitIsBestGap(cs: Chunks, head: map<nat, nat>, foot: map<nat, nat>, top: nat, base: nat, end: nat, p: nat, nb: nat)
    requires Standing(cs, head, foot, top, base, end) && NoneFast(cs) && BestFit(cs, p, nb)
    ensures BestGap(Owned(cs), base, p, nb)
  {
    FreeIsGap(cs, head, foot, top, base, end, p);
    forall a: nat, m: nat | Gap(Owned(cs), base, a, m) && m >= nb
      ensures cs[p].size <= m
    {
      GapIsFree(cs, head, foot, top, base, end, a, m);
    }
  }

  /** The bin of a free chunk is later than the request's. */
  ghost predicate LaterChunk(cs: Chunks, nb: u64) {
    exists q {:trigger cs[q]} :: q in cs && Free(cs[q].use) && cs[q].size < TWO32 && BinIndex(cs[q].size) > BinIndex(nb)
  }

  lemma {:induction false} LaterChunkIsLaterGap(cs: Chunks, head: map<nat, nat>, foot: map<nat, nat>, top: nat, base: nat, end: nat, nb: u64)
    requires Standing(cs, head, foot, top, base, end) && NoneFast(cs)
    ensures LaterChunk(cs, nb) <==> LaterGap(Owned(cs), base, nb)
  {
    hide BinIndex;
    if LaterChunk(cs, nb) {
      var q :| q in cs && Free(cs[q].use) && cs[q].size < TWO32 && BinIndex(cs[q].size) > BinIndex(nb);
      FreeIsGap(cs, head, foot, top, base, end, q);
    }
    if LaterGap(Owned(cs), base, nb) {
      var a: nat, n: nat :| Gap(Owned(cs), base, a, n) && n < TWO32 && BinIndex(n) > BinIndex(nb);
      GapIsFree(cs, head, foot, top, base, end, a, n);
    }
  }
}
