/** The heap's own consistency checks, written over the words they read: size and footer words, links, bin
    map and flags.  In every valid state all of them pass, for every chunk and every list. */
module HeapCheckers {
  import opened Machine
  import opened HeapSizes
  import opened HeapChunks
  import opened BinLists
  import opened BinContents
  import BinMaps
  import opened ArenaGaps
  import opened BoundaryTagHeap

  /** The chunk behind p, as p's size word tells. */
  ghost function NextChunk(m: MallocState, p: nat): nat
    requires p in m.head
    reads m`head
  {
    p + SizeBits(m.head[p])
  }

  /** `inuse(p)`: the next chunk's bit. */
  ghost predicate ClaimsUse(m: MallocState, p: nat)
    reads m`head
  {
    p in m.head && NextChunk(m, p) in m.head && PrevInUse(m.head[NextChunk(m, p)])
  }

  /** `do_check_chunk`, for chunks that are not mapped. */
  ghost predicate ChunkChecks(m: MallocState, p: nat)
    reads m`head, m`top, m`base
  {
    p in m.head &&
    if p != m.top then m.base <= p && NextChunk(m, p) <= m.top
    else SizeBits(m.head[p]) >= MINSIZE && PrevInUse(m.head[p])
  }

  /** `p->fd->bk == p` and `p->bk->fd == p`. */
  ghost predicate LinkChecks(m: MallocState, p: nat)
    reads m`fd, m`bk
  {
    && At(p) in m.fd && m.fd[At(p)] in m.bk && m.bk[m.fd[At(p)]] == At(p)
    && At(p) in m.bk && m.bk[At(p)] in m.fd && m.fd[m.bk[At(p)]] == At(p)
  }

  /** `do_check_free_chunk`: claims to be free, aligned, matching footer, fully consolidated, sane links. */
  ghost predicate FreeChecks(m: MallocState, p: nat)
    reads m`head, m`foot, m`fd, m`bk, m`top, m`base
  {
    && ChunkChecks(m, p) && NextChunk(m, p) in m.head && !ClaimsUse(m, p)
    && SizeBits(m.head[p]) >= MINSIZE && SizeBits(m.head[p]) % 16 == 0 && (p + 16) % 16 == 0
    && NextChunk(m, p) in m.foot && m.foot[NextChunk(m, p)] == SizeBits(m.head[p])
    && PrevInUse(m.head[p]) && (NextChunk(m, p) == m.top || ClaimsUse(m, NextChunk(m, p)))
    && LinkChecks(m, p)
  }

  /** `do_check_inuse_chunk`: claims to be in use and is surrounded by chunks that pass their checks. */
  ghost predicate UseChecks(m: MallocState, p: nat)
    reads m`head, m`foot, m`fd, m`bk, m`top, m`base
  {
    && ChunkChecks(m, p) && ClaimsUse(m, p)
    && (!PrevInUse(m.head[p]) ==>
          p in m.foot && m.foot[p] <= p && FreeChecks(m, p - m.foot[p]) && NextChunk(m, p - m.foot[p]) == p)
    && (var n := NextChunk(m, p); if n == m.top then ChunkChecks(m, n) else ClaimsUse(m, n) || FreeChecks(m, n))
  }

  /** `do_check_malloced_chunk` for a request of s bytes; `recycled` stands for the weaker form without the
      last assertion. */
  ghost predicate HandedOutChecks(m: MallocState, p: nat, s: nat, recycled: bool)
    reads m`head, m`foot, m`fd, m`bk, m`top, m`base
  {
    && UseChecks(m, p) && (p + 16) % 16 == 0
    && (var sz := SizeBits(m.head[p]); sz % 16 == 0 && sz >= MINSIZE && s <= sz < s + MINSIZE)
    && (recycled || PrevInUse(m.head[p]))
  }

  /** One chunk of bin i: it is free, in the bin of its size, and not larger than the one before. */
  ghost predicate BinChecks(m: MallocState, i: nat, p: nat)
    reads m`head, m`foot, m`fd, m`bk, m`top, m`base
  {
    && FreeChecks(m, p)
    && (i >= 2 ==>
          && SizeBits(m.head[p]) < TWO32 && BinIndex(SizeBits(m.head[p])) == i
          && (m.bk[At(p)] == Hdr(i) ||
              (m.bk[At(p)].At? && m.bk[At(p)].addr in m.head && SizeBits(m.head[m.bk[At(p)].addr]) >= SizeBits(m.head[p]))))
  }

  /** `get_binmap`. */
  ghost predicate MarkedBin(m: MallocState, i: nat)
    reads m`binmap
  {
    |m.binmap| == 4 && i < NBINS && BinMaps.Marked(m.binmap, i)
  }

  /** `do_check_malloc_state`: fastbins, bins and bin map, every chunk in use, and the top chunk.  The walks
      along the lists are those the links make. */
  ghost predicate StateChecks(m: MallocState)
    reads m
  {
    m.top != 0 ==>
      && Threaded(m.fd, m.bk, m.fastbins, m.lists)
      && (forall i, k {:trigger m.lists[i][k]} :: NBINS <= i < NLISTS && 0 <= k < |m.lists[i]| ==>
            var p := m.lists[i][k]; UseChecks(m, p) && NBINS + FastIndex(SizeBits(m.head[p])) == i && m.fastChunks)
      && (forall i {:trigger m.lists[i]} :: 2 <= i < NBINS && !MarkedBin(m, i) ==> m.lists[i] == [])
      && (forall i, k {:trigger m.lists[i][k]} :: 1 <= i < NBINS && 0 <= k < |m.lists[i]| ==> BinChecks(m, i, m.lists[i][k]))
      && (forall p {:trigger m.cs[p]} :: p in m.cs && (m.cs[p].use.InUse? || m.cs[p].use.Fast?) ==> UseChecks(m, p))
      && ChunkChecks(m, m.top)
  }

  lemma {:induction false} AnyChunkPasses(m: MallocState, p: nat)
    requires m.Valid() && p in m.cs
    ensures ChunkChecks(m, p) && SizeBits(m.head[p]) == m.cs[p].size
    ensures !m.cs[p].use.Top? ==> NextChunk(m, p) in m.head && (ClaimsUse(m, p) <==> !Free(m.cs[p].use))
  {
    m.ReadTags(m.cs, p);
    m.ReadTags(m.cs, m.top);
    assert p < m.top ==> Before(m.cs, p, m.top);
    assert m.top < p ==> Before(m.cs, m.top, p);
    if !m.cs[p].use.Top? {
      m.ReadTags(m.cs, p + m.cs[p].size);
    }
  }

  lemma {:induction false} FreeChunkPasses(m: MallocState, p: nat)
    requires m.Valid() && p in m.cs && Free(m.cs[p].use)
    ensures FreeChecks(m, p)
  {
    AnyChunkPasses(m, p);
    m.ReadTags(m.cs, p);
    m.FollowedByUse(m.cs, p);
    AnyChunkPasses(m, p + m.cs[p].size);
    assert TagAt(m.cs, m.base, m.head, m.foot, p);
    LinksPass(m, p);
  }

  lemma {:induction false} LinksPass(m: MallocState, p: nat)
    requires m.Valid() && p in m.cs && Free(m.cs[p].use)
    ensures LinkChecks(m, p)
  {
    var k := m.FindFree(m.cs, p);
    var i := ListOf(m.cs[p]);
    assert Ring(m.fd, m.bk, i, m.lists[i]);
    assert LinkedAt(m.fd, m.bk, i, m.lists[i], k) && LinkedAt(m.fd, m.bk, i, m.lists[i], k + 1);
  }

  lemma {:induction false} ChunkInUsePasses(m: MallocState, p: nat)
    requires m.Valid() && p in m.cs && (m.cs[p].use.InUse? || m.cs[p].use.Fast?)
    ensures UseChecks(m, p)
  {
    AnyChunkPasses(m, p);
    m.ReadTags(m.cs, p);
    if !PrevInUse(m.head[p]) {
      var b := m.FreeBefore(m.cs, p);
      FreeChunkPasses(m, b);
      AnyChunkPasses(m, b);
    }
    var n := p + m.cs[p].size;
    AnyChunkPasses(m, n);
    m.ReadTags(m.cs, n);
    if Free(m.cs[n].use) {
      FreeChunkPasses(m, n);
    }
  }

  lemma {:induction false} BinnedChunkPasses(m: MallocState, i: nat, k: nat)
    requires m.Valid() && m.top != 0 && 1 <= i < NBINS && k < |m.lists[i]|
    ensures BinChecks(m, i, m.lists[i][k])
  {
    var p := m.lists[i][k];
    m.ReadMember(m.cs, 0, i, k);
    FreeChunkPasses(m, p);
    m.RingAt(i, k);
    if i >= 2 && k > 0 {
      m.ReadMember(m.cs, 0, i, k - 1);
      m.SortedAt(i, k - 1, k);
    }
  }

  lemma {:induction false} FastChunkPasses(m: MallocState, i: nat, k: nat)
    requires m.Valid() && NBINS <= i < NLISTS && k < |m.lists[i]|
    ensures var p := m.lists[i][k]; UseChecks(m, p) && NBINS + FastIndex(SizeBits(m.head[p])) == i && m.fastChunks
  {
    var p := m.MemberOf(i, k);
    m.ReadTags(m.cs, p);
    MallocState.FastMember(m.cs, p, i - NBINS);
    ChunkInUsePasses(m, p);
  }

  /** All checks pass in every valid state. */
  lemma {:induction false} ValidStatePasses(m: MallocState)
    requires m.Valid()
    ensures StateChecks(m)
  {
    if m.top != 0 {
      forall i, k | NBINS <= i < NLISTS && 0 <= k < |m.lists[i]|
        ensures var p := m.lists[i][k]; UseChecks(m, p) && NBINS + FastIndex(SizeBits(m.head[p])) == i && m.fastChunks
      {
        FastChunkPasses(m, i, k);
      }
      forall i, k | 1 <= i < NBINS && 0 <= k < |m.lists[i]|
        ensures BinChecks(m, i, m.lists[i][k])
      {
        BinnedChunkPasses(m, i, k);
      }
      forall p | p in m.cs && (m.cs[p].use.InUse? || m.cs[p].use.Fast?)
        ensures UseChecks(m, p)
      {
        ChunkInUsePasses(m, p);
      }
      forall i | 2 <= i < NBINS && !MarkedBin(m, i)
        ensures m.lists[i] == []
      {
        m.UnmarkedIsEmpty(i);
      }
      AnyChunkPasses(m, m.top);
    }
  }

  /** The checks made on a chunk about to be handed out for s bytes pass; the last one, on chunks that did
      not come from a fastbin. */
  lemma {:induction false} NewChunkPasses(m: MallocState, p: nat, s: nat)
    requires m.Valid() && p in Owned(m.cs) && s <= Owned(m.cs)[p] < s + MINSIZE
    ensures HandedOutChecks(m, p, s, true)
    ensures m.FollowsUse(p) ==> HandedOutChecks(m, p, s, false)
  {
    ChunkInUsePasses(m, p);
    AnyChunkPasses(m, p);
    m.ReadTags(m.cs, p);
  }
}
