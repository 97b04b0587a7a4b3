/** The arena of the boundary-tag heap: chunks that tile it, and the tags that tell where they end.
    The chunk map is the abstract heap; `head` and `foot` are the `size` and `prev_size` words at the
    chunk addresses.  Every operation on the arena is a fusion of neighbours or a cut of one chunk. */
module HeapChunks {
  import opened Machine
  import opened HeapSizes

  /** Handed out; on a fastbin; on the unsorted list; in its bin; the chunk at the end of the arena. */
  datatype Use = InUse | Fast | Unsorted | Sorted | Top

  datatype Chunk = Chunk(size: nat, use: Use)

  type Chunks = map<nat, Chunk>

  /** On a bin list, the unsorted one included: consolidated free memory. */
  predicate Free(u: Use) {
    u.Unsorted? || u.Sorted?
  }

  // ---------- Tiling ----------

  predicate Aligned(x: int) {
    x % 16 == 0
  }

  ghost predicate ChunkOk(cs: Chunks, base: nat, end: nat, p: nat)
    requires p in cs
  {
    && cs[p].size >= 32 && Aligned(cs[p].size) && Aligned(p) && base <= p && p + cs[p].size <= end
    && (p + cs[p].size == end <==> cs[p].use.Top?) && (p + cs[p].size < end ==> p + cs[p].size in cs)
  }

  ghost predicate Before(cs: Chunks, p: nat, q: nat)
    requires p in cs
  {
    p + cs[p].size <= q
  }

  /** The chunks lie side by side from base to end, and the last one is the top chunk. */
  ghost predicate Tiled(cs: Chunks, base: nat, end: nat) {
    && base in cs && Aligned(end)
    && (forall p {:trigger ChunkOk(cs, base, end, p)} :: p in cs ==> ChunkOk(cs, base, end, p))
    && (forall p, q {:trigger Before(cs, p, q)} :: p in cs && q in cs && p < q ==> Before(cs, p, q))
  }

  /** Every byte of the arena lies in exactly one chunk. */
  lemma {:induction false} ChunkOfByte(cs: Chunks, base: nat, end: nat, x: nat) returns (p: nat)
    requires Tiled(cs, base, end) && base <= x < end
    ensures p in cs && p <= x < p + cs[p].size
    ensures forall q :: q in cs && q <= x < q + cs[q].size ==> q == p
  {
    p := base;
    assert ChunkOk(cs, base, end, p);
    while x >= p + cs[p].size
      invariant p in cs && p <= x
      decreases end - p
    {
      assert ChunkOk(cs, base, end, p);
      p := p + cs[p].size;
    }
    forall q | q in cs && q <= x < q + cs[q].size
      ensures q == p
    {
      assert q < p ==> Before(cs, q, p);
      assert p < q ==> Before(cs, p, q);
    }
  }

  /** Every chunk but the first has a predecessor. */
  lemma {:induction false} Predecessor(cs: Chunks, base: nat, end: nat, p: nat) returns (q: nat)
    requires Tiled(cs, base, end) && p in cs && p != base
    ensures q in cs && q + cs[q].size == p
  {
    assert ChunkOk(cs, base, end, p);
    q := ChunkOfByte(cs, base, end, p - 1);
    assert Before(cs, q, p);
  }

  // ---------- Fusing and cutting ----------

  /** One chunk for all of [a, e). */
  function Fuse(cs: Chunks, a: nat, e: nat, u: Use): Chunks
    requires a <= e
  {
    (map p | p in cs && (p < a || e <= p) :: cs[p])[a := Chunk(e - a, u)]
  }

  /** The first n bytes of chunk a for u, the rest for v. */
  function Cut(cs: Chunks, a: nat, n: nat, u: Use, v: Use): Chunks
    requires a in cs && n <= cs[a].size
  {
    cs[a := Chunk(n, u)][a + n := Chunk(cs[a].size - n, v)]
  }

  /** [a, e) is a run of whole chunks, fit to become one chunk of use u. */
  ghost predicate Fusable(cs: Chunks, end: nat, a: nat, e: nat, u: Use) {
    a in cs && a < e <= end && (e == end || e in cs) && (u.Top? <==> e == end)
  }

  lemma {:induction false} WholeSixteens(a: nat, b: nat)
    requires Aligned(a) && Aligned(b)
    ensures Aligned(b - a) && Aligned(a + b)
  {
    var p, q := a / 16, b / 16;
    assert a == 16 * p && b == 16 * q;
    DivModUnique(b - a, 16, q - p, 0);
    DivModUnique(a + b, 16, p + q, 0);
  }

  lemma {:induction false} FusedSize(cs: Chunks, base: nat, end: nat, a: nat, e: nat, u: Use)
    requires Tiled(cs, base, end) && Fusable(cs, end, a, e, u)
    ensures e - a >= 32 && Aligned(e - a) && a + cs[a].size <= e
  {
    assert ChunkOk(cs, base, end, a);
    if e in cs {
      assert ChunkOk(cs, base, end, e) && Before(cs, a, e);
    }
    WholeSixteens(a, e);
  }

  lemma {:induction false} FuseTiled(cs: Chunks, base: nat, end: nat, a: nat, e: nat, u: Use)
    requires Tiled(cs, base, end) && Fusable(cs, end, a, e, u)
    ensures Tiled(Fuse(cs, a, e, u), base, end)
  {
    hide Aligned;
    var t := Fuse(cs, a, e, u);
    forall p | p in t
      ensures ChunkOk(t, base, end, p)
    {
      FusedChunk(cs, base, end, a, e, u, p);
    }
    forall p, q | p in t && q in t && p < q
      ensures Before(t, p, q)
    {
      FusedOrder(cs, base, end, a, e, u, p, q);
    }
    assert base in t by {
      FusedBase(cs, base, end, a, e, u);
    }
  }

  lemma FusedBase(cs: Chunks, base: nat, end: nat, a: nat, e: nat, u: Use)
    requires Tiled(cs, base, end) && Fusable(cs, end, a, e, u)
    ensures base in Fuse(cs, a, e, u)
  {
    assert ChunkOk(cs, base, end, a);
  }

  lemma {:induction false} FusedChunk(cs: Chunks, base: nat, end: nat, a: nat, e: nat, u: Use, p: nat)
    requires Tiled(cs, base, end) && Fusable(cs, end, a, e, u) && p in Fuse(cs, a, e, u)
    ensures ChunkOk(Fuse(cs, a, e, u), base, end, p)
  {
    hide Aligned;
    FusedSize(cs, base, end, a, e, u);
    assert ChunkOk(cs, base, end, a);
    if p != a {
      assert ChunkOk(cs, base, end, p);
      assert p < a ==> Before(cs, p, a);
    }
  }

  lemma {:induction false} FusedOrder(cs: Chunks, base: nat, end: nat, a: nat, e: nat, u: Use, p: nat, q: nat)
    requires Tiled(cs, base, end) && Fusable(cs, end, a, e, u)
    requires p in Fuse(cs, a, e, u) && q in Fuse(cs, a, e, u) && p < q
    ensures Before(Fuse(cs, a, e, u), p, q)
  {
    hide Aligned;
    if p != a {
      assert Before(cs, p, q);
    }
  }

  ghost predicate Cuttable(cs: Chunks, a: nat, n: nat, u: Use, v: Use) {
    a in cs && n >= 32 && Aligned(n) && n + 32 <= cs[a].size && !u.Top? && (v.Top? <==> cs[a].use.Top?)
  }

  lemma {:induction false} CutTiled(cs: Chunks, base: nat, end: nat, a: nat, n: nat, u: Use, v: Use)
    requires Tiled(cs, base, end) && Cuttable(cs, a, n, u, v)
    ensures Tiled(Cut(cs, a, n, u, v), base, end) && a + n !in cs
  {
    hide Aligned;
    var t := Cut(cs, a, n, u, v);
    assert a + n in cs ==> Before(cs, a, a + n);
    forall p | p in t
      ensures ChunkOk(t, base, end, p)
    {
      CutChunk(cs, base, end, a, n, u, v, p);
    }
    forall p, q | p in t && q in t && p < q
      ensures Before(t, p, q)
    {
      CutOrder(cs, base, end, a, n, u, v, p, q);
    }
  }

  lemma {:induction false} CutChunk(cs: Chunks, base: nat, end: nat, a: nat, n: nat, u: Use, v: Use, p: nat)
    requires Tiled(cs, base, end) && Cuttable(cs, a, n, u, v) && p in Cut(cs, a, n, u, v)
    ensures ChunkOk(Cut(cs, a, n, u, v), base, end, p)
  {
    hide Aligned;
    assert ChunkOk(cs, base, end, a);
    WholeSixteens(a, n);
    WholeSixteens(n, cs[a].size);
    assert p != a + n ==> ChunkOk(cs, base, end, p);
  }

  lemma {:induction false} CutOrder(cs: Chunks, base: nat, end: nat, a: nat, n: nat, u: Use, v: Use, p: nat, q: nat)
    requires Tiled(cs, base, end) && Cuttable(cs, a, n, u, v) && a + n !in cs
    requires p in Cut(cs, a, n, u, v) && q in Cut(cs, a, n, u, v) && p < q
    ensures Before(Cut(cs, a, n, u, v), p, q)
  {
    hide Aligned;
    assert p in cs && q in cs ==> Before(cs, p, q);
    assert q in cs && a < q ==> Before(cs, a, q);
    assert p in cs && p < a ==> Before(cs, p, a);
    assert p in cs && a < p ==> Before(cs, a, p);
  }

  /** The top chunk after the arena has grown by k bytes. */
  function Extend(cs: Chunks, top: nat, k: nat): Chunks
    requires top in cs
  {
    cs[top := Chunk(cs[top].size + k, Top)]
  }

  lemma {:induction false} ExtendTiled(cs: Chunks, base: nat, end: nat, top: nat, k: nat)
    requires Tiled(cs, base, end) && top in cs && cs[top].use.Top? && Aligned(k)
    ensures Tiled(Extend(cs, top, k), base, end + k)
  {
    hide Aligned;
    var t := Extend(cs, top, k);
    assert ChunkOk(cs, base, end, top);
    WholeSixteens(cs[top].size, k);
    WholeSixteens(end, k);
    forall p | p in t
      ensures ChunkOk(t, base, end + k, p)
    {
      assert ChunkOk(cs, base, end, p);
      assert p < top ==> Before(cs, p, top);
      assert top < p ==> Before(cs, top, p);
    }
    forall p, q | p in t && q in t && p < q
      ensures Before(t, p, q)
    {
      assert Before(cs, p, q) && ChunkOk(cs, base, end, q);
    }
  }

  // ---------- Tags ----------

  /** `chunksize`: the size word without its two flag bits. */
  function SizeBits(h: nat): nat {
    h - h % 4
  }

  predicate PrevInUse(h: nat) {
    h % 2 == 1
  }

  function UseBit(u: Use): nat {
    if Free(u) then 0 else 1
  }

  /** Chunk p's size word holds its size and a bit; the next chunk's bit tells whether p is free; a free
      chunk has a matching footer, and no free chunk nor the top chunk behind it. */
  ghost predicate TagAt(cs: Chunks, base: nat, head: map<nat, nat>, foot: map<nat, nat>, p: nat)
    requires p in cs
  {
    var n := p + cs[p].size;
    && p in head && (head[p] == cs[p].size || head[p] == cs[p].size + 1) && (p == base ==> head[p] == cs[p].size + 1)
    && (n in cs ==> n in head && head[n] == cs[n].size + UseBit(cs[p].use))
    && (Free(cs[p].use) ==> n in cs && n in foot && foot[n] == cs[p].size && !Free(cs[n].use) && !cs[n].use.Top?)
  }

  /** How a size word is taken apart. */
  lemma WordParts(size: nat, bit: nat)
    requires size % 16 == 0 && bit <= 1
    ensures SizeBits(size + bit) == size && (PrevInUse(size + bit) <==> bit == 1)
  {
    var q := size / 16;
    assert size == 16 * q;
    DivModUnique(size + bit, 4, 4 * q, bit);
    DivModUnique(size + bit, 2, 8 * q, bit);
  }

  ghost predicate Tagged(cs: Chunks, base: nat, head: map<nat, nat>, foot: map<nat, nat>) {
    forall p {:trigger TagAt(cs, base, head, foot, p)} :: p in cs ==> TagAt(cs, base, head, foot, p)
  }

  /** Other chunks' words are as they were. */
  ghost predicate SameWords(cs: Chunks, head: map<nat, nat>, foot: map<nat, nat>, head': map<nat, nat>, foot': map<nat, nat>,
                            a: nat, e: nat)
  {
    && (forall p {:trigger head'[p]} {:trigger p in head'} :: p in cs && p in head && (p < a || e < p) ==> p in head' && head'[p] == head[p])
    && (forall p {:trigger foot'[p]} {:trigger p in foot'} :: p in cs && p in foot && (p <= a || e < p) ==> p in foot' && foot'[p] == foot[p])
  }

  /** The words that end a chunk of size n and use u at e. */
  ghost predicate EndsAt(cs: Chunks, head': map<nat, nat>, foot': map<nat, nat>, e: nat, n: nat, u: Use) {
    && (e in cs ==> e in head' && head'[e] == cs[e].size + UseBit(u))
    && (Free(u) ==> e in cs && e in foot' && foot'[e] == n && !Free(cs[e].use) && !cs[e].use.Top?)
  }

  /** A size word with the old bit, the words at the far end, and no free neighbour in front of free
      memory: then fusing keeps all tags right. */
  lemma {:induction false} FuseTagged(cs: Chunks, base: nat, end: nat, head: map<nat, nat>, foot: map<nat, nat>,
                                      a: nat, e: nat, u: Use, head': map<nat, nat>, foot': map<nat, nat>)
    requires Tiled(cs, base, end) && Tagged(cs, base, head, foot) && Fusable(cs, end, a, e, u)
    requires SameWords(cs, head, foot, head', foot', a, e) && EndsAt(cs, head', foot', e, e - a, u)
    requires TagAt(cs, base, head, foot, a) && a in head' && head'[a] == e - a + (head[a] - cs[a].size)
    requires Free(u) || u.Top? ==> head[a] == cs[a].size + 1
    ensures Tagged(Fuse(cs, a, e, u), base, head', foot')
  {
    hide Aligned;
    var t := Fuse(cs, a, e, u);
    assert ChunkOk(cs, base, end, a);
    forall p | p in t
      ensures TagAt(t, base, head', foot', p)
    {
      assert p != a ==> TagAt(cs, base, head, foot, p) && ChunkOk(cs, base, end, p);
      assert p < a ==> Before(cs, p, a);
      assert p > e ==> Before(cs, e, p);
    }
  }

  /** The same for a cut: the first part is not free. */
  lemma {:induction false} CutTagged(cs: Chunks, base: nat, end: nat, head: map<nat, nat>, foot: map<nat, nat>,
                                     a: nat, n: nat, u: Use, v: Use, head': map<nat, nat>, foot': map<nat, nat>)
    requires Tiled(cs, base, end) && Tagged(cs, base, head, foot) && Cuttable(cs, a, n, u, v) && !Free(u)
    requires var e := a + cs[a].size;
      SameWords(cs, head, foot, head', foot', a, e) && EndsAt(cs, head', foot', e, cs[a].size - n, v)
    requires TagAt(cs, base, head, foot, a) && a in head' && head'[a] == n + (head[a] - cs[a].size)
    requires a + n in head' && head'[a + n] == cs[a].size - n + 1
    ensures Tagged(Cut(cs, a, n, u, v), base, head', foot')
  {
    var t := Cut(cs, a, n, u, v);
    CutTiled(cs, base, end, a, n, u, v);
    hide Aligned, Cuttable;
    assert ChunkOk(cs, base, end, a) && TagAt(cs, base, head, foot, a);
    forall p | p in t
      ensures TagAt(t, base, head', foot', p)
    {
      assert p != a && p != a + n ==> TagAt(cs, base, head, foot, p) && ChunkOk(cs, base, end, p);
      assert p < a ==> Before(cs, p, a);
      assert p > a && p != a + n ==> Before(cs, a, p);
      assert a + cs[a].size in cs ==> ChunkOk(cs, base, end, a + cs[a].size);
    }
  }

  /** Fusing one chunk only changes its use. */
  lemma {:induction false} FuseSelf(cs: Chunks, base: nat, end: nat, a: nat, u: Use)
    requires Tiled(cs, base, end) && a in cs
    ensures Fuse(cs, a, a + cs[a].size, u) == cs[a := Chunk(cs[a].size, u)]
  {
    forall p | p in cs && a < p
      ensures a + cs[a].size <= p
    {
      assert Before(cs, a, p);
    }
    assert ChunkOk(cs, base, end, a);
  }

  /** `|= PREV_INUSE`. */
  function WithBit(h: nat): nat {
    if PrevInUse(h) then h else h + 1
  }

  // ---------- Taking chunks out of service ----------

  /** cs is `was` with all chunks of [a, e), a run of whole chunks, taken over for a while. */
  ghost predicate Held(was: Chunks, cs: Chunks, end: nat, a: nat, e: nat) {
    && a in was && a < e <= end && (e == end || e in was)
    && (forall q {:trigger q in cs} {:trigger q in was} :: q in cs <==> q in was)
    && (forall q {:trigger cs[q]} {:trigger was[q]} :: q in cs && (q < a || e <= q) ==> cs[q] == was[q])
    && (forall q {:trigger cs[q]} :: q in cs && a <= q < e ==> cs[q].use.InUse? && cs[q].size == was[q].size)
  }

  lemma {:induction false} HoldOne(cs: Chunks, base: nat, end: nat, p: nat)
    requires Tiled(cs, base, end) && p in cs && cs[p].use.InUse?
    ensures Held(cs, cs, end, p, p + cs[p].size)
  {
    assert ChunkOk(cs, base, end, p);
    forall q | q in cs && p <= q < p + cs[p].size
      ensures q == p
    {
      assert p < q ==> Before(cs, p, q);
    }
  }

  /** The neighbours of a held run join it. */
  lemma {:induction false} HoldNext(was: Chunks, cs: Chunks, base: nat, end: nat, a: nat, e: nat)
    requires Tiled(was, base, end) && Held(was, cs, end, a, e) && e in was
    ensures Held(was, cs[e := Chunk(was[e].size, InUse)], end, a, e + was[e].size)
  {
    assert ChunkOk(was, base, end, e);
    forall q | q in was && e < q
      ensures e + was[e].size <= q
    {
      assert Before(was, e, q);
    }
  }

  lemma {:induction false} HoldPrev(was: Chunks, cs: Chunks, base: nat, end: nat, a: nat, e: nat, b: nat)
    requires Tiled(was, base, end) && Held(was, cs, end, a, e) && b in was && b + was[b].size == a
    ensures Held(was, cs[b := Chunk(was[b].size, InUse)], end, b, e)
  {
    assert ChunkOk(was, base, end, b);
    forall q | q in was && b < q
      ensures a <= q
    {
      assert Before(was, b, q);
    }
  }

  lemma {:induction false} HeldFuse(was: Chunks, cs: Chunks, end: nat, a: nat, e: nat, u: Use)
    requires Held(was, cs, end, a, e)
    ensures Fuse(cs, a, e, InUse)[a := Chunk(e - a, u)] == Fuse(was, a, e, u)
    ensures Fuse(cs, a, e, u) == Fuse(was, a, e, u)
  {
  }

  // ---------- Growing into the top chunk ----------

  /** Chunk p, in front of the top chunk, grows to n bytes. */
  function MoveTop(cs: Chunks, p: nat, top: nat, n: nat, end: nat): Chunks
    requires p + n <= end
  {
    (cs - {top})[p := Chunk(n, InUse)][p + n := Chunk(end - (p + n), Top)]
  }

  ghost predicate Movable(cs: Chunks, p: nat, top: nat, n: nat, end: nat) {
    && p in cs && cs[p].use.InUse? && top in cs && cs[top].use.Top? && top == p + cs[p].size
    && Aligned(n) && cs[p].size <= n && p + n + 32 <= end
  }

  lemma {:induction false} TopIsLast(cs: Chunks, base: nat, end: nat, top: nat)
    requires Tiled(cs, base, end) && top in cs && cs[top].use.Top?
    ensures end !in cs && forall q {:trigger q in cs} :: q in cs ==> q <= top
  {
    assert ChunkOk(cs, base, end, top);
    assert end in cs ==> ChunkOk(cs, base, end, end);
    forall q | q in cs
      ensures q <= top
    {
      assert ChunkOk(cs, base, end, q);
      assert top < q ==> Before(cs, top, q);
    }
  }

  lemma {:induction false} MoveTopTiled(cs: Chunks, base: nat, end: nat, p: nat, top: nat, n: nat)
    requires Tiled(cs, base, end) && Movable(cs, p, top, n, end)
    ensures Tiled(MoveTop(cs, p, top, n, end), base, end)
  {
    hide Aligned;
    var t := MoveTop(cs, p, top, n, end);
    assert ChunkOk(cs, base, end, p) && ChunkOk(cs, base, end, top);
    TopIsLast(cs, base, end, top);
    WholeSixteens(p, n);
    WholeSixteens(p + n, end);
    forall q | q in t
      ensures ChunkOk(t, base, end, q)
    {
      assert q in cs ==> ChunkOk(cs, base, end, q);
      assert q in cs && q < p ==> Before(cs, q, p);
      assert q in cs && p < q ==> Before(cs, p, q);
    }
    forall q, r | q in t && r in t && q < r
      ensures Before(t, q, r)
    {
      assert q in cs && r in cs ==> Before(cs, q, r);
      assert q in cs && q < p ==> Before(cs, q, p);
      assert q in cs && p < q ==> Before(cs, p, q);
      assert r in cs && p < r ==> Before(cs, p, r);
    }
  }

  lemma {:induction false} MoveTopTagged(cs: Chunks, base: nat, end: nat, head: map<nat, nat>, foot: map<nat, nat>,
                                       p: nat, top: nat, n: nat, head': map<nat, nat>)
    requires Tiled(cs, base, end) && Tagged(cs, base, head, foot) && Movable(cs, p, top, n, end)
    requires TagAt(cs, base, head, foot, p) && p in head' && head'[p] == n + (head[p] - cs[p].size)
    requires p + n in head' && head'[p + n] == end - (p + n) + 1
    requires forall q {:trigger head'[q]} {:trigger q in head'} :: q in cs && q in head && q < p ==> q in head' && head'[q] == head[q]
    ensures Tagged(MoveTop(cs, p, top, n, end), base, head', foot)
  {
    hide Aligned;
    var t := MoveTop(cs, p, top, n, end);
    assert ChunkOk(cs, base, end, p) && ChunkOk(cs, base, end, top);
    TopIsLast(cs, base, end, top);
    forall q | q in t
      ensures TagAt(t, base, head', foot, q)
    {
      assert q in cs ==> TagAt(cs, base, head, foot, q) && ChunkOk(cs, base, end, q);
      assert q in cs && q < p ==> Before(cs, q, p);
      assert q in cs && p < q ==> Before(cs, p, q);
    }
  }
}
