/** Whole runs of the linked-list allocator: call by call it does what the sequential allocator on list values
    does, so what holds of the one's runs, concurrent ones included, holds of the other's. */
module AllocatorRuns {
  import opened Machine
  import opened Segments
  import opened SegmentLaws
  import opened SegmentTheorems
  import opened NodeSupply
  import opened VirtualRanges
  import opened LockedRanges

  /** The calls that pass the allocator's assertion, for pages that 64-bit addresses name. */
  predicate Legal(c: Call) {
    match c
    case Allocate(n, align) => n == 0 || (align >= 1 && And(align, align - 1) == 0)
    case Release(page, n) => page * 4096 < TWO64
  }

  /** One call on the linked list.  If the heap grants no node, it has the effect and the answer of the sequential
      call with the nodes there are; with two spare nodes the heap is not asked. */
  method Perform(vma: VAddrAllocator, c: Call) returns (answer: Answer)
    requires vma.Valid() && !vma.locked && Legal(c)
    modifies vma, vma.pool.repr
    ensures vma.Valid() && vma.Same() && fresh(vma.pool.repr - old(vma.pool.repr)) && vma.StaysStatic()
    ensures vma.pool.granted == old(vma.pool.granted) ==>
      Effect(answer, vma.view) == Apply(old(vma.view), vma.totalPages, |old(vma.view)| + old(vma.pool.top), c)
    ensures old(vma.pool.top) >= 2 ==> vma.pool.fallbacks == old(vma.pool.fallbacks)
  {
    hide Pages, AllocFrom, FreeWith;
    match c
    case Allocate(n, align) =>
      var r;
      ghost var hit, page;
      r, hit, page := vma.AllocPages(n, align);
      answer := Run(None);
      if r.Some? {
        vma.PageOfVAddr(page);
        answer := Run(Some(vma.PageOf(r.value)));
      }
    case Release(page, n) =>
      vma.PageOfVAddr(page);
      var ok := vma.Free(vma.VAddr(page), n);
      answer := Done(ok);
  }

  /** After the first i calls of the log. */
  function After(list: seq<Seg>, total: nat, pool: nat, log: seq<Event>, i: nat): seq<Seg>
    requires i <= |log|
  {
    Replay(list, total, pool, log[..i])
  }

  /** At most u ranges are allocated at a time, and the pool has 2u + 3 nodes. */
  ghost predicate Ample(list: seq<Seg>, total: nat, pool: nat, log: seq<Event>, u: nat) {
    && NormalForm(list) && 2 * u + 3 <= pool
    && forall i {:trigger After(list, total, pool, log, i)} :: 0 <= i <= |log| ==> UsedCount(After(list, total, pool, log, i)) <= u
  }

  /** The linked list, given the calls that threads completed in the order of their log, answers as they were
      answered and ends as theirs, whatever the number of nodes, unless the heap grants one.  With an ample pool
      the heap is never asked, and the list stays in normal form. */
  method Serve(vma: VAddrAllocator, log: seq<Event>, ghost u: nat) returns (answers: seq<Answer>)
    requires vma.Valid() && !vma.locked && vma.pool.Static() && vma.totalPages > 0
    requires forall i :: 0 <= i < |log| ==> Legal(log[i].call)
    modifies vma, vma.pool.repr
    ensures vma.Valid() && vma.Same() && fresh(vma.pool.repr - old(vma.pool.repr)) && |answers| == |log|
    ensures vma.pool.granted == old(vma.pool.granted) ==>
      var list, total, pool := old(vma.view), vma.totalPages, |vma.pool.nodes|;
      && vma.view == Replay(list, total, pool, log)
      && (Explained(list, total, pool, log) ==> forall i :: 0 <= i < |log| ==> answers[i] == log[i].answer)
    ensures Ample(old(vma.view), vma.totalPages, |vma.pool.nodes|, log, u) ==>
      vma.pool.fallbacks == old(vma.pool.fallbacks) && vma.pool.granted == old(vma.pool.granted) && NormalForm(vma.view)
  {
    hide Apply, NormalForm, UsedCount, Legal;
    ghost var list, total, pool := vma.view, vma.totalPages, |vma.pool.nodes|;
    ghost var ample := Ample(list, total, pool, log, u);
    answers := [];
    assert log[..0] == [];
    for i := 0 to |log|
      invariant vma.Valid() && vma.Same() && fresh(vma.pool.repr - old(vma.pool.repr)) && vma.StaysStatic() && |answers| == i
      invariant vma.pool.granted == old(vma.pool.granted) ==>
        && vma.view == After(list, total, pool, log, i)
        && (Explained(list, total, pool, log[..i]) ==> forall j :: 0 <= j < i ==> answers[j] == log[j].answer)
      invariant ample ==> vma.pool.fallbacks == old(vma.pool.fallbacks) && NormalForm(vma.view)
    {
      var c := log[i].call;
      NodesLeft(vma);
      if ample {
        assert UsedCount(After(list, total, pool, log, i)) <= u;
        vma.StaticPoolSuffices();
        StaysNormal(vma.view, total, pool, c);
      }
      var answer := Perform(vma, c);
      answers := answers + [answer];
      assert log[..i + 1][..i] == log[..i] && log[..i + 1][i] == log[i];
    }
    assert log[..|log|] == log;
  }

  /** While no heap node is on the list, the list and the stack are the pool. */
  lemma NodesLeft(vma: VAddrAllocator)
    requires vma.Valid()
    ensures vma.pool.Static() ==> |vma.view| + vma.pool.top == |vma.pool.nodes|
    ensures Tiles(vma.view, vma.totalPages)
  {
    hide Tiles;
    if vma.pool.Static() {
      vma.pool.StaticCount();
    }
  }

  lemma StaysNormal(s: seq<Seg>, total: nat, pool: nat, c: Call)
    requires Tiles(s, total) && total > 0 && NormalForm(s) && |s| + 2 <= pool
    ensures NormalForm(Apply(s, total, pool, c).list)
  {
    ApplyKeepsList(s, total, pool, c);
  }

  /** The log only grows, so calls stand in it in the order of their ends: one that had ended before another
      began comes first. */
  lemma {:induction false} EndedCallsStayFirst(list: seq<Seg>, total: nat, pool: nat, programs: seq<seq<Call>>, schedule: seq<nat>, later: seq<nat>)
    requires forall i :: 0 <= i < |schedule| ==> schedule[i] < |programs|
    requires forall i :: 0 <= i < |later| ==> later[i] < |programs|
    ensures (schedule + later)[..|schedule|] == schedule
    ensures forall i :: 0 <= i < |schedule + later| ==> (schedule + later)[i] < |programs|
    ensures Execute(Start(list, programs), total, pool, schedule).log <= Execute(Start(list, programs), total, pool, schedule + later).log
    decreases |later|
  {
    if later == [] {
      assert schedule + later == schedule;
    } else {
      var t := later[..|later| - 1];
      EndedCallsStayFirst(list, total, pool, programs, schedule, t);
      assert (schedule + later)[..|schedule + later| - 1] == schedule + t;
    }
  }
}
