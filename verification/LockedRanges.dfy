/** Any number of threads on one virtual range allocator behind its spinlock, as a machine of atomic steps.
    `test_and_set` and `clear` are single steps, and so is every access of an operation to the shared list:
    a thread in the middle of its critical section can be overtaken by any other thread's steps.  List nodes
    are a limited supply: `pool` is the number of nodes the list can have.  The theorem: whatever the
    schedule, one thread at most is between `lock` and `unlock`, each operation that takes the lock releases it
    once, and the results are those of some sequential order. */
module LockedRanges {
  import opened Machine
  import opened Segments
  import opened SegmentLaws
  import opened SegmentTheorems
  import opened NodeSupply

  datatype Call = Allocate(n: u64, align: u64) | Release(page: u64, n: u64)

  datatype Answer = Run(page: Option<nat>) | Done(ok: bool)

  // ---------- What one call does when nothing interferes ----------

  datatype Effect = Effect(answer: Answer, list: seq<Seg>)

  /** The sequential allocator. */
  function Apply(s: seq<Seg>, total: nat, pool: nat, c: Call): Effect {
    match c
    case Allocate(n, align) =>
      if n == 0 then Effect(Run(None), s)
      else var r := AllocFrom(s, n, align, pool, 0); Effect(Run(r.page), r.list)
    case Release(page, n) =>
      var f := FreeWith(s, total, page, n, pool);
      Effect(Done(f.ok), f.list)
  }

  // ---------- The steps of a critical section ----------

  /** Where a thread is between `lock` and `unlock`: walking the list, at one of the surgery steps on a
      node, or about to unlock. */
  datatype At = Walk(k: nat) | Pad(k: nat) | Take(k: nat, page: nat) | Use(k: nat, page: nat)
              | Back(k: nat) | Front(k: nat) | Clear(k: nat) | Prev(k: nat) | Next(k: nat)
              | Leave(answer: Answer)

  datatype Local = Local(list: seq<Seg>, at: At)

  /** One access of an allocation to the shared list.  A split that finds no node passes the segment by. */
  function AllocStep(s: seq<Seg>, pool: nat, n: nat, align: u64, at: At): Local {
    match at
    case Walk(k) =>
      if k >= |s| then Local(s, Leave(Run(None)))
      else if Fits(s[k], n, align) then Local(s, Pad(k))
      else Local(s, Walk(k + 1))
    case Pad(k) =>
      if k < |s| && s[k].start <= AlignedStart(s[k], align) < s[k].start + s[k].npages then
        var page := AlignedStart(s[k], align);
        if page == s[k].start then Local(s, Take(k, page))
        else if |s| < pool then Local(SplitAt(s, k, page - s[k].start), Take(k + 1, page))
        else Local(s, Walk(k + 1))
      else Local(s, Leave(Run(None)))
    case Take(k, page) =>
      if k >= |s| || n == 0 || n >= s[k].npages then Local(s, Use(k, page))
      else if |s| < pool then Local(SplitAt(s, k, n), Use(k, page))
      else Local(s, Walk(k + 1))
    case Use(k, page) =>
      if k < |s| then Local(Mark(s, k, false), Leave(Run(Some(page)))) else Local(s, Leave(Run(None)))
    case _ => Local(s, Leave(Run(None)))
  }

  /** One access of a release.  The end of the range is a 64-bit sum; a split that has nothing to cut, or finds
      no node, refuses the call. */
  function FreeStep(s: seq<Seg>, pool: nat, page: u64, n: u64, at: At): Local {
    match at
    case Walk(k) =>
      if k >= |s| then Local(s, Leave(Done(false)))
      else if !s[k].IsFree() && s[k].start <= page < s[k].start + s[k].npages then Local(s, Back(k))
      else Local(s, Walk(k + 1))
    case Back(k) =>
      if k >= |s| || Add64(page, n) > s[k].start + s[k].npages then Local(s, Leave(Done(false)))
      else if Add64(page, n) == s[k].start + s[k].npages then Local(s, Front(k))
      else if s[k].start < Add64(page, n) && |s| < pool then Local(SplitAt(s, k, Add64(page, n) - s[k].start), Front(k))
      else Local(s, Leave(Done(false)))
    case Front(k) =>
      if k >= |s| || page <= s[k].start then Local(s, Clear(k))
      else if page - s[k].start < s[k].npages && |s| < pool then Local(SplitAt(s, k, page - s[k].start), Clear(k + 1))
      else Local(s, Leave(Done(false)))
    case Clear(k) =>
      if k < |s| then Local(Mark(s, k, true), Prev(k)) else Local(s, Leave(Done(true)))
    case Prev(k) =>
      if 0 < k < |s| && s[k - 1].IsFree() then Local(MergeAt(s, k - 1), Next(k - 1)) else Local(s, Next(k))
    case Next(k) =>
      if k < |s| then Local(MergeNext(s, k), Leave(Done(true))) else Local(s, Leave(Done(true)))
    case _ => Local(s, Leave(Done(false)))
  }

  function SectionStep(s: seq<Seg>, pool: nat, c: Call, at: At): Local {
    match c
    case Allocate(n, align) => AllocStep(s, pool, n, align, at)
    case Release(page, n) => FreeStep(s, pool, page, n, at)
  }

  /** How many more steps a critical section can take. */
  function Left(s: seq<Seg>, at: At): nat {
    match at
    case Walk(k) => 8 * Behind(s, k) + 8
    case Pad(k) => 8 * Behind(s, k) + 7 case Take(k, _) => 8 * Behind(s, k) + 6 case Use(_, _) => 1
    case Back(_) => 6 case Front(_) => 5 case Clear(_) => 4 case Prev(_) => 3 case Next(_) => 2
    case Leave(_) => 0
  }

  function Behind(s: seq<Seg>, k: nat): nat {
    if k < |s| then |s| - k else 0
  }

  lemma StepShrinks(s: seq<Seg>, pool: nat, c: Call, at: At)
    requires !at.Leave?
    ensures Left(SectionStep(s, pool, c, at).list, SectionStep(s, pool, c, at).at) < Left(s, at)
  {
    hide Fits, AlignedStart;
  }

  /** Running the section to its end without interference. */
  function Finish(s: seq<Seg>, pool: nat, c: Call, at: At): Effect
    decreases Left(s, at)
  {
    match at
    case Leave(a) => Effect(a, s)
    case _ =>
      StepShrinks(s, pool, c, at);
      var l := SectionStep(s, pool, c, at);
      Finish(l.list, pool, c, l.at)
  }

  /** The calls that take the lock. */
  predicate Locks(total: nat, c: Call) {
    match c
    case Allocate(n, align) => n > 0
    case Release(page, n) => n > 0 && page < total
  }

  // ---------- An undisturbed section is the sequential call ----------

  lemma FinishStep(s: seq<Seg>, pool: nat, c: Call, at: At)
    requires !at.Leave?
    ensures Finish(s, pool, c, at) == Finish(SectionStep(s, pool, c, at).list, pool, c, SectionStep(s, pool, c, at).at)
  {
  }

  lemma FinishLeave(s: seq<Seg>, pool: nat, c: Call, a: Answer)
    ensures Finish(s, pool, c, Leave(a)) == Effect(a, s)
  {
  }

  /** From segment k on, whatever the supply of nodes. */
  lemma {:induction false} AllocSection(s: seq<Seg>, pool: nat, n: u64, align: u64, k: nat)
    requires n > 0
    ensures var r := AllocFrom(s, n, align, pool, k);
            Finish(s, pool, Allocate(n, align), Walk(k)) == Effect(Run(r.page), r.list)
    decreases |s| - k
  {
    hide Finish, CarveAt, SplitAt, Mark, Fits, AlignedStart;
    var c := Allocate(n, align);
    FinishStep(s, pool, c, Walk(k));
    if k >= |s| {
      FinishLeave(s, pool, c, Run(None));
    } else if !Fits(s[k], n, align) {
      AllocSection(s, pool, n, align, k + 1);
    } else {
      FitsInside(s[k], n, align);
      FinishStep(s, pool, c, Pad(k));
      var page := AlignedStart(s[k], align);
      var pad := page - s[k].start;
      CarveInSteps(s, k, pad, n);
      if pad == 0 {
        TakeSection(s, pool, n, align, k, page);
        if n < s[k].npages && |s| >= pool {
          AllocSection(s, pool, n, align, k + 1);
        }
      } else if |s| >= pool {
        AllocSection(s, pool, n, align, k + 1);
      } else {
        var t := SplitAt(s, k, pad);
        SplitParts(s, k, pad);
        TakeSection(t, pool, n, align, k + 1, page);
        if pad + n < s[k].npages && |t| >= pool {
          AllocSection(t, pool, n, align, k + 2);
        }
      }
    }
  }

  lemma SplitParts(s: seq<Seg>, k: nat, left: nat)
    requires k < |s| && 0 < left < s[k].npages
    ensures var t := SplitAt(s, k, left);
      && |t| == |s| + 1 && t[k] == Seg(s[k].start, left, s[k].use)
      && t[k + 1] == Seg(s[k].start + left, s[k].npages - left, s[k].use)
  {
  }

  /** The second split and the mark. */
  lemma {:induction false} TakeSection(s: seq<Seg>, pool: nat, n: u64, align: u64, k: nat, page: nat)
    requires 0 < n && k < |s| && n <= s[k].npages
    ensures Finish(s, pool, Allocate(n, align), Take(k, page))
         == if n < s[k].npages && |s| >= pool then Finish(s, pool, Allocate(n, align), Walk(k + 1))
            else Effect(Run(Some(page)), Taken(s, k, n))
  {
    hide Finish, SplitAt, Mark;
    var c := Allocate(n, align);
    FinishStep(s, pool, c, Take(k, page));
    if n == s[k].npages || |s| < pool {
      var t := if n < s[k].npages then SplitAt(s, k, n) else s;
      if n < s[k].npages {
        SplitParts(s, k, n);
      }
      FinishStep(t, pool, c, Use(k, page));
      FinishLeave(Mark(t, k, false), pool, c, Run(Some(page)));
    }
  }

  lemma {:induction false} WalkToUsed(s: seq<Seg>, pool: nat, page: u64, n: u64, k: nat)
    requires k <= |s|
    ensures Finish(s, pool, Release(page, n), Walk(k))
         == match UsedIndexFrom(s, page, k)
            case None => Effect(Done(false), s)
            case Some(i) => Finish(s, pool, Release(page, n), Back(i))
    decreases |s| - k
  {
    hide Finish;
    FinishStep(s, pool, Release(page, n), Walk(k));
    if k == |s| {
      FinishLeave(s, pool, Release(page, n), Done(false));
    } else if s[k].IsFree() || !(s[k].start <= page < s[k].start + s[k].npages) {
      WalkToUsed(s, pool, page, n, k + 1);
    }
  }

  lemma {:induction false} FreeSection(s: seq<Seg>, total: nat, pool: nat, page: u64, n: u64)
    requires n > 0 && page < total
    ensures Finish(s, pool, Release(page, n), Walk(0)) == Apply(s, total, pool, Release(page, n))
  {
    hide Finish, FreeIn, UsedIndexFrom;
    WalkToUsed(s, pool, page, n, 0);
    if UsedIndex(s, page).Some? {
      BackSection(s, pool, UsedIndex(s, page).value, page, n);
    }
  }

  /** The split behind the range, and what follows. */
  lemma {:induction false} BackSection(s: seq<Seg>, pool: nat, k: nat, page: u64, n: u64)
    requires n > 0 && k < |s| && !s[k].IsFree() && s[k].start <= page < s[k].start + s[k].npages
    ensures var f := FreeIn(s, k, page, n, pool); Finish(s, pool, Release(page, n), Back(k)) == Effect(Done(f.ok), f.list)
  {
    hide Finish, SplitAt, ReleaseAt;
    var c := Release(page, n);
    var end, sum := s[k].start + s[k].npages, Add64(page, n);
    FinishStep(s, pool, c, Back(k));
    if sum > end {
      FinishLeave(s, pool, c, Done(false));
    } else if sum == end {
      FrontSection(s, s, pool, k, page, n);
    } else if s[k].start < sum && |s| < pool {
      SplitParts(s, k, sum - s[k].start);
      FrontSection(s, SplitAt(s, k, sum - s[k].start), pool, k, page, n);
    } else {
      FinishLeave(s, pool, c, Done(false));
    }
  }

  /** The split in front of the range: it has nothing to cut if the end wrapped. */
  lemma {:induction false} FrontSection(s: seq<Seg>, t: seq<Seg>, pool: nat, k: nat, page: u64, n: u64)
    requires n > 0 && k < |s| && !s[k].IsFree() && s[k].start <= page < s[k].start + s[k].npages
    requires s[k].start < Add64(page, n) <= s[k].start + s[k].npages
    requires t == if Add64(page, n) < s[k].start + s[k].npages then SplitAt(s, k, Add64(page, n) - s[k].start) else s
    requires k < |t| && t[k].start == s[k].start && t[k].npages == Add64(page, n) - s[k].start
    ensures Finish(t, pool, Release(page, n), Front(k))
         == if page + n >= TWO64 || (page > s[k].start && |t| >= pool) then Effect(Done(false), t)
            else Effect(Done(true), ReleaseAt(s, k, page, n))
  {
    hide Finish, SplitAt, ReleaseAt;
    var c := Release(page, n);
    FinishStep(t, pool, c, Front(k));
    if page + n >= TWO64 || (page > s[k].start && |t| >= pool) {
      FinishLeave(t, pool, c, Done(false));
    } else {
      ClearSection(s, t, pool, k, page, n);
    }
  }

  /** The mark and the two fusions. */
  lemma {:induction false} ClearSection(s: seq<Seg>, t: seq<Seg>, pool: nat, k: nat, page: u64, n: u64)
    requires n > 0 && k < |s| && !s[k].IsFree() && s[k].start <= page && page + n <= s[k].start + s[k].npages
    requires t == if page + n < s[k].start + s[k].npages then SplitAt(s, k, page + n - s[k].start) else s
    requires k < |t| && t[k].start == s[k].start && t[k].npages == page + n - s[k].start
    ensures var left := page - s[k].start;
      Finish(if left > 0 then SplitAt(t, k, left) else t, pool, Release(page, n), Clear(if left > 0 then k + 1 else k))
      == Effect(Done(true), ReleaseAt(s, k, page, n))
  {
    hide Finish, SplitAt, Replace, ReleaseParts, MergeAt;
    var c := Release(page, n);
    var left := page - s[k].start;
    ReleaseInSteps(s, k, page, n);
    var u := if left > 0 then SplitAt(t, k, left) else t;
    var j := MidIndex(s[k], k, page);
    FinishStep(u, pool, c, Clear(j));
    var v := Mark(u, j, true);
    FinishStep(v, pool, c, Prev(j));
    var m := if j > 0 && v[j - 1].IsFree() then j - 1 else j;
    var w := MergePrev(v, j);
    MergeShorter(v, j);
    FinishStep(w, pool, c, Next(m));
    FinishLeave(MergeNext(w, m), pool, c, Done(true));
  }

  lemma MergeShorter(s: seq<Seg>, k: nat)
    requires k < |s|
    ensures k > 0 ==> |MergeAt(s, k - 1)| == |s| - 1
  {
  }

  lemma {:induction false} SectionIsApply(s: seq<Seg>, total: nat, pool: nat, c: Call)
    requires Locks(total, c)
    ensures Finish(s, pool, c, Walk(0)) == Apply(s, total, pool, c)
  {
    match c
    case Allocate(n, align) => AllocSection(s, pool, n, align, 0);
    case Release(page, n) => FreeSection(s, total, pool, page, n);
  }

  // ---------- The machine ----------

  datatype Phase = Idle | Spinning(call: Call) | Inside(call: Call, at: At)

  datatype Thread = Thread(todo: seq<Call>, phase: Phase)

  /** A completed call. */
  datatype Event = Event(thread: nat, call: Call, answer: Answer)

  /** The shared list and the lock, the threads, and the history: completed calls, `lock`s and `unlock`s. */
  datatype State = State(list: seq<Seg>, locked: bool, threads: seq<Thread>, log: seq<Event>, locks: nat, unlocks: nat)

  /** Calls that return before taking the lock. */
  function EarlyAnswer(c: Call): Answer {
    match c
    case Allocate(_, _) => Run(None)
    case Release(_, n) => Done(n == 0)
  }

  /** One atomic step of thread t. */
  function Step(s: State, total: nat, pool: nat, t: nat): State
    requires t < |s.threads|
  {
    var th := s.threads[t];
    match th.phase
    case Idle =>
      if th.todo == [] then s
      else
        var c := th.todo[0];
        if Locks(total, c) then s.(threads := s.threads[t := Thread(th.todo[1..], Spinning(c))])
        else s.(threads := s.threads[t := Thread(th.todo[1..], Idle)], log := s.log + [Event(t, c, EarlyAnswer(c))])
    case Spinning(c) =>
      // test_and_set: the old value decides whether to go on spinning.
      if s.locked then s
      else s.(locked := true, threads := s.threads[t := Thread(th.todo, Inside(c, Walk(0)))], locks := s.locks + 1)
    case Inside(c, at) =>
      if at.Leave? then
        s.(locked := false, threads := s.threads[t := Thread(th.todo, Idle)], log := s.log + [Event(t, c, at.answer)],
           unlocks := s.unlocks + 1)
      else
        var l := SectionStep(s.list, pool, c, at);
        s.(list := l.list, threads := s.threads[t := Thread(th.todo, Inside(c, l.at))])
  }

  /** A schedule names the thread that takes each step. */
  function Execute(s: State, total: nat, pool: nat, schedule: seq<nat>): (r: State)
    requires forall i :: 0 <= i < |schedule| ==> schedule[i] < |s.threads|
    ensures |r.threads| == |s.threads|
    decreases |schedule|
  {
    if schedule == [] then s
    else Step(Execute(s, total, pool, schedule[..|schedule| - 1]), total, pool, schedule[|schedule| - 1])
  }

  function Start(list: seq<Seg>, programs: seq<seq<Call>>): State {
    State(list, false, seq(|programs|, i requires 0 <= i < |programs| => Thread(programs[i], Idle)), [], 0, 0)
  }

  // ---------- Sequential histories ----------

  /** The list after the logged calls, one after the other. */
  function Replay(list: seq<Seg>, total: nat, pool: nat, log: seq<Event>): seq<Seg> {
    if log == [] then list
    else Apply(Replay(list, total, pool, log[..|log| - 1]), total, pool, log[|log| - 1].call).list
  }

  /** Every logged answer is what that sequential run gives. */
  ghost predicate Explained(list: seq<Seg>, total: nat, pool: nat, log: seq<Event>) {
    log == [] ||
    (var t, e := log[..|log| - 1], log[|log| - 1];
     Explained(list, total, pool, t) && e.answer == Apply(Replay(list, total, pool, t), total, pool, e.call).answer)
  }

  /** The calls of thread t in the log, in order. */
  function CallsOf(log: seq<Event>, t: nat): seq<Call> {
    if log == [] then []
    else
      var e := log[|log| - 1];
      CallsOf(log[..|log| - 1], t) + (if e.thread == t then [e.call] else [])
  }

  function Current(p: Phase): seq<Call> {
    match p
    case Idle => []
    case Spinning(c) => [c]
    case Inside(c, _) => [c]
  }

  lemma {:induction false} LogMore(list: seq<Seg>, total: nat, pool: nat, log: seq<Event>, e: Event)
    ensures Replay(list, total, pool, log + [e]) == Apply(Replay(list, total, pool, log), total, pool, e.call).list
    ensures Explained(list, total, pool, log + [e]) <==>
      Explained(list, total, pool, log) && e.answer == Apply(Replay(list, total, pool, log), total, pool, e.call).answer
    ensures forall t: nat :: CallsOf(log + [e], t) == CallsOf(log, t) + (if e.thread == t then [e.call] else [])
  {
    assert (log + [e])[..|log|] == log;
  }

  /** What holds whatever the schedule: at most the one thread that took the lock is inside; without it the
      list is the sequential one; with it, letting it finish gives the sequential effect of its call; and
      each thread's completed calls are the first ones of its program. */
  ghost predicate Inv(s: State, total: nat, pool: nat, list: seq<Seg>, programs: seq<seq<Call>>) {
    && |s.threads| == |programs| && s.locks == s.unlocks + (if s.locked then 1 else 0)
    && Explained(list, total, pool, s.log)
    && (!s.locked ==> s.list == Replay(list, total, pool, s.log) && NobodyInside(s))
    && (s.locked ==> exists h {:trigger Holds(s, total, pool, list, h)} :: 0 <= h < |s.threads| && Holds(s, total, pool, list, h))
    && (forall t {:trigger InOrder(s, total, programs, t)} :: 0 <= t < |s.threads| ==> InOrder(s, total, programs, t))
  }

  /** Thread t has completed the first calls of its program and is at the next one. */
  ghost predicate InOrder(s: State, total: nat, programs: seq<seq<Call>>, t: nat)
    requires |s.threads| == |programs| && t < |programs|
  {
    && CallsOf(s.log, t) + Current(s.threads[t].phase) + s.threads[t].todo == programs[t]
    && (!s.threads[t].phase.Idle? ==> Locks(total, s.threads[t].phase.call))
  }

  ghost predicate NobodyInside(s: State) {
    forall t {:trigger s.threads[t]} :: 0 <= t < |s.threads| ==> !s.threads[t].phase.Inside?
  }

  /** Thread h alone is inside, and its section, run to the end, has the effect of its call. */
  ghost predicate Holds(s: State, total: nat, pool: nat, list: seq<Seg>, h: nat)
    requires h < |s.threads|
  {
    && s.threads[h].phase.Inside?
    && Finish(s.list, pool, s.threads[h].phase.call, s.threads[h].phase.at)
       == Apply(Replay(list, total, pool, s.log), total, pool, s.threads[h].phase.call)
    && forall t {:trigger s.threads[t]} :: 0 <= t < |s.threads| && t != h ==> !s.threads[t].phase.Inside?
  }

  // ---------- Every step keeps the invariant ----------

  /** A call that returns early does nothing, sequentially, either. */
  lemma EarlyIsApply(s: seq<Seg>, total: nat, pool: nat, c: Call)
    requires !Locks(total, c)
    ensures Apply(s, total, pool, c) == Effect(EarlyAnswer(c), s)
  {
  }

  /** The next call is fetched: it spins, or returns early. */
  lemma {:induction false} FetchKeeps(s: State, total: nat, pool: nat, list: seq<Seg>, programs: seq<seq<Call>>, t: nat)
    requires Inv(s, total, pool, list, programs) && t < |s.threads| && s.threads[t].phase.Idle? && s.threads[t].todo != []
    ensures Inv(Step(s, total, pool, t), total, pool, list, programs)
  {
    hide Apply, Finish, Replay, Explained, CallsOf, Locks;
    var th := s.threads[t];
    var c := th.todo[0];
    var s' := Step(s, total, pool, t);
    LogMore(list, total, pool, s.log, Event(t, c, EarlyAnswer(c)));
    if !Locks(total, c) {
      EarlyIsApply(Replay(list, total, pool, s.log), total, pool, c);
    }
    forall u | 0 <= u < |s'.threads|
      ensures InOrder(s', total, programs, u)
    {
      assert InOrder(s, total, programs, u);
      assert u == t ==> th.todo == [c] + th.todo[1..];
    }
    if s.locked {
      var h :| 0 <= h < |s.threads| && Holds(s, total, pool, list, h);
      assert Holds(s', total, pool, list, h);
    }
  }

  /** A successful `test_and_set`. */
  lemma {:induction false} TakeKeeps(s: State, total: nat, pool: nat, list: seq<Seg>, programs: seq<seq<Call>>, t: nat)
    requires Inv(s, total, pool, list, programs) && t < |s.threads| && s.threads[t].phase.Spinning? && !s.locked
    ensures Inv(Step(s, total, pool, t), total, pool, list, programs)
  {
    hide Apply, Finish, Replay, Explained, CallsOf, Locks;
    var s' := Step(s, total, pool, t);
    assert InOrder(s, total, programs, t);
    SectionIsApply(s.list, total, pool, s.threads[t].phase.call);
    forall u | 0 <= u < |s'.threads|
      ensures InOrder(s', total, programs, u)
    {
      assert InOrder(s, total, programs, u);
    }
    assert Holds(s', total, pool, list, t);
  }

  /** An access of the thread inside, or its `clear`. */
  lemma {:induction false} InsideKeeps(s: State, total: nat, pool: nat, list: seq<Seg>, programs: seq<seq<Call>>, t: nat)
    requires Inv(s, total, pool, list, programs) && t < |s.threads| && s.threads[t].phase.Inside?
    ensures Inv(Step(s, total, pool, t), total, pool, list, programs)
  {
    hide Apply, Finish, Replay, Explained, CallsOf, Locks, SectionStep;
    var c, at := s.threads[t].phase.call, s.threads[t].phase.at;
    var s' := Step(s, total, pool, t);
    assert s.locked;
    var h :| 0 <= h < |s.threads| && Holds(s, total, pool, list, h);
    assert h == t;
    if at.Leave? {
      FinishLeave(s.list, pool, c, at.answer);
      LogMore(list, total, pool, s.log, Event(t, c, at.answer));
    } else {
      FinishStep(s.list, pool, c, at);
      assert Holds(s', total, pool, list, t);
    }
    forall u | 0 <= u < |s'.threads|
      ensures InOrder(s', total, programs, u)
    {
      assert InOrder(s, total, programs, u);
    }
  }

  lemma {:induction false} StepKeepsInv(s: State, total: nat, pool: nat, list: seq<Seg>, programs: seq<seq<Call>>, t: nat)
    requires Inv(s, total, pool, list, programs) && t < |s.threads|
    ensures Inv(Step(s, total, pool, t), total, pool, list, programs)
  {
    hide Inv;
    match s.threads[t].phase
    case Idle =>
      if s.threads[t].todo != [] {
        FetchKeeps(s, total, pool, list, programs, t);
      }
    case Spinning(c) =>
      if !s.locked {
        TakeKeeps(s, total, pool, list, programs, t);
      }
    case Inside(c, at) => InsideKeeps(s, total, pool, list, programs, t);
  }

  /** Every interleaving of any number of threads. */
  lemma {:induction false} ExecutionKeepsInv(list: seq<Seg>, total: nat, pool: nat, programs: seq<seq<Call>>, schedule: seq<nat>)
    requires forall i :: 0 <= i < |schedule| ==> schedule[i] < |programs|
    ensures Inv(Execute(Start(list, programs), total, pool, schedule), total, pool, list, programs)
  {
    if schedule == [] {
      var s := Start(list, programs);
      forall u | 0 <= u < |programs|
        ensures InOrder(s, total, programs, u)
      {
        assert [] + [] + programs[u] == programs[u];
      }
    } else {
      ExecutionKeepsInv(list, total, pool, programs, schedule[..|schedule| - 1]);
      StepKeepsInv(Execute(Start(list, programs), total, pool, schedule[..|schedule| - 1]), total, pool, list, programs, schedule[|schedule| - 1]);
    }
  }

  /** Mutual exclusion, in every state of every run. */
  lemma {:induction false} MutualExclusion(list: seq<Seg>, total: nat, pool: nat, programs: seq<seq<Call>>, schedule: seq<nat>, t: nat, u: nat)
    requires forall i :: 0 <= i < |schedule| ==> schedule[i] < |programs|
    requires t < |programs| && u < |programs|
    ensures var s := Execute(Start(list, programs), total, pool, schedule);
            |s.threads| == |programs| && (s.threads[t].phase.Inside? && s.threads[u].phase.Inside? ==> t == u)
  {
    ExecutionKeepsInv(list, total, pool, programs, schedule);
  }

  // ---------- What callers may conclude ----------

  /** The call runs out of nodes between its two splits and leaves two free neighbours. */
  ghost predicate Short(s: seq<Seg>, pool: nat, c: Call) {
    c.Allocate? && c.n > 0 && |s| + 1 == pool && FirstTwoCuts(s, c.n, c.align)
  }

  /** Sequential calls keep the list a tiling, no longer than the nodes allow; and in normal form, exactly but for
      those that run short. */
  lemma {:induction false} ApplyKeepsList(s: seq<Seg>, total: nat, pool: nat, c: Call)
    requires Tiles(s, total) && total > 0 && |s| <= pool
    ensures Tiles(Apply(s, total, pool, c).list, total) && |Apply(s, total, pool, c).list| <= pool
    ensures NormalForm(s) ==> (NormalForm(Apply(s, total, pool, c).list) <==> !Short(s, pool, c))
  {
    hide AllocFrom, FreeWith, Tiles, NormalForm, FirstTwoCuts;
    match c
    case Allocate(n, align) =>
      if n > 0 {
        AllocKeepsTiles(s, total, n, align, pool, 0);
        if NormalForm(s) {
          AllocOutcome(s, total, n, align, pool);
        }
      }
    case Release(page, n) =>
      FreeKeepsList(s, total, page, n, pool);
  }

  /** No call of the log runs short. */
  ghost predicate NeverShort(list: seq<Seg>, total: nat, pool: nat, log: seq<Event>) {
    log == [] ||
    (var t := log[..|log| - 1];
     NeverShort(list, total, pool, t) && !Short(Replay(list, total, pool, t), pool, log[|log| - 1].call))
  }

  lemma {:induction false} ReplayKeepsList(list: seq<Seg>, total: nat, pool: nat, log: seq<Event>)
    requires Tiles(list, total) && total > 0 && |list| <= pool
    ensures Tiles(Replay(list, total, pool, log), total) && |Replay(list, total, pool, log)| <= pool
    ensures NormalForm(list) && NeverShort(list, total, pool, log) ==> NormalForm(Replay(list, total, pool, log))
  {
    hide Apply, Tiles, NormalForm, Short;
    if log != [] {
      ReplayKeepsList(list, total, pool, log[..|log| - 1]);
      ApplyKeepsList(Replay(list, total, pool, log[..|log| - 1]), total, pool, log[|log| - 1].call);
    }
  }

  /** Whatever the interleaving and the supply of nodes: the answers are those of a sequential run of the completed
      calls, in which each thread's calls come in the order of its program; and whenever the lock is free the list
      is the one that run leaves, in order, in normal form if no call ran short, and every `lock` has had its one
      `unlock`. */
  lemma {:induction false} HistoriesAreSequential(list: seq<Seg>, total: nat, pool: nat, programs: seq<seq<Call>>, schedule: seq<nat>)
    requires Tiles(list, total) && total > 0 && |list| <= pool && forall i :: 0 <= i < |schedule| ==> schedule[i] < |programs|
    ensures var s := Execute(Start(list, programs), total, pool, schedule);
      && Explained(list, total, pool, s.log)
      && (forall t: nat :: t < |programs| ==> CallsOf(s.log, t) <= programs[t])
      && (!s.locked ==> s.list == Replay(list, total, pool, s.log) && Tiles(s.list, total) && |s.list| <= pool && s.locks == s.unlocks)
      && (!s.locked && NormalForm(list) && NeverShort(list, total, pool, s.log) ==> NormalForm(s.list))
  {
    hide Tiles, NormalForm, Replay, Explained, CallsOf, NeverShort;
    var s := Execute(Start(list, programs), total, pool, schedule);
    ExecutionKeepsInv(list, total, pool, programs, schedule);
    ReplayKeepsList(list, total, pool, s.log);
    forall t: nat | t < |programs|
      ensures CallsOf(s.log, t) <= programs[t]
    {
      assert InOrder(s, total, programs, t);
    }
  }
}
