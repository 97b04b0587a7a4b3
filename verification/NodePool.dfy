/** The list nodes of the virtual range allocator and the pool they come from: a fixed array of nodes
    with a stack of free indices, backed by a heap allocation that may fail. */
module NodePools {
  import opened Machine

  class Node {
    /** Position in the static pool: what subtracting the pool's base pointer yields. */
    const index: nat
    var valid: bool
    var dynamic: bool
    var isFree: bool
    var start: nat
    var npages: nat
    var prev: Node?
    var next: Node?

    constructor (index: nat)
      ensures this.index == index && !valid && !dynamic && !isFree
      ensures start == 0 && npages == 0 && prev == null && next == null
    {
      this.index := index;
      valid, dynamic, isFree := false, false, false;
      start, npages := 0, 0;
      prev, next := null, null;
    }

    predicate Blank()
      reads this
    {
      !isFree && start == 0 && npages == 0 && prev == null && next == null
    }

    method Fill(isFree: bool, start: nat, npages: nat, prev: Node?, next: Node?)
      modifies this`valid, this`isFree, this`start, this`npages, this`prev, this`next
      ensures valid && this.isFree == isFree && this.start == start && this.npages == npages
      ensures this.prev == prev && this.next == next
    {
      valid, this.isFree, this.start, this.npages := true, isFree, start, npages;
      this.prev, this.next := prev, next;
    }

    method Reset(dynamic: bool)
      modifies this
      ensures Blank() && valid && this.dynamic == dynamic
    {
      valid, this.dynamic, isFree := true, dynamic, false;
      start, npages, prev, next := 0, 0, null, null;
    }
  }

  ghost predicate Distinct(s: seq<nat>) {
    forall i, j :: 0 <= i < j < |s| ==> s[i] != s[j]
  }

  /** The elements of a sequence; as many as positions when they are distinct. */
  ghost function Elements(s: seq<nat>): (r: set<nat>)
    ensures forall x :: x in r <==> x in s
    ensures Distinct(s) ==> |r| == |s|
  {
    if s == [] then {}
    else
      var t := s[..|s| - 1];
      assert s == t + [s[|s| - 1]];
      Elements(t) + {s[|s| - 1]}
  }

  function UpTo(n: nat): (r: set<nat>)
    ensures forall i :: i in r <==> 0 <= i < n
    ensures |r| == n
  {
    if n == 0 then {} else
      var rest := UpTo(n - 1);
      assert n - 1 !in rest;
      rest + {n - 1}
  }

  lemma {:induction false} FullSubset<T>(a: set<T>, b: set<T>)
    requires a <= b && |a| == |b|
    ensures a == b
  {
    if a != {} {
      var x :| x in a;
      FullSubset(a - {x}, b - {x});
    }
  }

  class NodePool {
    const nodes: seq<Node>
    const freeStack: array<nat>
    var top: nat
    /** The nodes handed out and not yet returned. */
    ghost var live: set<Node>
    /** Pool indices of the live static nodes. */
    ghost var taken: set<nat>
    /** How often the static pool was exhausted and the heap was asked for a node. */
    ghost var fallbacks: nat
    /** How many nodes the heap granted. */
    ghost var granted: nat
    /** Everything the pool may change: itself, its stack, its nodes and the heap nodes handed out. */
    ghost var repr: set<object>

    ghost predicate Valid()
      reads this, freeStack, live`dynamic
    {
      && this in repr && freeStack in repr && (forall i :: 0 <= i < |nodes| ==> nodes[i] in repr)
      && (forall n :: n in live ==> n in repr)
      && |nodes| == freeStack.Length && |taken| + top == |nodes|
      && (forall i :: 0 <= i < |nodes| ==> nodes[i].index == i && (i in taken <==> nodes[i] in live))
      && (forall i :: i in taken ==> i < |nodes|)
      && (forall i :: 0 <= i < top ==> freeStack[i] < |nodes| && freeStack[i] !in taken)
      && (forall i, j :: 0 <= i < j < top ==> freeStack[i] != freeStack[j])
      && (forall n :: n in live ==> if n.dynamic then n.index >= |nodes| else n.index < |nodes| && nodes[n.index] == n)
    }

    /** None of the nodes handed out is from the heap. */
    ghost predicate Static()
      reads this`live, live`dynamic
    {
      forall n {:trigger n in live} :: n in live ==> !n.dynamic
    }

    /** Then the live nodes and the stacked ones are the pool. */
    lemma {:induction false} StaticCount()
      requires Valid() && Static()
      ensures |live| + top == |nodes|
    {
      LiveAreTaken(live, taken);
      TakenAreLive(taken, live);
    }

    lemma {:induction false} LiveAreTaken(some: set<Node>, indices: set<nat>)
      requires forall n {:trigger n in some} :: n in some ==> n.index in indices && n.index < |nodes| && nodes[n.index] == n
      ensures |some| <= |indices|
      decreases some
    {
      if some != {} {
        var n :| n in some;
        LiveAreTaken(some - {n}, indices - {n.index});
      }
    }

    lemma {:induction false} TakenAreLive(indices: set<nat>, some: set<Node>)
      requires forall i :: 0 <= i < |nodes| ==> nodes[i].index == i
      requires forall i :: i in indices ==> i < |nodes| && nodes[i] in some
      ensures |indices| <= |some|
      decreases indices
    {
      if indices != {} {
        var i :| i in indices;
        TakenAreLive(indices - {i}, some - {nodes[i]});
      }
    }

    /** Live static nodes and the stacked indices partition the pool. */
    lemma {:induction false} PoolPartitioned()
      requires Valid()
      ensures forall i :: 0 <= i < |nodes| ==> (nodes[i] in live <==> i !in freeStack[..top])
    {
      var st := freeStack[..top];
      var free := Elements(st);
      assert taken !! free;
      assert |taken + free| == |taken| + |free|;
      FullSubset(taken + free, UpTo(|nodes|));
    }

    /** The pool of `size` nodes, all free; index 0 is on top of the stack. */
    constructor (size: nat)
      ensures Valid() && fresh(repr) && live == {} && top == size == |nodes| && fallbacks == 0 && granted == 0
    {
      var ns: seq<Node> := [];
      for i := 0 to size
        invariant |ns| == i && forall j :: 0 <= j < i ==> ns[j].index == j && fresh(ns[j])
      {
        var n := new Node(i);
        ns := ns + [n];
      }
      var st := new nat[size];
      for i := 0 to size
        invariant forall j :: 0 <= j < i ==> st[j] == size - 1 - j
      {
        st[i] := size - 1 - i;
      }
      nodes := ns;
      freeStack := st;
      top := size;
      live, taken, fallbacks, granted := {}, {}, 0, 0;
      new;
      repr := {this, freeStack} + set i | 0 <= i < |nodes| :: nodes[i];
    }

    /** A blank node: from the stack while it lasts, then from the heap, which may refuse. */
    method Allocate() returns (r: Node?)
      requires Valid()
      modifies repr
      ensures Valid()
      ensures r != null ==> r !in old(live) && live == old(live) + {r} && (fresh(r) || r in nodes)
      ensures fresh(repr - old(repr))
      ensures r != null ==> r.Blank()
      ensures r == null ==> live == old(live) && old(top) == 0
      ensures old(top) > 0 ==> top == old(top) - 1 && fallbacks == old(fallbacks) && granted == old(granted)
      ensures old(top) == 0 ==> top == 0 && granted == old(granted) + if r == null then 0 else 1
      ensures granted == old(granted) && old(Static()) ==> Static()
      ensures granted - old(granted) <= fallbacks - old(fallbacks)
      ensures forall n: Node :: n in old(live) ==> unchanged(n)
    {
      if top > 0 {
        r := PopStack();
        return;
      }
      r := HeapNode();
    }

    method PopStack() returns (r: Node)
      requires Valid() && top > 0
      modifies repr
      ensures Valid()
      ensures r !in old(live) && live == old(live) + {r} && r in nodes && repr == old(repr)
      ensures r.Blank()
      ensures top == old(top) - 1 && fallbacks == old(fallbacks) && granted == old(granted)
      ensures forall n: Node :: n in old(live) ==> unchanged(n)
      ensures old(Static()) ==> Static()
    {
      top := top - 1;
      var idx := freeStack[top];
      r := nodes[idx];
      r.Reset(false);
      taken := taken + {idx};
      live := live + {r};
    }

    /** `new (std::nothrow) Node()`: nothing is known about when the heap refuses. */
    method HeapNode() returns (r: Node?)
      requires Valid()
      modifies this
      ensures Valid() && top == old(top)
      ensures if r == null then live == old(live) && granted == old(granted)
              else fresh(r) && live == old(live) + {r} && granted == old(granted) + 1
      ensures fallbacks == old(fallbacks) + 1
      ensures fresh(repr - old(repr))
      ensures r != null ==> r.Blank()
    {
      fallbacks := fallbacks + 1;
      var refused: bool := *;
      if refused {
        return null;
      }
      granted := granted + 1;
      r := new Node(|nodes|);
      r.Reset(true);
      live, repr := live + {r}, repr + {r};
    }

    /** Give a node back: to the heap, or onto the stack, which cannot overflow. */
    method Release(n: Node)
      requires Valid() && n in live
      modifies this, freeStack, n
      ensures Valid()
      ensures live == old(live) - {n} && top >= old(top) && fallbacks == old(fallbacks) && granted == old(granted) && repr == old(repr)
      ensures old(Static()) ==> Static()
    {
      if n.dynamic {
        live := live - {n};
        return;
      }
      var idx := n.index;
      n.valid, n.isFree, n.next, n.prev := false, false, null, null;
      live, taken := live - {n}, taken - {idx};
      freeStack[top] := idx;
      top := top + 1;
    }
  }
}
