/** The growable array: raw storage whose slots are constructed, moved from and destroyed one by one. */
module Vectors {

  /** Raw storage, a live element, or an element that has been moved from and awaits its destructor. */
  datatype Slot<+T> = Raw | Live(value: T) | Moved

  /** The first n slots hold elements and the rest is raw storage. */
  predicate LiveUpTo<T>(s: seq<Slot<T>>, n: nat) {
    && n <= |s|
    && (forall i :: 0 <= i < n ==> s[i].Live?)
    && (forall i :: n <= i < |s| ==> s[i].Raw?)
  }

  /** The same, but the last of the n slots may have been moved from. */
  predicate LiveButLast<T>(s: seq<Slot<T>>, n: nat) {
    && n <= |s|
    && (forall i :: 0 <= i < n - 1 ==> s[i].Live?)
    && (n > 0 ==> !s[n - 1].Raw?)
    && (forall i :: n <= i < |s| ==> s[i].Raw?)
  }

  function Values<T>(s: seq<Slot<T>>, n: nat): (r: seq<T>)
    requires n <= |s| && forall i :: 0 <= i < n ==> s[i].Live?
    ensures |r| == n && forall i :: 0 <= i < n ==> r[i] == s[i].value
  {
    seq(n, i requires 0 <= i < n => s[i].value)
  }

  lemma ValuesAfter<T>(s: seq<Slot<T>>, n: nat, x: T)
    requires LiveUpTo(s, n) && n < |s|
    ensures LiveUpTo(s[n := Live(x)], n + 1) && Values(s[n := Live(x)], n + 1) == Values(s, n) + [x]
  {
  }

  /** The new value on its way down to its place: everything from i on has been moved up by one. */
  function Bubbled<T>(was: seq<T>, value: T, i: nat): (r: seq<T>)
    requires i <= |was|
  {
    was[..i] + [value] + was[i..]
  }

  lemma BubbleEnds<T>(was: seq<T>, value: T, idx: nat)
    requires idx <= |was|
    ensures Bubbled(was, value, |was|) == was + [value]
    ensures Bubbled(was, value, idx) == was[..idx] + [value] + was[idx..]
  {
  }

  lemma BubbleDown<T>(s: seq<Slot<T>>, n: nat, was: seq<T>, value: T, i: nat)
    requires LiveUpTo(s, n) && 0 < i <= |was| && Values(s, n) == Bubbled(was, value, i)
    ensures i < |s| && s[i].Live? && s[i - 1].Live?
    ensures var t := s[i := s[i - 1]][i - 1 := s[i]]; LiveUpTo(t, n) && Values(t, n) == Bubbled(was, value, i - 1)
  {
    var t := s[i := s[i - 1]][i - 1 := s[i]];
    assert Values(t, n) == Values(s, n)[i := Values(s, n)[i - 1]][i - 1 := Values(s, n)[i]];
  }

  /** The first n slots hold these values, but for slot i, which may have been moved from. */
  ghost predicate LiveBut<T>(s: seq<Slot<T>>, n: nat, i: nat, values: seq<T>) {
    && n <= |s| && n == |values|
    && (forall k :: 0 <= k < n ==> if k == i then !s[k].Raw? else s[k] == Live(values[k]))
    && (forall k :: n <= k < |s| ==> s[k].Raw?)
  }

  /** The elements after idx up to i have been moved down by one. */
  function ShiftedDown<T>(was: seq<T>, idx: nat, i: nat): seq<T>
    requires idx <= i < |was|
  {
    was[..idx] + was[idx + 1..i + 1] + was[i..]
  }

  lemma ShiftOne<T>(s: seq<Slot<T>>, n: nat, was: seq<T>, idx: nat, i: nat)
    requires idx <= i && i + 1 < n == |was| && LiveBut(s, n, i, ShiftedDown(was, idx, i))
    ensures i + 1 < |s| && s[i + 1].Live? && !s[i].Raw?
    ensures LiveBut(s[i := s[i + 1]][i + 1 := Moved], n, i + 1, ShiftedDown(was, idx, i + 1))
  {
    var a, b := ShiftedDown(was, idx, i), ShiftedDown(was, idx, i + 1);
    assert b == a[i := was[i + 1]];
  }

  lemma StartShift<T>(s: seq<Slot<T>>, n: nat, was: seq<T>, idx: nat)
    requires LiveUpTo(s, n) && Values(s, n) == was && idx < n
    ensures LiveBut(s, n, idx, ShiftedDown(was, idx, idx))
  {
    assert ShiftedDown(was, idx, idx) == was;
  }

  lemma EndShift<T>(s: seq<Slot<T>>, n: nat, was: seq<T>, idx: nat)
    requires idx < n == |was| && LiveBut(s, n, n - 1, ShiftedDown(was, idx, n - 1))
    ensures LiveButLast(s, n) && Values(s, n - 1) == was[..idx] + was[idx + 1..]
  {
    assert ShiftedDown(was, idx, n - 1)[..n - 1] == was[..idx] + was[idx + 1..];
  }

  class Vector<T> {
    var data: array<Slot<T>>
    var size: nat
    var capacity: nat
    ghost var built: nat
    ghost var destroyed: nat
    ghost var relocated: nat
    ghost var pushes: nat

    /** Every slot below size was constructed and not yet destroyed, every other one is raw. */
    ghost predicate Valid()
      reads this, data
    {
      && data.Length == capacity
      && LiveUpTo(data[..], size)
      && built == destroyed + size
    }

    ghost function Contents(): (r: seq<T>)
      requires Valid()
      reads this, data
      ensures |r| == size
    {
      Values(data[..], size)
    }

    /** The state of a vector that has only ever grown by `push_back`. */
    ghost predicate Doubling()
      reads this
    {
      && size <= pushes
      && (capacity == 0 ==> relocated == 0)
      && (capacity != 0 ==> relocated == capacity - 4 && (capacity == 4 || capacity < 2 * pushes))
    }

    /** Amortised cost: reallocation moves fewer than two elements per `push_back`. */
    lemma {:induction false} FewerThanTwoMovesEach()
      requires Valid() && Doubling() && pushes > 0
      ensures relocated < 2 * pushes
    {
      if capacity != 0 {
        assert relocated == capacity - 4;
      }
    }

    constructor ()
      ensures Valid() && Contents() == [] && Doubling() && fresh(data)
      ensures built == 0 && pushes == 0 && capacity == 0
    {
      data, size, capacity := new Slot<T>[0], 0, 0;
      built, destroyed, relocated, pushes := 0, 0, 0, 0;
    }

    /** The copy constructor: one allocation, no element moved. */
    constructor Copy(other: Vector<T>)
      requires other.Valid()
      ensures Valid() && Contents() == other.Contents() && fresh(data)
      ensures capacity == other.size && relocated == 0 && built == other.size && destroyed == 0
    {
      data, size, capacity := new Slot<T>[0], 0, 0;
      built, destroyed, relocated, pushes := 0, 0, 0, 0;
      new;
      Reserve(other.size);
      ghost var copy := data;
      for i := 0 to other.size
        invariant Valid() && fresh(data) && data == copy && capacity == other.size && size == i
        invariant relocated == 0 && built == i && destroyed == 0
        invariant other.Valid() && Contents() == other.Contents()[..i]
      {
        var value := other.data[i].value;
        assert value == other.Contents()[i];
        assert other.Contents()[..i + 1] == other.Contents()[..i] + [value];
        PushBack(value);
      }
      assert other.Contents()[..other.size] == other.Contents();
    }

    /** Every element is constructed once in the new storage and destroyed once in the old, which is all raw
        when it is given back. */
    method Reserve(newCapacity: nat)
      requires Valid()
      modifies this, data
      ensures Valid() && Contents() == old(Contents()) && size == old(size) && pushes == old(pushes)
      ensures capacity == if newCapacity <= old(capacity) then old(capacity) else newCapacity
      ensures if newCapacity <= old(capacity) then data == old(data) && built == old(built) && relocated == old(relocated)
              else fresh(data) && built == old(built) + size && relocated == old(relocated) + size
                   && forall i :: 0 <= i < old(data.Length) ==> old(data)[i].Raw?
    {
      if newCapacity <= capacity {
        return;
      }
      var newData := new Slot<T>[newCapacity](_ => Raw);
      for i := 0 to size
        invariant data == old(data) && fresh(newData) && newData.Length == newCapacity
        invariant size == old(size) && capacity == old(capacity) && pushes == old(pushes)
        invariant built == old(built) + i && destroyed == old(destroyed) + i && relocated == old(relocated) + i
        invariant forall k :: 0 <= k < i ==> newData[k] == old(data[k]) && data[k].Raw?
        invariant forall k :: i <= k < newCapacity ==> newData[k].Raw?
        invariant forall k :: i <= k < capacity ==> data[k] == old(data[k])
      {
        MoveConstruct(newData, i, data, i);
        Destroy(data, i);
        relocated := relocated + 1;
      }
      assert forall k :: 0 <= k < data.Length ==> data[k].Raw?;
      data := newData;
      capacity := newCapacity;
      assert Contents() == old(Contents());
    }

    /** `new (p) T(std::move(q))`: the target must be raw and the source live. */
    method MoveConstruct(to: array<Slot<T>>, i: nat, from: array<Slot<T>>, j: nat)
      requires i < to.Length && to[i].Raw? && j < from.Length && from[j].Live? && to != from
      modifies to, from, `built
      ensures to[..] == old(to[..])[i := old(from[j])] && from[..] == old(from[..])[j := Moved]
      ensures built == old(built) + 1
    {
      to[i], from[j] := from[j], Moved;
      built := built + 1;
    }

    /** `p->~T()`: there must be an object to destroy. */
    method Destroy(a: array<Slot<T>>, i: nat)
      requires i < a.Length && !a[i].Raw?
      modifies a, `destroyed
      ensures a[..] == old(a[..])[i := Raw] && destroyed == old(destroyed) + 1
    {
      a[i] := Raw;
      destroyed := destroyed + 1;
    }

    method PushBack(value: T)
      requires Valid()
      modifies this, data
      ensures Valid() && Contents() == old(Contents()) + [value]
      ensures data == old(data) || fresh(data)
      ensures capacity == if old(size < capacity) then old(capacity) else if old(capacity) == 0 then 4 else 2 * old(capacity)
      ensures relocated == old(relocated) + if old(size < capacity) then 0 else old(size)
      ensures old(size < capacity) ==> data == old(data) && built == old(built) + 1 && destroyed == old(destroyed)
      ensures pushes == old(pushes) + 1 && (old(Doubling()) ==> Doubling())
    {
      if size == capacity {
        Reserve(if capacity != 0 then capacity * 2 else 4);
      }
      ghost var before := Contents();
      assert data[size].Raw?;
      ValuesAfter(data[..], size, value);
      data[size] := Live(value);
      size, built, pushes := size + 1, built + 1, pushes + 1;
    }

    method PopBack()
      requires data.Length == capacity && LiveButLast(data[..], size) && built == destroyed + size
      modifies this, data
      ensures Valid() && data == old(data) && capacity == old(capacity) && built == old(built)
      ensures pushes == old(pushes) && relocated == old(relocated) && (old(Doubling()) ==> Doubling())
      ensures if old(size) == 0 then size == 0 && destroyed == old(destroyed)
              else size == old(size) - 1 && destroyed == old(destroyed) + 1
                   && Contents() == old(Values(data[..], size - 1))
    {
      if size != 0 {
        size := size - 1;
        Destroy(data, size);
        assert Contents() == old(Values(data[..], size - 1));
      }
    }

    /** `~Vector`: every object ever constructed has been destroyed by then. */
    method Clear()
      requires Valid()
      modifies this, data
      ensures Valid() && Contents() == [] && data == old(data) && destroyed == built == old(built)
      ensures forall i :: 0 <= i < data.Length ==> data[i].Raw?
    {
      while size != 0
        invariant Valid() && data == old(data) && built == old(built)
      {
        PopBack();
      }
    }

    /** `std::swap`: three moves through a temporary. */
    method SwapSlots(i: nat, j: nat)
      requires i < data.Length && j < data.Length && i != j && data[i].Live? && data[j].Live?
      modifies data
      ensures data[..] == old(data[..])[i := old(data[j])][j := old(data[i])]
    {
      var temporary := data[i];
      data[i] := Moved;
      data[i], data[j] := data[j], Moved;
      data[j] := temporary;
    }

    /** Insertion by adjacent swaps from the back is a splice. */
    method Insert(idx: nat, value: T)
      requires Valid() && idx <= size
      modifies this, data
      ensures Valid() && Contents() == old(Contents())[..idx] + [value] + old(Contents())[idx..]
      ensures data == old(data) || fresh(data)
      ensures relocated == old(relocated) + if old(size < capacity) then 0 else old(size)
      ensures pushes == old(pushes) + 1 && (old(Doubling()) ==> Doubling())
    {
      hide Bubbled, LiveUpTo, Values, Doubling;
      ghost var was := Contents();
      PushBack(value);
      BubbleEnds(was, value, idx);
      ghost var d := data;
      var i := size - 1;
      while i > idx
        invariant idx <= i <= |was| == size - 1 && data == d
        invariant Valid() && Contents() == Bubbled(was, value, i)
        modifies data
      {
        BubbleDown(data[..], size, was, value, i);
        SwapSlots(i, i - 1);
        i := i - 1;
      }
    }

    /** Erasure by shifting deletes one element; at the end position it drops the last one, if any. */
    method Erase(idx: nat)
      requires Valid() && idx <= size
      modifies this, data
      ensures Valid() && data == old(data) && built == old(built)
      ensures Contents() == if idx < old(size) then old(Contents())[..idx] + old(Contents())[idx + 1..]
                            else if old(size) > 0 then old(Contents())[..old(size) - 1] else []
      ensures pushes == old(pushes) && (old(Doubling()) ==> Doubling())
    {
      hide LiveBut, ShiftedDown;
      if idx == size {
        PopBack();
        return;
      }
      ghost var was := Contents();
      StartShift(data[..], size, was, idx);
      var i := idx;
      while i + 1 < size
        invariant idx <= i < size == |was| && LiveBut(data[..], size, i, ShiftedDown(was, idx, i))
        modifies data
      {
        ShiftOne(data[..], size, was, idx, i);
        data[i], data[i + 1] := data[i + 1], Moved;
        i := i + 1;
      }
      EndShift(data[..], size, was, idx);
      PopBack();
    }
  }
}
