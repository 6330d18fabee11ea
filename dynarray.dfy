/*
 * A growable array: a backing buffer `data` of length `capacity` whose first
 * `size` slots hold the elements. Slots at and beyond `size` are absent,
 * whatever the buffer holds there. Capacity starts at 8, doubles when an
 * append finds the buffer full, and never shrinks.
 */
module DynArrays {

  datatype Option<T> = None | Some(value: T)

  /** Capacity of a freshly created array. */
  const InitCapacity: int := 8

  class DynArray<T(0)> {
    var data: array<T>
    var size: int
    var capacity: int
    ghost var Repr: set<object>

    /** The object invariant: 0 <= size <= capacity, and capacity is the buffer's length. */
    ghost predicate Valid()
      reads this, Repr
      ensures Valid() ==> this in Repr
    {
      Repr == {this, data} &&
      0 < capacity == data.Length &&
      0 <= size <= capacity
    }

    /** The logical contents: the first `size` slots of the buffer. */
    ghost function Contents(): seq<T>
      reads this, Repr
      requires Valid()
    {
      data[..size]
    }

    constructor ()
      ensures Valid() && fresh(Repr)
      ensures Contents() == [] && capacity == InitCapacity
    {
      data := new T[InitCapacity];
      size := 0;
      capacity := InitCapacity;
      Repr := {this, data};
    }

    /** The number of elements held (not the capacity). */
    method Size() returns (n: int)
      requires Valid()
      ensures n == |Contents()|
    {
      n := size;
    }

    /** Moves the elements into a fresh buffer of `newCapacity` slots. */
    method Resize(newCapacity: int)
      requires Valid()
      requires newCapacity > size
      modifies this
      ensures Valid() && fresh(data)
      ensures Contents() == old(Contents())
      ensures capacity == newCapacity
    {
      var newData := new T[newCapacity];
      for i := 0 to size
        invariant newData[..i] == data[..i]
        modifies newData
      {
        newData[i] := data[i];
      }
      data := newData;
      capacity := newCapacity;
      Repr := {this, data};
    }

    /** Appends `val` at the end, doubling the capacity first when the buffer is full. */
    method Insert(val: T)
      requires Valid()
      modifies Repr
      ensures Valid() && fresh(Repr - old(Repr))
      ensures Contents() == old(Contents()) + [val]
      ensures capacity == if old(size) == old(capacity) then 2 * old(capacity) else old(capacity)
    {
      if size == capacity {
        Resize(2 * capacity);
      }
      data[size] := val;
      size := size + 1;
    }

    /** Deletes the element at `idx`, shifting every later element one slot to the left. */
    method Remove(idx: int)
      requires Valid()
      requires 0 <= idx < size
      modifies this, data
      ensures Valid() && Repr == old(Repr)
      ensures Contents() == old(Contents()[..idx] + Contents()[idx + 1..])
      ensures capacity == old(capacity)
    {
      for i := idx to size - 1
        invariant forall k :: 0 <= k < idx ==> data[k] == old(data[k])
        invariant forall k :: idx <= k < i ==> data[k] == old(data[k + 1])
        invariant forall k :: i < k < data.Length ==> data[k] == old(data[k])
        modifies data
      {
        data[i] := data[i + 1];
      }
      size := size - 1;
      ghost var was := old(Contents());
      assert Contents() == was[..idx] + was[idx + 1..] by {
        assert forall k :: 0 <= k < size ==> Contents()[k] == (was[..idx] + was[idx + 1..])[k];
      }
    }

    /** The element at `idx`; nothing changes. */
    method Get(idx: int) returns (v: T)
      requires Valid()
      requires 0 <= idx < size
      ensures v == Contents()[idx]
    {
      v := data[idx];
    }

    /** Overwrites the element at `idx`; no other element, nor the size or capacity, changes. */
    method Set(idx: int, v: T)
      requires Valid()
      requires 0 <= idx < size
      modifies data
      ensures Valid()
      ensures Contents() == old(Contents())[idx := v]
    {
      data[idx] := v;
    }

    /** The last element, or None on an empty array. */
    method GetLast() returns (r: Option<T>)
      requires Valid()
      ensures r.None? <==> |Contents()| == 0
      ensures r.Some? ==> r.value == Contents()[|Contents()| - 1]
    {
      if size == 0 {
        return None;
      }
      var lastAdded := Get(size - 1);
      return Some(lastAdded);
    }

    /** Drops the last element without touching the buffer. */
    method DecrementSize()
      requires Valid()
      requires size > 0
      modifies this
      ensures Valid() && Repr == old(Repr) && data == old(data)
      ensures Contents() == old(Contents())[..old(size) - 1]
      ensures capacity == old(capacity)
    {
      size := size - 1;
    }
  }
}
