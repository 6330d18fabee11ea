/*
 * The priority queue: a binary min-heap of (priority, value) entries kept in
 * a growable array. Each method works in place on the array through the
 * array's get/set operations and is proved to compute the corresponding
 * function of HeapSpec, whose properties are proved there.
 */
module PriorityQueue {
  import opened DynArrays
  import opened HeapSpec

  class PQ<V(0)> {
    var da: DynArray<Node<V>>
    ghost var Repr: set<object>

    /** The queue owns its array; the heap order is not required. */
    ghost predicate Shape()
      reads this, Repr
    {
      this in Repr && da in Repr && da.Repr <= Repr && this !in da.Repr &&
      Repr == {this} + da.Repr &&
      da.Valid()
    }

    /** The object invariant: the array holds a heap. */
    ghost predicate Valid()
      reads this, Repr
    {
      Shape() && IsHeap(da.Contents())
    }

    /** The entries, in array order. */
    ghost function Heap(): seq<Node<V>>
      reads this, Repr
      requires Shape()
    {
      da.Contents()
    }

    constructor ()
      ensures Valid() && fresh(Repr)
      ensures Heap() == []
    {
      da := new DynArray();
      new;
      Repr := {this} + da.Repr;
    }

    /** 1 when the queue holds no entry, 0 otherwise. */
    method IsEmpty() returns (r: int)
      requires Valid()
      ensures r == 1 <==> |Heap()| == 0
      ensures r == 0 <==> |Heap()| != 0
    {
      var n := da.Size();
      if n == 0 {
        return 1;
      }
      return 0;
    }

    /** Appends the entry, then sifts it up from the last slot. */
    method Insert(value: V, priority: int)
      requires Valid()
      modifies Repr
      ensures Valid() && fresh(Repr - old(Repr))
      ensures Heap() == Push(old(Heap()), Node(priority, value))
      ensures |Heap()| == |old(Heap())| + 1
      ensures multiset(Heap()) == multiset(old(Heap())) + multiset{Node(priority, value)}
    {
      var newNode := Node(priority, value);
      ghost var before := da.Contents();
      da.Insert(newNode);
      Repr := {this} + da.Repr;
      var size := da.Size();
      var newNodeIdx := size - 1;
      SiftUpFrom(newNodeIdx);
      assert IsHeap(Heap()) && |Heap()| == |before| + 1 && multiset(Heap()) == multiset(before) + multiset{newNode} by {
        PushIsHeap(before, newNode);
      }
    }

    /**
     * The loop of the insertion: swaps the entry at newNodeIdx with its parent
     * while its priority is strictly less than the parent's, stopping at the
     * root.
     */
    method SiftUpFrom(newNodeIdx: int)
      requires Shape() && 0 <= newNodeIdx < |Heap()|
      modifies da.data
      ensures Shape()
      ensures Heap() == SiftUp(old(Heap()), newNodeIdx)
    {
      var idx := newNodeIdx;
      var newNode := da.Get(idx);
      // At the root, C's truncating (0 - 1) / 2 is 0: the root is its own parent.
      var parentIdx := if idx > 0 then (idx - 1) / 2 else 0;
      var parentNode := da.Get(parentIdx);
      while idx > 0 && newNode.priority < parentNode.priority
        invariant Shape()
        invariant 0 <= idx < |Heap()| && Heap()[idx] == newNode
        invariant parentIdx == if idx > 0 then Parent(idx) else 0
        invariant parentNode == Heap()[parentIdx]
        invariant SiftUp(Heap(), idx) == SiftUp(old(Heap()), newNodeIdx)
        decreases idx
      {
        Exchange(idx, parentIdx, newNode, parentNode);
        idx := parentIdx;
        parentIdx := if idx > 0 then (idx - 1) / 2 else 0;
        parentNode := da.Get(parentIdx);
      }
    }

    /**
     * Writes x, the entry at i, into slot j and y, the entry at j, into slot
     * i: the swap both sift loops perform.
     */
    method Exchange(i: int, j: int, x: Node<V>, y: Node<V>)
      requires Shape() && 0 <= i < |Heap()| && 0 <= j < |Heap()|
      requires Heap()[i] == x && Heap()[j] == y
      modifies da.data
      ensures Shape()
      ensures Heap() == Swap(old(Heap()), i, j) == Swap(old(Heap()), j, i)
    {
      SwapByWrites(Heap(), i, j);
      da.Set(j, x);
      da.Set(i, y);
    }

    /** The value of the root, an entry of minimum priority; nothing changes. */
    method First() returns (v: V)
      requires Valid() && |Heap()| > 0
      ensures v == Heap()[0].value && IsMinAt(Heap(), 0)
    {
      var n := da.Get(0);
      v := n.value;
      HeapRootIsMin(Heap());
    }

    /** The priority of the root, which no entry's priority is below; nothing changes. */
    method FirstPriority() returns (p: int)
      requires Valid() && |Heap()| > 0
      ensures p == Heap()[0].priority
      ensures forall i :: 0 <= i < |Heap()| ==> p <= Heap()[i].priority
    {
      var n := da.Get(0);
      p := n.priority;
      HeapRootIsMin(Heap());
    }

    /**
     * Returns the root's value and removes the root: the last entry moves to
     * the root, the array shrinks by one, and the new root is sifted down.
     */
    method RemoveFirst() returns (v: V)
      requires Valid() && |Heap()| > 0
      modifies Repr
      ensures Valid() && Repr == old(Repr)
      ensures v == old(Heap())[0].value && IsMinAt(old(Heap()), 0)
      ensures Heap() == Pop(old(Heap()))
      ensures multiset(Heap()) == multiset(old(Heap())) - multiset{old(Heap())[0]}
    {
      ghost var before := Heap();
      assert IsMinAt(before, 0) by {
        HeapRootIsMin(before);
      }
      var rootNode := da.Get(0);
      var rootNodeVal := rootNode.value;
      var lastAdded := da.GetLast();
      da.Set(0, lastAdded.value);
      da.DecrementSize();
      var size := da.Size();
      assert Heap() == Shrink(before);
      if size > 0 {
        PercDown2(size, 0);
      }
      v := rootNodeVal;
      assert IsHeap(Heap()) && multiset(Heap()) == multiset(before) - multiset{before[0]} by {
        PopIsHeap(before);
      }
    }

    /**
     * The index among rootIdx and its children present below size whose
     * priority is least; a child is chosen only when strictly smaller, the
     * left one first. Nothing changes.
     */
    method SmallestOfThree(size: int, rootIdx: int) returns (smallestIdx: int)
      requires Shape() && size == |Heap()| && 0 <= rootIdx < size
      ensures smallestIdx == Smallest(Heap(), rootIdx)
    {
      smallestIdx := rootIdx;
      var leftChildIdx := 2 * rootIdx + 1;
      var rightChildIdx := 2 * rootIdx + 2;
      var smallest := da.Get(rootIdx);
      if leftChildIdx < size {
        var leftChild := da.Get(leftChildIdx);
        if leftChild.priority < smallest.priority {
          smallestIdx := leftChildIdx;
          smallest := da.Get(smallestIdx);
        }
      }
      if rightChildIdx < size {
        var rightChild := da.Get(rightChildIdx);
        if rightChild.priority < smallest.priority {
          smallestIdx := rightChildIdx;
        }
      }
    }

    /**
     * Swaps the entry at rootIdx with the smaller of its children while one
     * is strictly smaller, then continues from that child.
     */
    method PercDown2(size: int, rootIdx: int)
      requires Shape() && size == |Heap()| && 0 <= rootIdx < size
      modifies da.data
      ensures Shape()
      ensures Heap() == SiftDown(old(Heap()), rootIdx)
      decreases size - rootIdx
    {
      var smallestIdx := SmallestOfThree(size, rootIdx);
      if smallestIdx != rootIdx {
        var temp := da.Get(rootIdx);
        var child := da.Get(smallestIdx);
        Exchange(smallestIdx, rootIdx, child, temp);
        PercDown2(size, smallestIdx);
      }
    }
  }
}
