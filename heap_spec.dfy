/*
 * The binary min-heap of the priority queue, as functions on the sequence of
 * entries the growable array holds. Index i has its children at 2i+1 and
 * 2i+2 and its parent at (i-1)/2. Sift-up and sift-down are written as the
 * queue's code performs them, swap by swap, so that the queue's methods can
 * be proved to compute exactly these functions.
 */
module HeapSpec {

  /** One queue entry: a priority (lower comes first) and its payload. */
  datatype Node<V> = Node(priority: int, value: V)

  function Parent(i: int): int
    requires i > 0
  {
    (i - 1) / 2
  }

  function Left(i: int): int { 2 * i + 1 }

  function Right(i: int): int { 2 * i + 2 }

  /** Every non-root entry has a priority no smaller than its parent's. */
  ghost predicate IsHeap<V>(s: seq<Node<V>>) {
    forall i :: 0 < i < |s| ==> s[Parent(i)].priority <= s[i].priority
  }

  /** Entry i has a minimum priority among all entries. */
  ghost predicate IsMinAt<V>(s: seq<Node<V>>, i: int) {
    0 <= i < |s| && forall j :: 0 <= j < |s| ==> s[i].priority <= s[j].priority
  }

  ghost predicate SortedByPriority<V>(s: seq<Node<V>>) {
    forall i, j :: 0 <= i < j < |s| ==> s[i].priority <= s[j].priority
  }

  function Swap<V>(s: seq<Node<V>>, i: int, j: int): (r: seq<Node<V>>)
    requires 0 <= i < |s| && 0 <= j < |s|
    ensures |r| == |s| && r[i] == s[j] && r[j] == s[i]
    ensures forall k :: 0 <= k < |s| && k != i && k != j ==> r[k] == s[k]
    ensures multiset(r) == multiset(s)
  {
    s[i := s[j]][j := s[i]]
  }

  /** Writing each of two entries into the other's slot, in either order, is the swap. */
  lemma SwapByWrites<V>(s: seq<Node<V>>, i: int, j: int)
    requires 0 <= i < |s| && 0 <= j < |s|
    ensures s[j := s[i]][i := s[j]] == Swap(s, i, j)
    ensures s[i := s[j]][j := s[i]] == Swap(s, i, j)
  {
    if i != j {
      assert s[j := s[i]][i := s[j]] == s[i := s[j]][j := s[i]];
    }
  }

  // ---------------------------------------------------------------- sift-up

  /**
   * Moves the entry at k towards the root while its priority is strictly
   * less than its parent's, stopping at the root.
   */
  function SiftUp<V>(s: seq<Node<V>>, k: int): (r: seq<Node<V>>)
    requires 0 <= k < |s|
    ensures |r| == |s|
    ensures forall i :: k < i < |s| ==> r[i] == s[i]
    decreases k
  {
    if k > 0 && s[k].priority < s[Parent(k)].priority then
      SiftUp(Swap(s, k, Parent(k)), Parent(k))
    else
      s
  }

  /** The queue's insertion: append, then sift the new entry up. */
  function Push<V>(s: seq<Node<V>>, x: Node<V>): (r: seq<Node<V>>)
    ensures |r| == |s| + 1
    ensures multiset(r) == multiset(s) + multiset{x}
  {
    SiftUpPermutes(s + [x], |s|);
    SiftUp(s + [x], |s|)
  }

  /**
   * A heap except at k, which may be smaller than its parent; k's parent is
   * no larger than k's children.
   */
  ghost predicate HeapExceptUp<V>(s: seq<Node<V>>, k: int) {
    (forall i :: 0 < i < |s| && i != k ==> s[Parent(i)].priority <= s[i].priority) &&
    (forall i :: 0 < i < |s| && k > 0 && Parent(i) == k ==> s[Parent(k)].priority <= s[i].priority)
  }

  lemma {:induction false} SiftUpPermutes<V>(s: seq<Node<V>>, k: int)
    requires 0 <= k < |s|
    ensures |SiftUp(s, k)| == |s|
    ensures multiset(SiftUp(s, k)) == multiset(s)
    decreases k
  {
    if k > 0 && s[k].priority < s[Parent(k)].priority {
      SiftUpPermutes(Swap(s, k, Parent(k)), Parent(k));
    }
  }

  lemma SiftUpStep<V>(s: seq<Node<V>>, k: int)
    requires 0 < k < |s| && HeapExceptUp(s, k)
    requires s[k].priority < s[Parent(k)].priority
    ensures HeapExceptUp(Swap(s, k, Parent(k)), Parent(k))
  {
    var p := Parent(k);
    var t := Swap(s, k, p);
    forall i | 0 < i < |t| && i != p
      ensures t[Parent(i)].priority <= t[i].priority
    {
      if i == k {
      } else if Parent(i) == k {
      } else if Parent(i) == p {
        assert s[p].priority <= s[i].priority;
      } else {
        assert s[Parent(i)].priority <= s[i].priority;
      }
    }
    forall i | 0 < i < |t| && p > 0 && Parent(i) == p
      ensures t[Parent(p)].priority <= t[i].priority
    {
      assert s[Parent(p)].priority <= s[p].priority;
      if i != k {
        assert s[p].priority <= s[i].priority;
      }
    }
  }

  lemma {:induction false} SiftUpRestoresHeap<V>(s: seq<Node<V>>, k: int)
    requires 0 <= k < |s| && HeapExceptUp(s, k)
    ensures IsHeap(SiftUp(s, k))
    decreases k
  {
    if k > 0 && s[k].priority < s[Parent(k)].priority {
      SiftUpStep(s, k);
      SiftUpRestoresHeap(Swap(s, k, Parent(k)), Parent(k));
    }
  }

  /** Pushing onto a heap gives a heap holding exactly one more entry, x. */
  lemma PushIsHeap<V>(s: seq<Node<V>>, x: Node<V>)
    requires IsHeap(s)
    ensures IsHeap(Push(s, x))
    ensures |Push(s, x)| == |s| + 1
    ensures multiset(Push(s, x)) == multiset(s) + multiset{x}
  {
    var t := s + [x];
    assert HeapExceptUp(t, |s|) by {
      forall i | 0 < i < |t| && |s| > 0 && Parent(i) == |s|
        ensures false
      {
      }
    }
    SiftUpRestoresHeap(t, |s|);
    SiftUpPermutes(t, |s|);
  }

  // -------------------------------------------------------------- sift-down

  /**
   * The index the sift-down compares against: k, replaced by the left child
   * when that is strictly smaller, then by the right child when that is
   * strictly smaller than the current choice.
   */
  function Smallest<V>(s: seq<Node<V>>, k: int): (m: int)
    requires 0 <= k < |s|
    ensures m == k || m == Left(k) || m == Right(k)
    ensures 0 <= m < |s|
    ensures s[m].priority <= s[k].priority
    ensures Left(k) < |s| ==> s[m].priority <= s[Left(k)].priority
    ensures Right(k) < |s| ==> s[m].priority <= s[Right(k)].priority
    ensures m != k ==> s[m].priority < s[k].priority
    ensures m == Right(k) && Left(k) < |s| ==> s[m].priority < s[Left(k)].priority
  {
    var m := if Left(k) < |s| && s[Left(k)].priority < s[k].priority then Left(k) else k;
    if Right(k) < |s| && s[Right(k)].priority < s[m].priority then Right(k) else m
  }

  /** Swaps the entry at k with its smaller child, as long as a child is strictly smaller. */
  function SiftDown<V>(s: seq<Node<V>>, k: int): (r: seq<Node<V>>)
    requires 0 <= k < |s|
    ensures |r| == |s|
    decreases |s| - k
  {
    var m := Smallest(s, k);
    if m == k then s else SiftDown(Swap(s, k, m), m)
  }

  /**
   * A heap except at k, which may be larger than its children; k's parent is
   * no larger than k's children.
   */
  ghost predicate HeapExceptDown<V>(s: seq<Node<V>>, k: int) {
    (forall i :: 0 < i < |s| && Parent(i) != k ==> s[Parent(i)].priority <= s[i].priority) &&
    (forall i :: 0 < i < |s| && k > 0 && Parent(i) == k ==> s[Parent(k)].priority <= s[i].priority)
  }

  lemma {:induction false} SiftDownPermutes<V>(s: seq<Node<V>>, k: int)
    requires 0 <= k < |s|
    ensures multiset(SiftDown(s, k)) == multiset(s)
    decreases |s| - k
  {
    var m := Smallest(s, k);
    if m != k {
      SiftDownPermutes(Swap(s, k, m), m);
    }
  }

  lemma SiftDownStep<V>(s: seq<Node<V>>, k: int)
    requires 0 <= k < |s| && HeapExceptDown(s, k)
    requires Smallest(s, k) != k
    ensures HeapExceptDown(Swap(s, k, Smallest(s, k)), Smallest(s, k))
  {
    var m := Smallest(s, k);
    var t := Swap(s, k, m);
    forall i | 0 < i < |t| && Parent(i) != m
      ensures t[Parent(i)].priority <= t[i].priority
    {
      if i == m {
      } else if Parent(i) == k {
      } else if i == k {
        assert s[Parent(k)].priority <= s[m].priority;
      } else {
        assert s[Parent(i)].priority <= s[i].priority;
      }
    }
    forall i | 0 < i < |t| && m > 0 && Parent(i) == m
      ensures t[Parent(m)].priority <= t[i].priority
    {
      assert s[m].priority <= s[i].priority;
    }
  }

  lemma {:induction false} SiftDownRestoresHeap<V>(s: seq<Node<V>>, k: int)
    requires 0 <= k < |s| && HeapExceptDown(s, k)
    ensures IsHeap(SiftDown(s, k))
    decreases |s| - k
  {
    var m := Smallest(s, k);
    if m != k {
      SiftDownStep(s, k);
      SiftDownRestoresHeap(Swap(s, k, m), m);
    } else {
      forall i | 0 < i < |s|
        ensures s[Parent(i)].priority <= s[i].priority
      {
        if Parent(i) == k {
          assert i == Left(k) || i == Right(k);
        }
      }
    }
  }

  // ---------------------------------------------------------------- removal

  /** The last entry moved into the root slot, and the array shortened by one. */
  function Shrink<V>(s: seq<Node<V>>): (r: seq<Node<V>>)
    requires |s| > 0
    ensures |r| == |s| - 1
    ensures |s| > 1 ==> r[0] == s[|s| - 1]
    ensures forall i :: 0 < i < |r| ==> r[i] == s[i]
  {
    s[0 := s[|s| - 1]][..|s| - 1]
  }

  /** The queue's removal of the root: shrink, then sift the new root down (when one is left). */
  function Pop<V>(s: seq<Node<V>>): (r: seq<Node<V>>)
    requires |s| > 0
    ensures |r| == |s| - 1
  {
    var t := Shrink(s);
    if |t| == 0 then t else SiftDown(t, 0)
  }

  lemma ShrinkRemovesRoot<V>(s: seq<Node<V>>)
    requires |s| > 0
    ensures |Shrink(s)| == |s| - 1
    ensures multiset(Shrink(s)) == multiset(s) - multiset{s[0]}
  {
    var u := s[0 := s[|s| - 1]];
    assert u[|s| - 1] == s[|s| - 1];
    assert u == Shrink(s) + [s[|s| - 1]];
    assert multiset(u) == multiset(Shrink(s)) + multiset{s[|s| - 1]};
    assert multiset(u) == multiset(s) - multiset{s[0]} + multiset{s[|s| - 1]};
    forall x
      ensures multiset(Shrink(s))[x] == (multiset(s) - multiset{s[0]})[x]
    {
      assert multiset(u)[x] == multiset(Shrink(s))[x] + multiset{s[|s| - 1]}[x];
    }
  }

  /** Removing the root of a heap leaves a heap holding exactly the other entries. */
  lemma PopIsHeap<V>(s: seq<Node<V>>)
    requires |s| > 0 && IsHeap(s)
    ensures IsHeap(Pop(s))
    ensures |Pop(s)| == |s| - 1
    ensures multiset(Pop(s)) == multiset(s) - multiset{s[0]}
  {
    var t := Shrink(s);
    ShrinkRemovesRoot(s);
    if |t| > 0 {
      assert HeapExceptDown(t, 0) by {
        forall i | 0 < i < |t| && Parent(i) != 0
          ensures t[Parent(i)].priority <= t[i].priority
        {
          assert s[Parent(i)].priority <= s[i].priority;
        }
      }
      SiftDownRestoresHeap(t, 0);
      SiftDownPermutes(t, 0);
    }
  }

  /** The root of a heap has a minimum priority. */
  lemma {:induction false} RootIsMin<V>(s: seq<Node<V>>, i: int)
    requires IsHeap(s) && 0 <= i < |s|
    ensures s[0].priority <= s[i].priority
    decreases i
  {
    if i > 0 {
      RootIsMin(s, Parent(i));
    }
  }

  lemma HeapRootIsMin<V>(s: seq<Node<V>>)
    requires IsHeap(s) && |s| > 0
    ensures IsMinAt(s, 0)
  {
    forall j | 0 <= j < |s|
      ensures s[0].priority <= s[j].priority
    {
      RootIsMin(s, j);
    }
  }

  // ------------------------------------------------- successive removals

  /** The entries in the order successive removals return them. */
  function Drain<V>(s: seq<Node<V>>): (r: seq<Node<V>>)
    ensures |r| == |s|
    ensures |s| > 0 ==> r[0] == s[0]
    decreases |s|
  {
    if |s| == 0 then [] else [s[0]] + Drain(Pop(s))
  }

  /** Removing until empty returns every entry of the heap exactly once. */
  lemma {:induction false} DrainPermutes<V>(s: seq<Node<V>>)
    requires IsHeap(s)
    ensures multiset(Drain(s)) == multiset(s)
    decreases |s|
  {
    if |s| > 0 {
      PopIsHeap(s);
      DrainPermutes(Pop(s));
      assert multiset(Drain(s)) == multiset{s[0]} + multiset(Drain(Pop(s)));
      assert multiset(s) == multiset{s[0]} + multiset(Pop(s));
    }
  }

  /** The root comes out no later than, and no larger than, anything removed after it. */
  lemma RootBelowRest<V>(s: seq<Node<V>>)
    requires IsHeap(s) && |s| > 0
    ensures forall k :: 0 <= k < |Drain(Pop(s))| ==> s[0].priority <= Drain(Pop(s))[k].priority
  {
    var t := Pop(s);
    PopIsHeap(s);
    HeapRootIsMin(s);
    DrainPermutes(t);
    forall k | 0 <= k < |Drain(t)|
      ensures s[0].priority <= Drain(t)[k].priority
    {
      var x := Drain(t)[k];
      assert x in multiset(Drain(t));
      assert x in multiset(s);
      var i :| 0 <= i < |s| && s[i] == x;
    }
  }

  /** Removing until empty returns the entries in non-decreasing priority order. */
  lemma {:induction false} DrainIsSorted<V>(s: seq<Node<V>>)
    requires IsHeap(s)
    ensures SortedByPriority(Drain(s))
    decreases |s|
  {
    if |s| > 0 {
      var t := Pop(s);
      PopIsHeap(s);
      DrainIsSorted(t);
      RootBelowRest(s);
      var d := Drain(s);
      assert d == [s[0]] + Drain(t);
      forall i, j | 0 <= i < j < |d|
        ensures d[i].priority <= d[j].priority
      {
        if i > 0 {
          assert d[i] == Drain(t)[i - 1] && d[j] == Drain(t)[j - 1];
        } else {
          assert d[j] == Drain(t)[j - 1];
        }
      }
    }
  }

  /** The heap built by pushing xs one after another, starting from an empty queue. */
  function BuildHeap<V>(xs: seq<Node<V>>): (r: seq<Node<V>>)
    ensures |r| == |xs|
    decreases |xs|
  {
    if |xs| == 0 then [] else Push(BuildHeap(xs[..|xs| - 1]), xs[|xs| - 1])
  }

  lemma LastSplit<V>(xs: seq<Node<V>>)
    requires |xs| > 0
    ensures multiset(xs) == multiset(xs[..|xs| - 1]) + multiset{xs[|xs| - 1]}
  {
    assert xs == xs[..|xs| - 1] + [xs[|xs| - 1]];
  }

  lemma {:induction false} BuildHeapIsHeap<V>(xs: seq<Node<V>>)
    ensures IsHeap(BuildHeap(xs))
    ensures multiset(BuildHeap(xs)) == multiset(xs)
    decreases |xs|
  {
    if |xs| > 0 {
      var ys, x := xs[..|xs| - 1], xs[|xs| - 1];
      BuildHeapIsHeap(ys);
      PushIsHeap(BuildHeap(ys), x);
      LastSplit(xs);
    }
  }

  /**
   * Inserting entries into an empty queue and then removing them all returns
   * them sorted by priority, as a permutation of what was inserted.
   */
  lemma InsertAllThenRemoveAll<V>(xs: seq<Node<V>>)
    ensures multiset(Drain(BuildHeap(xs))) == multiset(xs)
    ensures SortedByPriority(Drain(BuildHeap(xs)))
  {
    BuildHeapIsHeap(xs);
    DrainPermutes(BuildHeap(xs));
    DrainIsSorted(BuildHeap(xs));
  }
}
