/** The timeout queue: a binary heap kept in order by swapping up and down, and the loop that wakes
    every thread whose timeout has come. */
module TimeoutQueue {
  import opened ThreadStatus
  import opened Wrappers

  datatype Timeout = Timeout(nsec: nat, thread: ThreadRef)

  /** The order of `Reverse<ThreadTimeout>`: a later timeout is smaller. */
  predicate Less(a: Timeout, b: Timeout) { a.nsec > b.nsec }

  function Parent(i: nat): nat
    requires i > 0
  {
    (i - 1) / 2
  }

  /** No element is smaller than one of its children. */
  ghost predicate Heap(data: seq<Timeout>) {
    forall i :: 0 < i < |data| ==> !Less(data[Parent(i)], data[i])
  }

  /** Order holds except perhaps between `at` and its parent; and its children fit under that parent. */
  ghost predicate HeapButUp(data: seq<Timeout>, at: nat) {
    && (forall i :: 0 < i < |data| && i != at ==> !Less(data[Parent(i)], data[i]))
    && (at > 0 ==> forall i :: 0 < i < |data| && Parent(i) == at && at < |data| ==> !Less(data[Parent(at)], data[i]))
  }

  /** Order holds except perhaps between `at` and its children; and they fit under its parent. */
  ghost predicate HeapButDown(data: seq<Timeout>, at: nat) {
    && (forall i :: 0 < i < |data| && Parent(i) != at ==> !Less(data[Parent(i)], data[i]))
    && (at > 0 ==> forall i :: 0 < i < |data| && Parent(i) == at && at < |data| ==> !Less(data[Parent(at)], data[i]))
  }

  function Swap(data: seq<Timeout>, i: nat, j: nat): seq<Timeout>
    requires i < |data| && j < |data|
  {
    data[i := data[j]][j := data[i]]
  }

  lemma {:induction false} SwapSame(data: seq<Timeout>, i: nat, j: nat)
    requires i < |data| && j < |data|
    ensures multiset(Swap(data, i, j)) == multiset(data)
  {
  }

  lemma {:induction false} SwapUp(data: seq<Timeout>, i: nat)
    requires 0 < i < |data| && HeapButUp(data, i) && Less(data[Parent(i)], data[i])
    ensures HeapButUp(Swap(data, Parent(i), i), Parent(i))
  {
    var p := Parent(i);
    var after := Swap(data, p, i);
    assert after[p] == data[i] && after[i] == data[p];
    assert forall k :: 0 <= k < |data| && k != p && k != i ==> after[k] == data[k];
    ParentBelow(i);
    hide Swap, Parent;
    forall k | 0 < k < |after| && k != p ensures !Less(after[Parent(k)], after[k]) {
      ParentBelow(k);
      if k != i && Parent(k) == p { assert !Less(data[p], data[k]); }
    }
    if p > 0 {
      ParentBelow(p);
      forall k | 0 < k < |after| && Parent(k) == p ensures !Less(after[Parent(p)], after[k]) {
        ParentBelow(k);
        assert !Less(data[Parent(p)], data[p]);
        if k != i { assert !Less(data[p], data[k]); }
      }
    }
  }

  lemma {:induction false} ParentBelow(i: nat)
    requires i > 0
    ensures Parent(i) < i
  {
  }

  /** The source's choice: the left child only if it is the larger. */
  function LargestChild(data: seq<Timeout>, i: nat): (r: Option<nat>)
    requires i < |data|
    ensures r.None? <==> 2 * i + 1 >= |data|
    ensures r.Some? ==> i < r.value < |data| && Parent(r.value) == i
    ensures r.Some? ==> forall j :: 0 < j < |data| && Parent(j) == i ==> !Less(data[r.value], data[j])
  {
    var left, right := 2 * i + 1, 2 * i + 2;
    if left < |data| && right < |data| then (if Less(data[right], data[left]) then Some(left) else Some(right))
    else if left < |data| then Some(left)
    else None
  }

  lemma {:induction false} SwapDown(data: seq<Timeout>, i: nat)
    requires i < |data| && HeapButDown(data, i) && LargestChild(data, i).Some?
    requires Less(data[i], data[LargestChild(data, i).value])
    ensures var c := LargestChild(data, i).value; HeapButDown(Swap(data, i, c), c)
  {
    var c := LargestChild(data, i).value;
    hide LargestChild;
  }

  /** The first element of a heap has the earliest timeout. */
  lemma {:induction false} TopIsEarliest(data: seq<Timeout>, i: nat)
    requires Heap(data) && i < |data|
    ensures data[0].nsec <= data[i].nsec
  {
    if i > 0 { TopIsEarliest(data, Parent(i)); }
  }

  class BinaryHeap {
    var data: seq<Timeout>

    constructor ()
      ensures data == []
    {
      data := [];
    }

    method Push(x: Timeout)
      requires Heap(data)
      modifies this
      ensures Heap(data) && multiset(data) == multiset(old(data)) + multiset{x}
    {
      data := data + [x];
      var i := |data| - 1;
      while i > 0 && Less(data[Parent(i)], data[i])
        invariant 0 <= i < |data| && HeapButUp(data, i)
        invariant multiset(data) == multiset(old(data)) + multiset{x}
      {
        SwapUp(data, i);
        SwapSame(data, Parent(i), i);
        data := Swap(data, Parent(i), i);
        i := Parent(i);
      }
    }

    method Pop() returns (r: Option<Timeout>)
      requires Heap(data)
      modifies this
      ensures Heap(data)
      ensures r.None? <==> old(data) == []
      ensures r.None? ==> data == []
      ensures r.Some? ==> r.value == old(data)[0] && multiset(data) + multiset{r.value} == multiset(old(data))
    {
      if |data| == 0 { return None; }
      var tail := data[|data| - 1];
      assert data == data[..|data| - 1] + [tail];
      data := data[..|data| - 1];
      if |data| == 0 { return Some(tail); }
      var out := data[0];
      assert data == [out] + data[1..];
      data := [tail] + data[1..];
      assert multiset(data) + multiset{out} == multiset(old(data));
      SiftDown();
      r := Some(out);
    }

    method SiftDown()
      requires HeapButDown(data, 0) && |data| > 0
      modifies this
      ensures Heap(data) && multiset(data) == multiset(old(data))
    {
      var i := 0;
      while LargestChild(data, i).Some? && Less(data[i], data[LargestChild(data, i).value])
        invariant 0 <= i < |data| && HeapButDown(data, i)
        invariant multiset(data) == multiset(old(data))
        decreases |data| - i
      {
        var c := LargestChild(data, i).value;
        SwapDown(data, i);
        SwapSame(data, i, c);
        data := Swap(data, i, c);
        i := c;
      }
    }
  }

  ghost predicate InOrder(ts: seq<Timeout>) {
    forall i, j :: 0 <= i < j < |ts| ==> ts[i].nsec <= ts[j].nsec
  }

  class TimeoutQueue {
    const threads: BinaryHeap

    constructor ()
      ensures threads.data == [] && fresh(threads)
    {
      threads := new BinaryHeap();
    }

    method InsertThread(thread: ThreadRef, nsec: nat)
      requires Heap(threads.data)
      modifies threads
      ensures Heap(threads.data)
      ensures multiset(threads.data) == multiset(old(threads.data)) + multiset{Timeout(nsec, thread)}
    {
      threads.Push(Timeout(nsec, thread));
    }

    /** Takes out exactly the entries whose time has come, earliest first; `woken` are the references then
        used to wake their threads. */
    method WakeThreads(now: nat) returns (woken: seq<Timeout>)
      requires Heap(threads.data)
      modifies threads
      ensures Heap(threads.data) && multiset(threads.data) + multiset(woken) == multiset(old(threads.data))
      ensures InOrder(woken) && forall i :: 0 <= i < |woken| ==> woken[i].nsec <= now
      ensures forall i :: 0 <= i < |threads.data| ==> threads.data[i].nsec > now
    {
      woken := [];
      while |threads.data| > 0 && threads.data[0].nsec <= now
        invariant Heap(threads.data) && multiset(threads.data) + multiset(woken) == multiset(old(threads.data))
        invariant InOrder(woken) && forall i :: 0 <= i < |woken| ==> woken[i].nsec <= now
        invariant forall i, j :: 0 <= i < |woken| && 0 <= j < |threads.data| ==> woken[i].nsec <= threads.data[j].nsec
        decreases |threads.data|
      {
        ghost var before := threads.data;
        forall j | 0 <= j < |before| ensures before[0].nsec <= before[j].nsec { TopIsEarliest(before, j); }
        var top := threads.Pop();
        StillLater(before, threads.data, top.value);
        woken := woken + [top.value];
      }
      forall i | 0 <= i < |threads.data| ensures threads.data[i].nsec > now { TopIsEarliest(threads.data, i); }
    }
  }

  /** What a pop leaves are elements that were there. */
  lemma {:induction false} StillLater(before: seq<Timeout>, after: seq<Timeout>, top: Timeout)
    requires multiset(after) + multiset{top} == multiset(before)
    ensures |after| < |before|
    ensures forall j :: 0 <= j < |after| ==> after[j] in before
  {
    assert |multiset(before)| == |multiset(after)| + 1;
    forall j | 0 <= j < |after| ensures after[j] in before {
      assert after[j] in multiset(after);
      assert after[j] in multiset(before);
    }
  }
}
