/** Heap blocks paid for with quota: charged with the length handed out, refunded with the length recomputed. */
module HeapQuota {
  import opened BitUtils
  import opened CapAllocator
  import opened HeapZone
  import opened KernelHeap
  import opened QuotaTree
  import opened Wrappers

  /** Takes a block, and gives it back if there is no quota for it. */
  method HeapAlloc(tree: AllocatorTree, heap: LinkedListAllocator, w: nat, size: nat, align: nat, mem: Option<Region>)
    returns (r: Option<Node>, ghost taken: Option<Node>)
    requires tree.Valid() && heap.Valid() && w < |tree.nodes| && size > 0 && IsAlign(align)
    requires mem.Some? ==> heap.UsableRegion(mem.value, ZoneSizeFor(size, align))
    modifies tree, heap, heap.zones
    ensures tree.Valid() && SameSlack(old(tree.nodes), old(tree.owed), tree.nodes, tree.owed)
    ensures r.Some? ==>
              && heap.Valid() && r.value in heap.live && r.value !in old(heap.live)
              && heap.live - {r.value} == old(heap.live)
              && heap.live[r.value].size == size <= r.value.size && heap.live[r.value].align == align
              && tree.owed == old(tree.owed)[w := old(tree.owed)[w] + r.value.size]
    ensures r.None? ==> tree.owed == old(tree.owed)
    ensures r.None? && taken.None? ==> heap.Valid() && heap.live == old(heap.live) && tree.nodes == old(tree.nodes)
    ensures r.None? && taken.Some? ==>
              && AllocOutcome(old(tree.nodes), Home(old(tree.nodes), w), taken.value.size) != CapAllocator.Ok
              && size <= taken.value.size && taken.value !in old(heap.live)
              && (Tail(taken.value, align) == 0 ==> heap.Valid() && heap.live == old(heap.live))
  {
    hide AllocatorTree.Valid, LinkedListAllocator.Valid, SameSlack, AllocOutcome, Home, IsAlign, NoRoom, Tail;
    TreeParts(tree);
    r := TakeBlock(heap, size, align, mem);
    taken := r;
    if r.None? { return; }
    var ok := tree.ChargeThrough(w, r.value.size);
    if !ok {
      GiveBack(heap, r.value, size, align);
      r := None;
    }
  }

  lemma {:induction false} TreeParts(tree: AllocatorTree)
    requires tree.Valid()
    ensures Shape(tree.nodes) && |tree.owed| == |tree.nodes|
    ensures SameSlack(tree.nodes, tree.owed, tree.nodes, tree.owed)
  {
    hide Home, Slack, NodeOk;
  }

  method TakeBlock(heap: LinkedListAllocator, size: nat, align: nat, mem: Option<Region>) returns (r: Option<Node>)
    requires heap.Valid() && size > 0 && IsAlign(align)
    requires mem.Some? ==> heap.UsableRegion(mem.value, ZoneSizeFor(size, align))
    modifies heap, heap.zones
    ensures heap.Valid() && fresh(set z | z in heap.zones && z !in old(heap.zones))
    ensures r.None? ==> heap.live == old(heap.live)
    ensures r.Some? ==>
              && r.value in heap.live && r.value !in old(heap.live) && heap.live - {r.value} == old(heap.live)
              && heap.live[r.value].size == size <= r.value.size && heap.live[r.value].align == align
  {
    hide LinkedListAllocator.Valid, IsAlign, NoRoom, ZoneSizeFor;
    r := heap.Alloc(size, align, mem);
  }

  method GiveBack(heap: LinkedListAllocator, b: Node, size: nat, align: nat)
    requires heap.Valid() && b in heap.live && heap.live[b].size == size <= b.size && heap.live[b].align == align
    modifies heap, heap.zones
    ensures Tail(b, align) == 0 ==> heap.Valid() && heap.live == old(heap.live) - {b}
  {
    hide LinkedListAllocator.Valid, Tail;
    var _ := heap.Dealloc(b.addr, size, align, b);
  }

  /** Gives the recomputed length back, to the quota and to the heap. What was charged and what is refunded
      differ by the part of the block past the last multiple of its alignment: that much stays counted as used
      by the allocator that answers, and by no other; or, for a block that would be released too long, is
      missing from it. */
  method HeapDealloc(tree: AllocatorTree, heap: LinkedListAllocator, w: nat, addr: nat, size: nat, align: nat,
                     ghost b: Node, ghost x: nat)
    returns (ok: bool)
    requires tree.Valid() && heap.Valid() && w < |tree.nodes| && x < |tree.nodes|
    requires Home(tree.nodes, x) == Home(tree.nodes, w) && b.size <= tree.owed[x]
    requires b in heap.live && b.addr == addr && heap.live[b].size == size <= b.size && heap.live[b].align == align
    modifies tree, heap, heap.zones
    ensures ok ==>
              var len, n := AlignUp(size, Max(CHUNK, align)), Home(old(tree.nodes), w);
              && tree.owed == old(tree.owed)[x := old(tree.owed)[x] - b.size]
              && SlackMoved(old(tree.nodes), old(tree.owed), tree.nodes, tree.owed, n, b.size - len)
              && (SameSlack(old(tree.nodes), old(tree.owed), tree.nodes, tree.owed) <==> Tail(b, align) == 0)
    ensures FitsInside(b, size, align) ==>
              && ok && tree.Valid() && heap.Valid() && heap.live == Left(old(heap.live), b, b.size - Tail(b, align))
  {
    hide AllocatorTree.Valid, LinkedListAllocator.Valid, SameSlack, SlackMoved, Slack, Home, Tail, Left, AlignUp;
    TreeParts(tree);
    LengthOff(heap, size, align, b);
    var len := RecomputedLength(addr, size, align).value;
    ok := tree.RefundThrough(w, len, x, b.size);
    if !ok { return; }
    MovedSame(old(tree.nodes), old(tree.owed), tree.nodes, tree.owed, Home(old(tree.nodes), w), b.size - len);
    ok := heap.Dealloc(addr, size, align, b);
  }

  /** The recomputed length of a live block, against its own. */
  lemma {:induction false} LengthOff(heap: LinkedListAllocator, size: nat, align: nat, b: Node)
    requires heap.Valid() && b in heap.live && heap.live[b].size == size <= b.size && heap.live[b].align == align
    ensures align > 0 && RecomputedLength(b.addr, size, align) == Some(AlignUp(size, Max(CHUNK, align)))
    ensures FitsInside(b, size, align) ==> AlignUp(size, Max(CHUNK, align)) == b.size - Tail(b, align)
    ensures !FitsInside(b, size, align) ==> AlignUp(size, Max(CHUNK, align)) > b.size && Tail(b, align) > 0
  {
    hide Zone.Valid, Recorded, LengthKnown, IsAlign, AlignUp, AlignOf, RecomputedLength;
    RecordedAt(heap.live, heap.Contents(), b);
    heap.zones[heap.live[b].zone].LiveInside(b);
    Recomputed(b, size, align);
  }

  /** Slack that moves by nothing stays, and slack that moves by something does not. */
  lemma {:induction false} MovedSame(a: seq<Inner>, oa: seq<nat>, b: seq<Inner>, ob: seq<nat>, n: nat, d: int)
    requires SlackMoved(a, oa, b, ob, n, d) && n < |a| && a[n].alive
    ensures SameSlack(a, oa, b, ob) <==> d == 0
  {
    hide Slack;
  }
}
