/** The buddy allocator itself: one status byte per tree node in an array that `Alloc` and
    `Dealloc` rewrite in place, each public call taken as one step. */
module BuddyAllocator {
  import opened BitUtils
  import opened BuddyTree
  import opened Wrappers

  datatype Allocation = Allocation(addr: int, size: nat)

  /** Size of the status array for a power-of-two range cut into power-of-two units, as
      `required_tree_array_size` computes it; `None` when the range does not qualify. */
  function RequiredTreeSize(start: nat, size: nat, unit: nat): (r: Option<nat>) {
    if 0 < unit == AlignOf(unit) && 0 < size == AlignOf(size) && AlignOf(start) >= size && size >= unit
    then Some(2 * (size / unit) - 1) else None
  }

  lemma {:induction false} DepthOfRange(size: nat, unit: nat)
    requires 0 < unit == AlignOf(unit) && size == AlignOf(size) && unit <= size
    ensures size / unit == Pow2(Log2(size / unit))
    ensures size == unit * Pow2(Log2(size / unit))
  {
    var a, b := Log2(size), Log2(unit);
    assert size == Pow2(a) && unit == Pow2(b) by { PowerOfTwo(size); PowerOfTwo(unit); }
    assert b <= a by { if a < b { Pow2Mono(a, b); } }
    var q := Pow2(a - b);
    assert size == q * unit by { Pow2Sum(a - b, b); }
    assert size / unit == q by { ModOfMultiple(q, unit); }
    assert Log2(q) == a - b by { Log2Unique(q, a - b); }
  }

  lemma {:induction false} RangeAligned(start: nat, size: nat)
    requires 0 < size == AlignOf(size) && size < 0x1_0000_0000_0000_0000 && AlignOf(start) >= size
    ensures start % size == 0
  {
    var k := Log2(size);
    assert size == Pow2(k) by { PowerOfTwo(size); }
    assert k <= 63 by { if k > 63 { WordSize(); Pow2Mono(64, k); } }
    AlignedTo(start, k);
  }

  class PmemAllocator {
    const start: nat
    const depth: nat
    const maxSize: nat
    const unit: nat
    const tree: array<bv8>
    var freeSpace: int
    /** The nodes currently handed out. */
    ghost var live: set<nat>

    ghost predicate Shape()
      reads this
    {
      && unit > 0
      && maxSize == unit * Pow2(depth)
      && start % maxSize == 0
      && tree.Length == 2 * Pow2(depth) - 1
    }

    /** Every byte is the one the handed-out nodes determine, those nodes nest nowhere, and the
        free-space counter is the total minus their sizes. */
    ghost predicate Valid()
      reads this, tree
    {
      && Shape()
      && (forall x :: x in live ==> x < tree.Length)
      && Antichain(live)
      && (forall i :: 0 <= i < tree.Length ==> tree[i] == Status(live, i))
      && freeSpace == maxSize - unit * UsedSlots(depth, live, 0)
    }

    function NodeSize(n: nat): (r: nat)
      reads this
    {
      maxSize / Pow2(Level(n))
    }

    function NodeAddr(n: nat): (r: int)
      reads this
    {
      start + NodeSize(n) * (n + 1 - Pow2(Level(n)))
    }

    lemma {:induction false} NodeLevel(n: nat)
      requires Shape()
      ensures n < tree.Length <==> Level(n) <= depth
    {
      LevelIsLog2(n);
      if Level(n) <= depth { Pow2Mono(Level(n), depth); } else { Pow2Mono(depth, Level(n)); }
    }

    /** A node's address and size are its slots, scaled by the unit; so every block is inside the
        managed range and aligned to its own size. */
    lemma {:induction false} NodeGeometry(n: nat)
      requires Shape() && n < tree.Length
      ensures Level(n) <= depth
      ensures NodeSize(n) == unit * SlotCount(depth, n) > 0
      ensures NodeAddr(n) == start + unit * FirstSlot(depth, n)
      ensures start <= NodeAddr(n) && NodeAddr(n) + NodeSize(n) <= start + maxSize
      ensures NodeAddr(n) % NodeSize(n) == 0
    {
      NodeLevel(n);
      var w, p := SlotCount(depth, n), Pow2(Level(n));
      var k := n + 1 - p;
      assert 0 <= k && k + 1 <= p by { LevelIsLog2(n); }
      var b := unit * w;
      assert maxSize == b * p by { Pow2Sum(depth - Level(n), Level(n)); Assoc(unit, w, p); }
      assert b > 0 by { MulMono(1, w, unit); }
      CutCounts(b, p, k, maxSize);
      CutPlace(start, b, p, k, maxSize);
      assert b * k == unit * FirstSlot(depth, n) by { SlotsInRange(depth, n); Assoc(unit, w, k); }
    }

    constructor (start: nat, size: nat, unit: nat, tree: array<bv8>)
      requires size < 0x1_0000_0000_0000_0000
      requires RequiredTreeSize(start, size, unit) == Some(tree.Length)
      requires forall i :: 0 <= i < tree.Length ==> tree[i] == 0
      ensures Valid() && live == {} && freeSpace == size
      ensures this.start == start && this.maxSize == size && this.unit == unit && this.tree == tree
    {
      DepthOfRange(size, unit);
      RangeAligned(start, size);
      this.start, this.maxSize, this.unit, this.tree := start, size, unit, tree;
      depth := Log2(size / unit);
      freeSpace := size;
      live := {};
      new;
      UsedEmpty(depth, {}, 0);
      forall i | 0 <= i < tree.Length ensures Status({}, i) == 0 { StatusZero({}, i); }
    }

    /** Makes an allocator over a cleared status array, if the range and the array qualify. */
    static method TryFrom(start: nat, size: nat, unit: nat, tree: array<bv8>) returns (r: Option<PmemAllocator>)
      requires size < 0x1_0000_0000_0000_0000
      modifies tree
      ensures r.Some? <==> RequiredTreeSize(start, size, unit) == Some(tree.Length)
      ensures r.None? ==> tree[..] == old(tree[..])
      ensures r.Some? ==> fresh(r.value) && r.value.Valid() && r.value.live == {} && r.value.freeSpace == size
      ensures r.Some? ==> r.value.start == start && r.value.maxSize == size && r.value.tree == tree
    {
      if RequiredTreeSize(start, size, unit) != Some(tree.Length) {
        return None;
      }
      for i := 0 to tree.Length
        invariant forall k :: 0 <= k < i ==> tree[k] == 0
      {
        tree[i] := 0;
      }
      var allocator := new PmemAllocator(start, size, unit, tree);
      return Some(allocator);
    }

    /** What a valid state means for callers: the bytes spell out the handed-out nodes, their blocks
        are aligned to their size, inside the range and pairwise disjoint, and the free-space
        counter never goes below zero. */
    lemma {:induction false} Safety()
      requires Valid()
      ensures forall i :: 0 <= i < tree.Length ==>
                && (tree[i] == BUSY <==> i in live)
                && (i !in live ==> (tree[i] & OCCUPY_LEFT != 0 <==> Occupied(live, 2 * i + 1)))
                && (i !in live ==> (tree[i] & OCCUPY_RIGHT != 0 <==> Occupied(live, 2 * i + 2)))
                && tree[i] & COAL_LEFT == 0 && tree[i] & COAL_RIGHT == 0
      ensures forall x :: x in live ==>
                && start <= NodeAddr(x) && NodeAddr(x) + NodeSize(x) <= start + maxSize
                && NodeSize(x) > 0 && NodeAddr(x) % NodeSize(x) == 0
      ensures forall x, y :: x in live && y in live && x != y ==>
                NodeAddr(x) + NodeSize(x) <= NodeAddr(y) || NodeAddr(y) + NodeSize(y) <= NodeAddr(x)
      ensures forall x :: x in live ==> Level(x) <= depth
      ensures 0 <= freeSpace == maxSize - unit * TotalSlots(depth, live)
    {
      forall i | 0 <= i < tree.Length ensures tree[i] == Status(live, i) { StatusMeaning(live, i); }
      forall x | x in live { NodeGeometry(x); }
      forall x, y | x in live && y in live && x != y { BlocksDisjoint(x, y); }
      CounterIsTotal();
    }

    lemma {:induction false} CounterIsTotal()
      requires Valid()
      ensures forall x :: x in live ==> Level(x) <= depth
      ensures 0 <= freeSpace == maxSize - unit * TotalSlots(depth, live)
    {
      forall x | x in live ensures Level(x) <= depth { NodeLevel(x); }
      UsedIsTotal(depth, live);
      ScaleLe(unit, UsedSlots(depth, live, 0), Pow2(depth));
    }

    lemma {:induction false} BlocksDisjoint(x: nat, y: nat)
      requires Valid() && x in live && y in live && x != y
      ensures NodeAddr(x) + NodeSize(x) <= NodeAddr(y) || NodeAddr(y) + NodeSize(y) <= NodeAddr(x)
    {
      NodeGeometry(x);
      NodeGeometry(y);
      LiveDisjoint(depth, live, x, y);
      ScaleDisjoint(unit, FirstSlot(depth, x), SlotCount(depth, x), FirstSlot(depth, y), SlotCount(depth, y));
    }

    /** The level whose blocks are the smallest that still hold `size` bytes. */
    function LevelForSize(size: nat): (r: Option<nat>)
      requires size > 0 && Shape()
      reads this
      ensures r.None? <==> size > maxSize
      ensures r.Some? ==> r.value <= depth && size <= unit * Pow2(depth - r.value)
      ensures r.Some? && r.value < depth ==> unit * Pow2(depth - r.value - 1) < size
    {
      if size > maxSize then None
      else
        DivLower(maxSize, size, 1);
        var l := Log2(maxSize / size);
        Log2Spec(maxSize / size);
        LevelBounds(unit, depth, size, maxSize, l);
        Some(if l < depth then l else depth)
    }

    /** First climb of a release: sets the coalescing bit on the side of `s` in each ancestor, up to
        the first whose other side is in use, or to `e`. Returns the last node marked. */
    method MarkCoalescing(s: nat, e: nat, ghost l: set<nat>) returns (ghost top: nat)
      requires Releasable(s, e, l)
      modifies tree
      ensures OnPath(e, s, top)
      ensures forall i :: 0 <= i < tree.Length ==>
                tree[i] == if OnPath(top, s, i) && i != s then Marked(l, s, i) else old(tree[i])
      ensures forall i :: OnPath(top, s, i) && i != s && i != top ==> !BuddyBusy(l, s, i)
      ensures top == e || (top != s && BuddyBusy(l, s, top))
    {
      var cur: nat := s;
      PathSelf(s);
      PathBounds(e, s, s);
      while Level(cur) > Level(e)
        invariant OnPath(e, s, cur) && cur <= s
        invariant forall i :: 0 <= i < tree.Length ==>
                    tree[i] == if OnPath(cur, s, i) && i != s then Marked(l, s, i) else old(tree[i])
        invariant forall i :: OnPath(cur, s, i) && i != s ==> !BuddyBusy(l, s, i)
        decreases cur
      {
        ghost var child := cur;
        var ct := ChildType(cur);
        PathBounds(e, s, cur);
        cur := Parent(cur);
        ClimbStep(e, s, child);
        var flags := tree[cur] | CoalBit(ct);
        tree[cur] := flags;
        forall i ensures OnPath(cur, s, i) <==> OnPath(child, s, i) || i == cur { PathStep(child, s, i); }
        NoCoalescing(l, cur);
        if flags & OccupyBit(ct.Buddy()) != 0 && flags & CoalBit(ct.Buddy()) == 0 {
          return cur;
        }
      }
      PathBounds(e, s, cur);
      return cur;
    }

    /** Second climb of a release: turns the coalescing bits up to `top` into cleared occupancy. */
    method ClearOccupancy(s: nat, e: nat, ghost top: nat, ghost l: set<nat>, ghost before: seq<bv8>)
      requires Shape() && s < tree.Length && |before| == tree.Length && Under(e, s)
      requires s in l && !Occupied(l - {s}, s)
      requires OnPath(e, s, top)
      requires forall i :: OnPath(e, s, i) && i != s ==> i !in l
      requires forall i :: OnPath(top, s, i) && i != s && i != top ==> !BuddyBusy(l, s, i)
      requires top == e || (top != s && BuddyBusy(l, s, top))
      requires forall i :: 0 <= i < tree.Length ==>
                 tree[i] == if i == s then Status(l - {s}, s)
                            else if OnPath(top, s, i) then Marked(l, s, i)
                            else before[i]
      modifies tree
      ensures forall i :: 0 <= i < tree.Length ==>
                tree[i] == if OnPath(top, s, i) then Status(l - {s}, i) else before[i]
      ensures top == e || Occupied(l - {s}, top)
    {
      hide Status, SideBit, Occupied;
      var cur: nat := s;
      PathSelf(s);
      PathBounds(e, s, s);
      while Level(cur) > Level(e)
        invariant OnPath(top, s, cur) && OnPath(e, s, cur) && cur <= s
        invariant cur == top ==> top == e
        invariant !Occupied(l - {s}, cur)
        invariant forall i :: 0 <= i < tree.Length ==>
                    tree[i] == if OnPath(cur, s, i) then Status(l - {s}, i)
                               else if OnPath(top, s, i) then Marked(l, s, i) else before[i]
        decreases cur
      {
        ghost var child := cur;
        var ct := ChildType(cur);
        PathBounds(e, s, cur);
        cur := Parent(cur);
        ClimbStep(e, s, child);
        ClimbStep(top, s, child);
        var flags := tree[cur];
        NoCoalescing(l, cur);
        assert flags == Marked(l, s, cur);
        if flags & CoalBit(ct) != 0 {
          flags := flags & !OccupyBit(ct) & !CoalBit(ct);
          tree[cur] := flags;
        } else {
          break;
        }
        StatusUnmark(l, s, child);
        forall i ensures OnPath(cur, s, i) <==> OnPath(child, s, i) || i == cur { PathStep(child, s, i); }
        if flags & OccupyBit(ct.Buddy()) != 0 {
          return;
        }
      }
      PathBounds(e, s, cur);
      PathBounds(e, s, top);
      PathBounds(top, s, cur);
    }

    ghost predicate Releasable(s: nat, e: nat, l: set<nat>)
      reads this, tree
    {
      && Shape() && s < tree.Length && Under(e, s)
      && s in l && !Occupied(l - {s}, s)
      && (forall i :: 0 <= i < tree.Length && OnPath(e, s, i) ==> tree[i] == Status(l, i))
      && (forall i :: OnPath(e, s, i) && i != s ==> i !in l)
    }

    /** Takes back `s`, clearing bits on the way up to `e`; `l` is the set of nodes whose bytes
        stand on that way before the call. */
    method DeallocNode(s: nat, e: nat, ghost l: set<nat>)
      requires Releasable(s, e, l)
      modifies tree
      ensures forall i :: 0 <= i < tree.Length ==>
                tree[i] == if OnPath(e, s, i) then Status(l - {s}, i) else old(tree[i])
    {
      ghost var top := MarkCoalescing(s, e, l);
      tree[s] := 0;
      StatusZero(l - {s}, s);
      ClearOccupancy(s, e, top, l, old(tree[..]));
      forall i | 0 <= i < tree.Length
        ensures tree[i] == if OnPath(e, s, i) then Status(l - {s}, i) else old(tree[i])
      {
        AbovePath(e, s, top, i);
        if OnPath(e, s, i) && !OnPath(top, s, i) { StatusKept(l, s, top, i); }
      }
    }

    /** Tries to hand out node `s`: marks it busy, then every ancestor on the side of `s`. If an
        ancestor turns out to be handed out itself, everything marked is rolled back and that
        ancestor is returned; the tree is then byte for byte what it was. */
    method TryAlloc(s: nat) returns (fail: Option<nat>)
      requires Valid() && s < tree.Length
      modifies tree
      ensures fail.None? ==> !Overlaps(live, s)
      ensures fail.None? ==> forall i :: 0 <= i < tree.Length ==> tree[i] == Status(live + {s}, i)
      ensures fail.Some? ==> tree[..] == old(tree[..])
      ensures fail.Some? ==> (fail.value == s && Occupied(live, s)) || (fail.value in live && Under(fail.value, s))
    {
      StatusZero(live, s);
      if tree[s] != 0 {
        return Some(s);
      }
      tree[s] := BUSY;
      var cur: nat := s;
      PathSelf(s);
      UnderRoot(s);
      while cur > 0
        invariant Under(cur, s) && cur <= s
        invariant forall i :: OnPath(cur, s, i) ==> i !in live
        invariant forall i :: 0 <= i < tree.Length ==>
                    tree[i] == if OnPath(cur, s, i) then Status(live + {s}, i) else Status(live, i)
        decreases cur
      {
        var child := cur;
        var ct := ChildType(child);
        cur := Parent(child);
        UnderRoot(child);
        ClimbStep(0, s, child);
        StatusZero(live, cur);
        forall i ensures OnPath(cur, s, i) <==> OnPath(child, s, i) || i == cur { PathStep(child, s, i); }
        if tree[cur] & OCCUPY != 0 {
          assert live + {s} - {s} == live;
          DeallocNode(s, child, live + {s});
          assert tree[..] == old(tree[..]);
          return Some(cur);
        }
        tree[cur] := (tree[cur] & !CoalBit(ct)) | OccupyBit(ct);
        StatusMark(live, s, child);
      }
      forall i | 0 <= i < tree.Length ensures tree[i] == Status(live + {s}, i) {
        UnderRoot(i);
        if !Under(i, s) { StatusOffPath(live, s, i); }
      }
      forall x | x in live ensures !Under(x, s) && !Under(s, x) { UnderRoot(x); }
      return None;
    }

    /** Hands out the lowest free block of the size class, or reports that none is left. */
    method Alloc(size: nat) returns (r: Option<Allocation>, ghost node: nat)
      requires Valid() && size > 0
      modifies this`freeSpace, this`live, tree
      ensures Valid()
      ensures r.Some? ==>
                && LevelForSize(size) == Some(Level(node))
                && !Overlaps(old(live), node)
                && (forall j :: 0 <= j < node && Level(j) == Level(node) ==> Overlaps(old(live), j))
                && live == old(live) + {node}
                && r.value == Allocation(NodeAddr(node), NodeSize(node))
                && freeSpace == old(freeSpace) - r.value.size
      ensures r.None? ==>
                && live == old(live) && freeSpace == old(freeSpace) && tree[..] == old(tree[..])
                && (LevelForSize(size).Some? ==>
                      forall j :: Level(j) == LevelForSize(size).value ==> Overlaps(live, j))
    {
      node := 0;
      var level := LevelForSize(size);
      if level.None? {
        return None, node;
      }
      var i := Pow2(level.value) - 1;
      var end := Pow2(level.value + 1) - 1;
      forall j: nat ensures Level(j) == level.value <==> Pow2(level.value) - 1 <= j < end {
        LevelRange(level.value, j);
      }
      Pow2Mono(level.value, depth);
      while i < end
        invariant Pow2(level.value) - 1 <= i
        invariant Valid() && live == old(live) && freeSpace == old(freeSpace) && tree[..] == old(tree[..])
        invariant AllOverlap(live, level.value, i)
        decreases end - i
      {
        StatusZero(live, i);
        if tree[i] & BUSY == 0 {
          var fail := TryAlloc(i);
          if fail.Some? {
            assert forall k :: 0 <= k < tree.Length ==> tree[k] == tree[..][k] == old(tree[..])[k] == old(tree[k]);
            SkipCovers(live, fail.value, i);
            i := SkipTarget(level.value, fail.value);
          } else {
            node := i;
            freeSpace := freeSpace - NodeSize(i);
            live := live + {i};
            HandedOut(old(live), i);
            return Some(Allocation(NodeAddr(i), NodeSize(i))), node;
          }
        } else {
          OccupiedOverlaps(live, i);
          i := i + 1;
        }
      }
      return None, node;
    }

    lemma {:induction false} HandedOut(before: set<nat>, n: nat)
      requires Shape() && n < tree.Length && Antichain(before) && !Overlaps(before, n)
      ensures Antichain(before + {n})
      ensures unit * UsedSlots(depth, before + {n}, 0) == unit * UsedSlots(depth, before, 0) + NodeSize(n)
    {
      NodeGeometry(n);
      UsedAddRoot(depth, before, n);
      Distribute(unit, UsedSlots(depth, before, 0), SlotCount(depth, n));
    }

    /** The node an allocation came from, as `get_node_from_allocation` recomputes it. */
    function NodeFromAllocation(a: Allocation): (n: int)
      requires 0 < a.size
      reads this
    {
      Pow2(Log2(maxSize / a.size)) - 1 + (a.addr - start) / a.size
    }

    /** What `get_node_from_allocation` asserts: the level exists and the range contains the block. */
    predicate Accepts(a: Allocation)
      reads this
    {
      && 0 < a.size && Log2(maxSize / a.size) <= depth
      && start <= a.addr < start + maxSize && start <= a.addr + a.size - 1 < start + maxSize
    }

    /** Address and size identify the node, and pass the assertions. */
    lemma {:induction false} NodeRoundTrip(n: nat)
      requires Shape() && n < tree.Length
      ensures NodeSize(n) > 0 && start <= NodeAddr(n)
      ensures Accepts(Allocation(NodeAddr(n), NodeSize(n)))
      ensures NodeFromAllocation(Allocation(NodeAddr(n), NodeSize(n))) == n
    {
      NodeGeometry(n);
      var w, p := SlotCount(depth, n), Pow2(Level(n));
      var k := n + 1 - p;
      assert 0 <= k && k + 1 <= p by { LevelIsLog2(n); }
      var b := unit * w;
      assert maxSize == b * p by { Pow2Sum(depth - Level(n), Level(n)); Assoc(unit, w, p); }
      CutCounts(b, p, k, maxSize);
      assert Log2(p) == Level(n) by { Log2Unique(p, Level(n)); }
    }

    /** Takes back a block handed out earlier. */
    method Dealloc(a: Allocation, ghost n: nat)
      requires Valid() && n in live && a == Allocation(NodeAddr(n), NodeSize(n))
      modifies this`freeSpace, this`live, tree
      ensures Valid()
      ensures live == old(live) - {n} && freeSpace == old(freeSpace) + a.size
    {
      NodeRoundTrip(n);
      assert Accepts(a);
      var node := NodeFromAllocation(a);
      UnderRoot(node);
      forall i | Under(i, n) && i != n ensures i !in live { UnderRoot(i); }
      DeallocNode(node, 0, live);
      freeSpace := freeSpace + NodeSize(node);
      live := live - {n};
      forall i | 0 <= i < tree.Length ensures tree[i] == Status(live, i) {
        UnderRoot(i);
        if !Under(i, n) { StatusOffPath(old(live), n, i); }
      }
      assert !Overlaps(live, n);
      assert live + {n} == old(live);
      HandedOut(live, n);
    }
  }

  lemma {:induction false} LevelRange(level: nat, j: nat)
    ensures Level(j) == level <==> Pow2(level) - 1 <= j < Pow2(level + 1) - 1
  {
    LevelIsLog2(j);
    if Pow2(level) - 1 <= j < Pow2(level + 1) - 1 { Log2Unique(j + 1, level); }
  }

  /** First node of the level after the subtree of `f`. */
  function SkipTarget(level: nat, f: nat): int
    requires Level(f) <= level
  {
    Pow2(level - Level(f)) * (f + 1) - 1 + Pow2(level - Level(f))
  }

  /** Every node of the level below index `i` shares memory with a handed-out node. */
  ghost predicate AllOverlap(live: set<nat>, level: nat, i: int) {
    forall j :: 0 <= j < i && Level(j) == level ==> Overlaps(live, j)
  }

  lemma {:induction false} OccupiedOverlaps(live: set<nat>, i: nat)
    requires Occupied(live, i) && AllOverlap(live, Level(i), i)
    ensures AllOverlap(live, Level(i), i + 1)
  {
    assert Overlaps(live, i);
  }

  /** Every node of the level between a failed attempt and the end of the blocking node's subtree
      lies inside the blocking node, so skipping to that end passes over nothing free. */
  lemma {:induction false} SkipCovers(live: set<nat>, f: nat, i: nat)
    requires Under(f, i) && f in live && AllOverlap(live, Level(i), i)
    ensures Level(f) <= Level(i) && i < SkipTarget(Level(i), f)
    ensures AllOverlap(live, Level(i), SkipTarget(Level(i), f))
  {
    UnderLe(f, i);
    var d := Level(i) - Level(f);
    UnderInterval(f, i, d);
    Distribute(Pow2(d), f + 1, 1);
    forall j | i <= j < SkipTarget(Level(i), f) && Level(j) == Level(i) ensures Overlaps(live, j) {
      UnderInterval(f, j, d);
      assert Under(f, j);
    }
  }

  /** The byte of `i` with the coalescing bit set on the side of `s`. */
  ghost function Marked(l: set<nat>, s: nat, i: nat): bv8 {
    Status(l, i) | CoalBit(Toward(i, s))
  }

  /** Node `i` has blocks in use on the side away from `s`. */
  ghost predicate BuddyBusy(l: set<nat>, s: nat, i: nat) {
    Status(l, i) & OccupyBit(Toward(i, s).Buddy()) != 0
  }

  /** The way up to `e` is the way up to `top` and what lies above `top`. */
  lemma {:induction false} AbovePath(e: nat, s: nat, top: nat, i: nat)
    requires OnPath(e, s, top)
    ensures OnPath(top, s, i) ==> OnPath(e, s, i)
    ensures OnPath(e, s, i) && !OnPath(top, s, i) ==> Under(i, top) && i != top && i != s
  {
    if OnPath(top, s, i) { UnderTrans(e, top, i); }
    if OnPath(e, s, i) { UnderChain(top, i, s); }
  }

  lemma {:induction false} PathSelf(s: nat)
    ensures forall i :: OnPath(s, s, i) <==> i == s
  {
    forall i ensures OnPath(s, s, i) <==> i == s {
      if OnPath(s, s, i) { UnderLe(s, i); UnderLe(i, s); }
    }
  }

  lemma {:induction false} ClimbStep(e: nat, s: nat, c: nat)
    requires OnPath(e, s, c) && c != e
    ensures c > 0 && OnPath(e, s, Parent(c)) && Parent(c) < c
    ensures Toward(Parent(c), s) == ChildType(c)
    ensures Parent(c) != s
    ensures !OnPath(c, s, Parent(c))
  {
    UnderLe(c, s);
    TowardChild(c, s);
    if OnPath(c, s, Parent(c)) { UnderLe(c, Parent(c)); }
  }

  /** A range of `b * p` bytes cut into `p` blocks: block size, block count and block number are
      read back by division. */
  lemma {:induction false} CutCounts(b: nat, p: nat, k: nat, range: nat)
    requires b > 0 && p > 0 && range == b * p
    ensures range / p == b && range / b == p && (b * k) / b == k
  {
    ModOfMultiple(b, p);
    ModOfMultiple(p, b);
    ModOfMultiple(k, b);
  }

  /** Block `k` lies inside the range and is aligned to its size. */
  lemma {:induction false} CutPlace(start: nat, b: nat, p: nat, k: nat, range: nat)
    requires b > 0 && p > 0 && range == b * p && start % range == 0 && k + 1 <= p
    ensures 0 <= b * k && b * k + b <= range
    ensures (start + b * k) % b == 0
  {
    assert b * k + b <= range by { MulMono(k + 1, p, b); }
    assert (start + b * k) % b == 0 by { AlignedSum(start, b, p, k); }
  }

  /** `l` is the logarithm of how often `size` fits in the whole range `m`. */
  lemma {:induction false} LevelBounds(unit: nat, depth: nat, size: nat, m: nat, l: nat)
    requires unit > 0 && 0 < size && m == unit * Pow2(depth) && Pow2(l) <= m / size < 2 * Pow2(l)
    ensures l <= depth ==> size <= unit * Pow2(depth - l)
    ensures l < depth ==> unit * Pow2(depth - l - 1) < size
    ensures l > depth ==> size <= unit
  {
    if l <= depth {
      var w := unit * Pow2(depth - l);
      assert m == Pow2(l) * w by { Pow2Sum(l, depth - l); Assoc(unit, Pow2(l), Pow2(depth - l)); }
      LevelFits(m, size, Pow2(l), w);
      if l < depth {
        var v := unit * Pow2(depth - l - 1);
        assert w == 2 * v by { Assoc(unit, 2, Pow2(depth - l - 1)); }
        assert m == (2 * Pow2(l)) * v by { Assoc(Pow2(l), 2, v); }
        LevelTight(m, size, 2 * Pow2(l), v);
      }
    } else {
      assert Pow2(depth) <= m / size by { Pow2Mono(depth, l); }
      LevelFits(m, size, Pow2(depth), unit);
    }
  }

  lemma {:induction false} LevelFits(m: nat, size: nat, p: nat, b: nat)
    requires size > 0 && 0 < p <= m / size && m == p * b
    ensures size <= b
  {
    assert (m / size) * size <= m;
    MulMono(p, m / size, size);
    CancelLe(p, size, b);
  }

  lemma {:induction false} LevelTight(m: nat, size: nat, p: nat, b: nat)
    requires size > 0 && m / size < p && m == p * b
    ensures b < size
  {
    assert m < (m / size + 1) * size;
    MulMono(m / size + 1, p, size);
    if size <= b { MulMono(size, b, p); }
  }

}
