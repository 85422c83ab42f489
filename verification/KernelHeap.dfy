/** The kernel heap: zones that allocate from and release to their free lists, and the allocator that
    tries its zones in turn and makes a new one when none has room. */
module KernelHeap {
  import opened BitUtils
  import opened HeapZone
  import opened Wrappers

  const HEAP_ZONE_SIZE: nat := 32768

  datatype Region = Region(base: nat, size: nat)

  lemma {:induction false} NodePlaced(nodes: seq<Node>, lo: nat, hi: nat, k: nat)
    requires Ordered(nodes, lo, hi) && k < |nodes|
    ensures Placed(nodes[k], lo, hi)
  {
  }

  lemma {:induction false} GapInRange(nodes: seq<Node>, addr: nat, i: nat)
    requires IsGap(nodes, addr, i)
    ensures i <= |nodes|
  {
  }

  lemma {:induction false} PastHeader(base: nat, size: nat)
    requires base % PAGE_SIZE == 0 && size % PAGE_SIZE == 0 && size >= PAGE_SIZE
    ensures (base + INITIAL_CHUNK) % CHUNK == 0 && (size - INITIAL_CHUNK) % CHUNK == 0 && size > INITIAL_CHUNK
  {
    ChunksInPages(base / PAGE_SIZE, 3);
    ChunksInPages(size / PAGE_SIZE, -3);
  }

  lemma {:induction false} ChunksInPages(pages: nat, k: int)
    ensures (pages * PAGE_SIZE + k * CHUNK) % CHUNK == 0
  {
    var q := pages * (PAGE_SIZE / CHUNK) + k;
    assert pages * PAGE_SIZE + k * CHUNK == q * CHUNK;
    MultipleRest(q);
  }

  lemma {:induction false} MultipleRest(q: int)
    ensures q * CHUNK % CHUNK == 0
  {
  }

  lemma {:induction false} FreshZone(base: nat, size: nat)
    requires base % PAGE_SIZE == 0 && size % PAGE_SIZE == 0 && size >= PAGE_SIZE
    ensures var nodes := [Node(base + INITIAL_CHUNK, size - INITIAL_CHUNK)];
            && Ordered(nodes, base + INITIAL_CHUNK, base + size)
            && Tiles(nodes, {}, base + INITIAL_CHUNK, base + size)
            && Sum(nodes) == size - INITIAL_CHUNK
  {
    var n := Node(base + INITIAL_CHUNK, size - INITIAL_CHUNK);
    assert Sum([n]) == n.size + Sum([n][1..]);
    PastHeader(base, size);
    assert Placed(n, base + INITIAL_CHUNK, base + size);
    forall x | base + INITIAL_CHUNK <= x < base + size ensures InFree([n], x) { assert Holds([n][0], x); }
  }

  class Zone {
    const base: nat
    const size: nat
    var nodes: seq<Node>
    var freeSpace: nat
    /** The blocks handed out and not yet released. */
    ghost var live: set<Node>

    ghost predicate Valid()
      reads this
    {
      && base % PAGE_SIZE == 0 && size % PAGE_SIZE == 0 && size >= PAGE_SIZE
      && Ordered(nodes, base + INITIAL_CHUNK, base + size)
      && Tiles(nodes, live, base + INITIAL_CHUNK, base + size)
      && freeSpace == Sum(nodes)
    }

    constructor (mem: Region)
      requires mem.base % PAGE_SIZE == 0 && mem.size % PAGE_SIZE == 0 && mem.size >= PAGE_SIZE
      ensures Valid() && live == {} && base == mem.base && size == mem.size
      ensures nodes == [Node(base + INITIAL_CHUNK, size - INITIAL_CHUNK)]
    {
      base, size := mem.base, mem.size;
      freeSpace := mem.size - INITIAL_CHUNK;
      var first := Node(mem.base + INITIAL_CHUNK, mem.size - INITIAL_CHUNK);
      nodes := [first];
      live := {};
      new;
      FreshZone(base, size);
    }

    lemma {:induction false} LiveInside(b: Node)
      requires Valid() && b in live
      ensures base + INITIAL_CHUNK <= b.addr && b.End() <= base + size
      ensures b.addr % CHUNK == 0 && b.size % CHUNK == 0 && b.size > 0
    {
      assert Placed(b, base + INITIAL_CHUNK, base + size);
    }

    /** `HeapZone::contains`, whose upper bound lies one chunk past the zone's end. */
    predicate Contains(addr: nat, len: nat) { addr >= base + CHUNK && addr + len <= base + CHUNK + size }

    lemma {:induction false} ContainsIff(addr: nat, len: nat)
      requires addr >= base + INITIAL_CHUNK
      ensures Contains(addr, len) <==> addr + len <= base + size + 32
    {
    }

    /** Takes a block off the end of the first free node that can give one. */
    method Alloc(size: nat, align: nat) returns (r: Option<Node>, ghost k: nat)
      requires Valid() && size > 0 && IsAlign(align)
      modifies this
      ensures Valid()
      ensures r.None? ==> nodes == old(nodes) && live == old(live) && freeSpace == old(freeSpace)
      ensures r.None? <==> forall k :: 0 <= k < |old(nodes)| ==> !Fits(old(nodes)[k], size, align)
      ensures r.Some? ==>
                && live == old(live) + {r.value} && r.value !in old(live)
                && freeSpace == old(freeSpace) - r.value.size
                && r.value.addr % align == 0 && r.value.size >= size
      ensures r.Some? ==> Took(old(nodes), nodes, k, size, align, r.value)
    {
      ghost var lo, hi := base + INITIAL_CHUNK, base + this.size;
      if size > freeSpace {
        forall j | 0 <= j < |nodes| ensures !Fits(nodes[j], size, align) { SumAt(nodes, j); }
        return None, 0;
      }
      hide Tiles, Ordered, Resize, BlockAddr, IsAlign, CutAt, Sum;
      var i := 0;
      while i < |nodes|
        invariant 0 <= i <= |nodes|
        invariant Valid() && nodes == old(nodes) && live == old(live) && freeSpace == old(freeSpace)
        invariant forall j :: 0 <= j < i ==> !Fits(nodes[j], size, align)
      {
        var n := nodes[i];
        if n.size >= size {
          assert Placed(n, lo, hi) by { NodePlaced(nodes, lo, hi, i); }
          ResizeSpec(n, size, align, lo, hi);
          match Resize(n, size, align) {
            case NoCapacity =>
            case _ =>
              var addr := Resize(n, size, align).addr;
              var b := Node(addr, n.End() - addr);
              TakeBlock(i, addr);
              return Some(b), i;
          }
        }
        i := i + 1;
      }
      return None, 0;
    }

    /** Shrinks node `k` to end at `addr`, or removes it, and counts the block as taken. */
    method TakeBlock(k: nat, addr: nat)
      requires Valid() && k < |nodes| && nodes[k].addr <= addr < nodes[k].End()
      requires addr % CHUNK == 0 && (addr - nodes[k].addr) % CHUNK == 0 && (nodes[k].End() - addr) % CHUNK == 0
      modifies this
      ensures Valid() && nodes == CutAt(old(nodes), k, addr)
      ensures var b := Node(addr, old(nodes)[k].End() - addr);
              live == old(live) + {b} && b !in old(live) && freeSpace == old(freeSpace) - b.size
    {
      hide Tiles, Ordered, CutAt, Sum;
      CutOrdered(nodes, base + INITIAL_CHUNK, base + size, k, addr);
      CutTiles(nodes, live, base + INITIAL_CHUNK, base + size, k, addr);
      CutSum(nodes, k, addr);
      var b := Node(addr, nodes[k].End() - addr);
      freeSpace := freeSpace - b.size;
      nodes := CutAt(nodes, k, addr);
      live := live + {b};
    }

    /** `get_prev_next_node`: the place of an address in the list. */
    method FindGap(addr: nat) returns (i: nat)
      requires Ordered(nodes, base + INITIAL_CHUNK, base + size)
      ensures IsGap(nodes, addr, i)
    {
      i := 0;
      while i < |nodes| && nodes[i].addr <= addr
        invariant i <= |nodes|
        invariant forall j :: 0 <= j < i ==> nodes[j].addr <= addr
      {
        i := i + 1;
      }
      forall j | i <= j < |nodes| ensures addr < nodes[j].addr {
        if j > i { assert nodes[i].End() < nodes[j].addr; }
      }
    }

    /** Puts a live block back, or more than that, merging it with the free nodes before and after it that it
        touches. */
    method Dealloc(b: Node, ghost block: Node) returns (ghost i: nat)
      requires Valid() && block in live && b.addr == block.addr && (b.size == block.size || b.size > block.size)
      modifies this
      ensures live == old(live) - {block} && freeSpace == old(freeSpace) + b.size
      ensures IsGap(old(nodes), b.addr, i) && nodes == Released(old(nodes), i, b)
      ensures Valid() <==> b == block
    {
      hide Tiles, Ordered, Sum, Released, IsGap;
      ghost var lo, hi := base + INITIAL_CHUNK, base + size;
      var at := FindGap(b.addr);
      i := at;
      GapInRange(nodes, b.addr, i);
      if b == block {
        ReleasedOrdered(nodes, live, lo, hi, i, b);
        ReleasedTiles(nodes, live, lo, hi, i, b);
      } else {
        LongBreaks(nodes, live, lo, hi, i, block, b.size);
      }
      ReleasedSum(nodes, i, b);
      Merge(at, b);
      freeSpace := freeSpace + b.size;
      live := live - {block};
    }

    /** Counts a live block as two. */
    ghost method Split(b: Node, len: nat)
      requires Valid() && b in live && 0 < len < b.size && len % CHUNK == 0
      modifies this`live
      ensures Valid()
      ensures var front, rest := Node(b.addr, len), Node(b.addr + len, b.size - len);
              && live == old(live) - {b} + {front} + {rest}
              && front !in old(live) && rest !in old(live) && front != rest
    {
      SplitTiles(nodes, live, base + INITIAL_CHUNK, base + size, b, len);
      live := live - {b} + {Node(b.addr, len)} + {Node(b.addr + len, b.size - len)};
    }

    /** The list update of a release: join the node before or insert, then join the node after. */
    method Merge(at: nat, b: Node)
      requires at <= |nodes|
      modifies this`nodes
      ensures nodes == Released(old(nodes), at, b)
    {
      var i := at;
      if i > 0 && nodes[i - 1].End() == b.addr {
        nodes := nodes[i - 1 := Node(nodes[i - 1].addr, nodes[i - 1].size + b.size)];
      } else {
        nodes := nodes[..i] + [b] + nodes[i..];
        i := i + 1;
      }
      if i < |nodes| && nodes[i - 1].End() == nodes[i].addr {
        nodes := nodes[..i - 1] + [Node(nodes[i - 1].addr, nodes[i - 1].size + nodes[i].size)] + nodes[i + 1..];
      }
      assert nodes == Released(old(nodes), at, b);
    }
  }

  /** What the allocator knows of a block it handed out: the zone it came from and the layout asked for. */
  datatype Held = Held(zone: nat, size: nat, align: nat)

  /** The size of the zone made for a request that no zone can meet. */
  function ZoneSizeFor(size: nat, align: nat): nat {
    Max(HEAP_ZONE_SIZE, size + Max(align, CHUNK) + INITIAL_CHUNK)
  }

  predicate Separate(base: nat, size: nat, base': nat, size': nat) {
    base + size <= base' || base' + size' <= base
  }

  /** How the length of a block handed out relates to the one recomputed at release. */
  ghost predicate LengthKnown(b: Node, size: nat, align: nat) {
    && 0 < size <= b.size && IsAlign(align) && b.addr % CHUNK == 0 && b.addr > 0
    && var t := Tail(b, align);
       AlignUp(size, Max(CHUNK, align)) ==
       if FitsInside(b, size, align) then b.size - t else b.size + (Max(CHUNK, align) - t)
  }

  /** How far the block's end lies past a multiple of the larger of chunk and alignment. */
  function Tail(b: Node, align: nat): nat { b.End() % Max(CHUNK, align) }

  /** Held like a block of its own, though nobody will release it. */
  function Lost(zone: nat, size: nat): Held { Held(zone, size, CHUNK) }

  /** What is held if a block counts as two. */
  ghost function Divided(live: map<Node, Held>, b: Node, front: Node, rest: Node): map<Node, Held>
    requires b in live
  {
    (live - {b})[rest := Lost(live[b].zone, rest.size)][front := Lost(live[b].zone, front.size)]
  }

  /** What is held once the first `len` bytes of a block were given back. */
  ghost function Left(live: map<Node, Held>, b: Node, len: nat): map<Node, Held>
    requires b in live && len <= b.size
  {
    if len == b.size then live - {b}
    else (live - {b})[Node(b.addr + len, b.size - len) := Lost(live[b].zone, b.size - len)]
  }

  /** The block releases no byte beyond its own: there are that many bytes over the size asked for. */
  predicate FitsInside(b: Node, size: nat, align: nat)
    requires size <= b.size
  {
    Tail(b, align) <= b.size - size
  }

  lemma {:induction false} LostKnown(b: Node)
    requires b.addr > 0 && b.size > 0 && b.addr % CHUNK == 0 && b.size % CHUNK == 0
    ensures LengthKnown(b, b.size, CHUNK)
  {
    assert b.End() % CHUNK == 0;
    assert Pow2(5) == CHUNK;
    AlignUpSpec(b.size, CHUNK);
    if AlignUp(b.size, CHUNK) > b.size { MultiplesApart(b.size, AlignUp(b.size, CHUNK), CHUNK); }
    hide AlignUp;
    ChunkIsAlign();
  }

  lemma {:induction false} ChunkIsAlign()
    ensures IsAlign(CHUNK)
  {
    assert Pow2(5) == 32;
    AlignAtLeast(32, 5);
    AlignOfSpec(32);
  }

  lemma {:induction false} RestIs(x: nat, a: nat)
    requires a > 0
    ensures x % a == x - x / a * a && x / a * a <= x
  {
  }

  lemma {:induction false} RestMultiple(x: nat, a: nat)
    requires a > 0 && a % CHUNK == 0 && x % CHUNK == 0
    ensures x % a % CHUNK == 0
  {
    var f := x / a * a;
    ModOfMultiple(x / a, a);
    MultipleOfFactor(f, a, CHUNK);
    RestIs(x, a);
    DiffChunks(x, f);
  }

  /** The length a release gives back: whole chunks and no more than the block, or more than the block. */
  lemma {:induction false} Recomputed(b: Node, size: nat, align: nat)
    requires LengthKnown(b, size, align) && b.size % CHUNK == 0
    ensures align > 0 && RecomputedLength(b.addr, size, align) == Some(AlignUp(size, Max(CHUNK, align)))
    ensures FitsInside(b, size, align) ==>
              var len := b.size - Tail(b, align);
              0 < len == AlignUp(size, Max(CHUNK, align)) && len % CHUNK == 0
    ensures !FitsInside(b, size, align) ==> AlignUp(size, Max(CHUNK, align)) > b.size
  {
    ChunkAligned(b.addr);
    TailWhole(b, align);
    assert align > 0;
    assert Tail(b, align) < Max(CHUNK, align);
    hide Tail, IsAlign, AlignUp, AlignOf;
    if FitsInside(b, size, align) { DiffChunks(b.size, Tail(b, align)); }
  }

  lemma {:induction false} TailWhole(b: Node, align: nat)
    requires IsAlign(align) && b.addr % CHUNK == 0 && b.size % CHUNK == 0
    ensures Tail(b, align) % CHUNK == 0
  {
    MaxAlign(align);
    assert Max(align, CHUNK) == Max(CHUNK, align);
    hide IsAlign;
    assert b.End() % CHUNK == 0;
    RestMultiple(b.End(), Max(CHUNK, align));
  }

  lemma {:induction false} DiffChunks(x: nat, y: nat)
    requires x % CHUNK == 0 && y % CHUNK == 0 && y <= x
    ensures (x - y) % CHUNK == 0
  {
  }

  lemma {:induction false} TookLength(before: seq<Node>, after: seq<Node>, k: nat, size: nat, align: nat, b: Node)
    requires IsAlign(align) && size > 0 && Took(before, after, k, size, align, b)
    requires b.size > 0 && b.addr % CHUNK == 0 && b.addr > 0
    ensures LengthKnown(b, size, align)
  {
    var n := before[k];
    assert Max(align, CHUNK) == Max(CHUNK, align);
    assert b.addr == AlignDown(n.End() - size, Max(align, CHUNK));
    AlignDownSpec(n.End() - size, Max(align, CHUNK));
    LengthExact(n.End(), size, Max(align, CHUNK));
  }

  /** A zone made for a request has room for it, whatever the alignment. */
  lemma {:induction false} FreshZoneFits(base: nat, zsize: nat, size: nat, align: nat)
    requires IsAlign(align) && size > 0 && zsize >= ZoneSizeFor(size, align)
    ensures Fits(Node(base + INITIAL_CHUNK, zsize - INITIAL_CHUNK), size, align)
  {
    AlignDownSpec(base + zsize - size, Max(align, CHUNK));
  }

  /** Although its bound reaches a chunk past the zone's end, no other zone claims an address of this one. */
  lemma {:induction false} OnlyOwnZoneContains(base: nat, size: nat, base': nat, size': nat, addr: nat, len: nat)
    requires Separate(base, size, base', size') && base + INITIAL_CHUNK <= addr < base + size
    ensures !(addr >= base' + CHUNK && addr + len <= base' + CHUNK + size')
  {
  }

  /** An address that is a positive multiple of a chunk is aligned to at least a chunk. */
  lemma {:induction false} ChunkAligned(addr: nat)
    requires addr % CHUNK == 0 && addr > 0
    ensures AlignOf(addr) >= CHUNK
  {
    assert Pow2(5) == 32;
    AlignAtLeast(addr, 5);
  }

  /** The record of blocks handed out lists exactly the live blocks of the zones, with their lengths. */
  ghost predicate Recorded(live: map<Node, Held>, zones: seq<set<Node>>) {
    && (forall i, b :: 0 <= i < |zones| && b in zones[i] ==> b in live && live[b].zone == i)
    && (forall b :: b in live ==> live[b].zone < |zones| && b in zones[live[b].zone])
    && (forall b :: b in live ==> LengthKnown(b, live[b].size, live[b].align))
  }

  lemma {:induction false} RecordedAt(live: map<Node, Held>, zones: seq<set<Node>>, b: Node)
    requires Recorded(live, zones) && b in live
    ensures live[b].zone < |zones| && b in zones[live[b].zone] && LengthKnown(b, live[b].size, live[b].align)
  {
  }

  lemma {:induction false} RecordAdd(live: map<Node, Held>, zones: seq<set<Node>>, b: Node, h: Held)
    requires Recorded(live, zones) && b !in live && h.zone < |zones| && LengthKnown(b, h.size, h.align)
    ensures Recorded(live[b := h], zones[h.zone := zones[h.zone] + {b}])
  {
    hide LengthKnown;
  }

  lemma {:induction false} RecordRemove(live: map<Node, Held>, zones: seq<set<Node>>, b: Node)
    requires Recorded(live, zones) && b in live
    ensures Recorded(live - {b}, zones[live[b].zone := zones[live[b].zone] - {b}])
  {
    hide LengthKnown;
  }

  lemma {:induction false} RecordSplit(live: map<Node, Held>, zones: seq<set<Node>>, b: Node, front: Node, rest: Node)
    requires Recorded(live, zones) && b in live && front !in live && rest !in live && front != rest
    requires LengthKnown(front, front.size, CHUNK) && LengthKnown(rest, rest.size, CHUNK)
    ensures var z := live[b].zone;
            z < |zones| && Recorded(Divided(live, b, front, rest), zones[z := zones[z] - {b} + {front} + {rest}])
  {
    hide LengthKnown;
    var z := live[b].zone;
    RecordRemove(live, zones, b);
    var l1, z1 := live - {b}, zones[z := zones[z] - {b}];
    RecordAdd(l1, z1, rest, Lost(z, rest.size));
    var l2, z2 := l1[rest := Lost(z, rest.size)], z1[z := z1[z] + {rest}];
    RecordAdd(l2, z2, front, Lost(z, front.size));
    assert z2[z] + {front} == zones[z] - {b} + {front} + {rest};
    assert z2[z := z2[z] + {front}] == zones[z := zones[z] - {b} + {front} + {rest}];
  }

  /** Two ranges are separate exactly if no address is in both. */
  lemma {:induction false} SeparateIff(base: nat, size: nat, base': nat, size': nat)
    requires size > 0 && size' > 0
    ensures Separate(base, size, base', size') <==>
            forall x :: !(Holds(Node(base, size), x) && Holds(Node(base', size'), x))
  {
    var x := if base <= base' then base' else base;
    assert !Separate(base, size, base', size') ==> Holds(Node(base, size), x) && Holds(Node(base', size'), x);
  }

  /** The alignments are the powers of two. */
  lemma {:induction false} IsAlignIff(align: nat)
    ensures IsAlign(align) <==> exists k: nat :: align == Pow2(k)
  {
    if IsAlign(align) {
      AlignOfSpec(align);
      assert align == Pow2(TrailingZeros(align));
    }
    forall k: nat | align == Pow2(k) ensures IsAlign(align) { PowerIsAlign(k); }
  }

  lemma {:induction false} PowerIsAlign(k: nat)
    ensures IsAlign(Pow2(k))
  {
    if k > 0 {
      PowerIsAlign(k - 1);
      assert Pow2(k) / 2 == Pow2(k - 1);
    }
  }

  lemma {:induction false} AlignPositive(align: nat)
    requires IsAlign(align)
    ensures align > 0
  {
  }

  lemma {:induction false} EndOnChunk(b: Node, align: nat)
    requires b.addr % CHUNK == 0 && b.size % CHUNK == 0 && align <= CHUNK
    ensures b.End() % Max(CHUNK, align) == 0
  {
    assert Max(CHUNK, align) == CHUNK;
  }

  /** No free node of the zone can give the block. */
  ghost predicate NoRoom(nodes: seq<Node>, size: nat, align: nat) {
    align > 0 && forall k :: 0 <= k < |nodes| ==> !Fits(nodes[k], size, align)
  }

  class LinkedListAllocator {
    var zones: seq<Zone>
    /** Every block handed out and not yet released. */
    ghost var live: map<Node, Held>

    ghost predicate Valid()
      reads this, zones
    {
      && (forall i :: 0 <= i < |zones| ==> zones[i].Valid())
      && ZonesApart()
      && Recorded(live, Contents())
    }

    /** The live blocks of each zone. */
    ghost function Contents(): (c: seq<set<Node>>)
      reads this, zones
      ensures |c| == |zones|
    {
      seq(|zones|, i requires 0 <= i < |zones| reads this, zones => zones[i].live)
    }

    ghost predicate ZonesApart()
      reads this
    {
      forall i, j :: 0 <= i < |zones| && 0 <= j < |zones| && i != j ==>
        zones[i] != zones[j] && Separate(zones[i].base, zones[i].size, zones[j].base, zones[j].size)
    }

    constructor ()
      ensures Valid() && live == map[] && zones == []
    {
      zones, live := [], map[];
    }

    /** No two blocks handed out share a byte, in the same zone or in different ones. */
    lemma {:induction false} LiveApart(a: Node, b: Node)
      requires Valid() && a in live && b in live && a != b
      ensures Apart(a, b)
    {
      var i, j := live[a].zone, live[b].zone;
      assert zones[i].Valid() && zones[j].Valid();
      if i != j { assert Separate(zones[i].base, zones[i].size, zones[j].base, zones[j].size); }
    }

    /** Tries every zone with enough free space, then makes a new one; `mem` is what the page allocator
        gives for it, if it is asked and has memory. */
    method Alloc(size: nat, align: nat, mem: Option<Region>) returns (r: Option<Node>)
      requires Valid() && size > 0 && IsAlign(align)
      requires mem.Some? ==> UsableRegion(mem.value, ZoneSizeFor(size, align))
      modifies this, zones
      ensures Valid() && fresh(set z | z in zones && z !in old(zones))
      ensures r.Some? ==>
                && r.value !in old(live) && r.value.addr % align == 0 && r.value.size >= size
                && exists z: nat :: live == old(live)[r.value := Held(z, size, align)]
      ensures r.None? ==> live == old(live) && mem.None?
      ensures mem.Some? ==> r.Some?
      ensures zones != old(zones) ==> forall i :: 0 <= i < |old(zones)| ==> NoRoom(old(zones[i].nodes), size, align)
    {
      hide Zone.Valid, Fits, IsAlign;
      var i := 0;
      while i < |zones|
        invariant 0 <= i <= |zones|
        invariant Valid() && zones == old(zones) && live == old(live)
        invariant forall j :: 0 <= j < |zones| ==> zones[j].nodes == old(zones[j].nodes)
        invariant forall j :: 0 <= j < i ==> NoRoom(zones[j].nodes, size, align)
      {
        r := AllocIn(i, size, align);
        if r.Some? { return; }
        i := i + 1;
      }
      if mem.None? { return None; }
      AddZone(mem.value);
      ghost var z := zones[|zones| - 1];
      FreshZoneFits(z.base, z.size, size, align);
      AlignPositive(align);
      assert Fits(z.nodes[0], size, align);
      r := AllocIn(|zones| - 1, size, align);
    }

    /** A page-aligned region of whole pages, large enough and away from every zone. */
    ghost predicate UsableRegion(mem: Region, size: nat)
      reads this
    {
      && mem.base % PAGE_SIZE == 0 && mem.size % PAGE_SIZE == 0 && mem.size >= size && size >= PAGE_SIZE
      && forall i :: 0 <= i < |zones| ==> Separate(zones[i].base, zones[i].size, mem.base, mem.size)
    }

    method AddZone(mem: Region)
      requires Valid() && UsableRegion(mem, PAGE_SIZE)
      modifies this
      ensures Valid() && |zones| == |old(zones)| + 1 && zones[..|old(zones)|] == old(zones) && live == old(live)
      ensures fresh(zones[|old(zones)|])
      ensures var z := zones[|old(zones)|];
              && z.base == mem.base && z.size == mem.size && z.live == {}
              && z.nodes == [Node(z.base + INITIAL_CHUNK, z.size - INITIAL_CHUNK)]
    {
      hide Zone.Valid;
      var z := new Zone(mem);
      zones := zones + [z];
      assert Contents() == old(Contents()) + [{}];
    }

    method AllocIn(i: nat, size: nat, align: nat) returns (r: Option<Node>)
      requires Valid() && i < |zones| && size > 0 && IsAlign(align)
      modifies this`live, zones[i]
      ensures Valid()
      ensures r.None? ==> live == old(live) && zones[i].nodes == old(zones[i].nodes)
      ensures r.None? <==> NoRoom(old(zones[i].nodes), size, align)
      ensures r.Some? ==>
                && r.value !in old(live) && r.value.addr % align == 0 && r.value.size >= size
                && live == old(live)[r.value := Held(i, size, align)]
    {
      hide Zone.Valid, Fits, IsAlign, AlignUp, Took, LengthKnown, Recorded;
      assert align > 0 by { AlignPositive(align); }
      ghost var k;
      r, k := zones[i].Alloc(size, align);
      if r.Some? {
        zones[i].LiveInside(r.value);
        TookLength(old(zones[i].nodes), zones[i].nodes, k, size, align, r.value);
        NotElsewhere(i, r.value);
        if r.value in live { RecordedAt(live, old(Contents()), r.value); }
        RecordAdd(live, old(Contents()), r.value, Held(i, size, align));
        live := live[r.value := Held(i, size, align)];
      }
      assert Contents() == if r.None? then old(Contents()) else old(Contents())[i := zones[i].live];
      assert forall j :: 0 <= j < |zones| ==> zones[j].Valid();
    }

    /** A block of one zone is in no other. */
    lemma {:induction false} NotElsewhere(i: nat, b: Node)
      requires i < |zones| && ZonesApart() && forall j :: 0 <= j < |zones| ==> zones[j].Valid()
      requires b in zones[i].live
      ensures forall j :: 0 <= j < |zones| && j != i ==> b !in zones[j].live
    {
      hide Zone.Valid;
      zones[i].LiveInside(b);
      forall j | 0 <= j < |zones| && j != i ensures b !in zones[j].live {
        if b in zones[j].live { zones[j].LiveInside(b); }
      }
    }

    /** With an alignment of at most a chunk the recomputed length is always the one handed out. */
    lemma {:induction false} SmallAlignReleasable(b: Node)
      requires Valid() && b in live && live[b].align <= CHUNK
      ensures live[b].size <= b.size && Tail(b, live[b].align) == 0
    {
      hide Zone.Valid, Recorded;
      RecordedAt(live, Contents(), b);
      hide LengthKnown;
      zones[live[b].zone].LiveInside(b);
      EndOnChunk(b, live[b].align);
    }

    /** Finds the zone by address, with the length recomputed from the layout, and gives that many bytes
        back; the source panics, here `false`, if no zone claims them. If they are fewer than the block has,
        the rest is then in no list and belongs to nobody. If they are more, the free list takes in bytes of
        another block, or bytes that are free already or past the zone's end. */
    method Dealloc(addr: nat, size: nat, align: nat, ghost b: Node) returns (ok: bool)
      requires Valid() && b in live && b.addr == addr && live[b].size == size <= b.size && live[b].align == align
      modifies this, zones
      ensures zones == old(zones) && old(live)[b].zone < |zones|
      ensures var home := zones[old(live)[b].zone];
              ok <==> addr + AlignUp(size, Max(CHUNK, align)) <= home.base + home.size + 32
      ensures !ok ==> Valid() && live == old(live)
      ensures FitsInside(b, size, align) ==> ok && live == Left(old(live), b, b.size - Tail(b, align))
      ensures !FitsInside(b, size, align) && ok ==> live == old(live) - {b}
      ensures ok ==> (Valid() <==> FitsInside(b, size, align))
    {
      hide Zone.Valid, Recorded, IsAlign, AlignUp, AlignOf, Tail, LengthKnown, RecomputedLength, Left, Zone.Contains;
      RecordedAt(live, Contents(), b);
      ghost var home := zones[live[b].zone];
      home.LiveInside(b);
      Recomputed(b, size, align);
      var len := RecomputedLength(addr, size, align).value;
      home.ContainsIff(addr, len);
      ok := DeallocBytes(addr, len, b);
    }

    /** Releases `len` bytes from `addr` on, in the zone that claims them. */
    method DeallocBytes(addr: nat, len: nat, ghost b: Node) returns (ok: bool)
      requires Valid() && b in live && b.addr == addr && 0 < len && (len <= b.size ==> len % CHUNK == 0)
      modifies this, zones
      ensures zones == old(zones) && old(live)[b].zone < |zones|
      ensures ok <==> zones[old(live)[b].zone].Contains(addr, len)
      ensures !ok ==> Valid() && live == old(live)
      ensures ok ==> (Valid() <==> len <= b.size)
      ensures ok ==> live == if len <= b.size then Left(old(live), b, len) else old(live) - {b}
    {
      hide Zone.Valid, Recorded, LengthKnown, Left, Zone.Contains;
      var i := FindZone(addr, len, b);
      if i.None? { return false; }
      ReleaseBytes(i.value, addr, len, b);
      ok := true;
    }

    /** Gives `len` bytes back from the start of a block on. */
    method ReleaseBytes(z: nat, addr: nat, len: nat, ghost b: Node)
      requires Valid() && b in live && b.addr == addr && live[b].zone == z < |zones| && 0 < len
      requires len <= b.size ==> len % CHUNK == 0
      modifies this`live, zones
      ensures Valid() <==> len <= b.size
      ensures live == if len <= b.size then Left(old(live), b, len) else old(live) - {b}
    {
      hide Zone.Valid, Recorded, LengthKnown, Left;
      ghost var block := b;
      if len <= b.size {
        Trim(z, b, len);
        block := Node(addr, len);
      }
      Release(z, Node(addr, len), block);
    }

    /** The block as far as `len` is one of its own. */
    ghost method Trim(z: nat, b: Node, len: nat)
      requires Valid() && b in live && live[b].zone == z < |zones| && 0 < len <= b.size && len % CHUNK == 0
      modifies this`live, zones[z]
      ensures Valid() && zones == old(zones)
      ensures var front := Node(b.addr, len);
              front in live && live[front].zone == z && live - {front} == Left(old(live), b, len)
    {
      hide Zone.Valid, Recorded, LengthKnown;
      if len < b.size { Split(z, b, len); } else { assert Node(b.addr, len) == b; }
    }

    /** Counts a live block as two. */
    ghost method Split(z: nat, b: Node, len: nat)
      requires Valid() && b in live && live[b].zone == z < |zones| && 0 < len < b.size && len % CHUNK == 0
      modifies this`live, zones[z]
      ensures Valid() && zones == old(zones)
      ensures var front, rest := Node(b.addr, len), Node(b.addr + len, b.size - len);
              live == Divided(old(live), b, front, rest) && front !in old(live)
    {
      hide Zone.Valid, Recorded, LengthKnown, Divided;
      ghost var front, rest, before := Node(b.addr, len), Node(b.addr + len, b.size - len), Contents();
      RecordedAt(live, before, b);
      SplitZone(z, b, len);
      NewHere(z, front, before);
      NewHere(z, rest, before);
      RecordSplit(live, before, b, front, rest);
      live := Divided(live, b, front, rest);
      assert Contents() == before[z := before[z] - {b} + {front} + {rest}];
      assert forall j :: 0 <= j < |zones| ==> zones[j].Valid();
    }

    ghost method SplitZone(z: nat, b: Node, len: nat)
      requires z < |zones| && ZonesApart() && (forall j :: 0 <= j < |zones| ==> zones[j].Valid())
      requires b in zones[z].live && 0 < len < b.size && len % CHUNK == 0
      modifies zones[z]
      ensures forall j :: 0 <= j < |zones| ==> zones[j].Valid()
      ensures var front, rest := Node(b.addr, len), Node(b.addr + len, b.size - len);
              && front in zones[z].live && rest in zones[z].live && front != rest
              && front !in old(zones[z].live) && rest !in old(zones[z].live)
              && Contents() == old(Contents())[z := old(zones[z].live) - {b} + {front} + {rest}]
    {
      hide Zone.Valid;
      zones[z].Split(b, len);
    }

    /** A block that is new in its zone is new to the allocator. */
    lemma {:induction false} NewHere(z: nat, n: Node, before: seq<set<Node>>)
      requires z < |zones| && ZonesApart() && (forall j :: 0 <= j < |zones| ==> zones[j].Valid()) && n in zones[z].live
      requires |before| == |zones| && n !in before[z]
      requires forall j :: 0 <= j < |zones| && j != z ==> before[j] == zones[j].live
      requires Recorded(live, before)
      ensures n !in live && LengthKnown(n, n.size, CHUNK)
    {
      hide Zone.Valid, Recorded, LengthKnown;
      NotElsewhere(z, n);
      zones[z].LiveInside(n);
      LostKnown(n);
      if n in live { RecordedAt(live, before, n); }
    }

    method Release(i: nat, b: Node, ghost block: Node)
      requires Valid() && block in live && live[block].zone == i < |zones|
      requires b.addr == block.addr && (b == block || b.size > block.size)
      modifies this`live, zones
      ensures (Valid() <==> b == block) && live == old(live) - {block}
    {
      hide Zone.Valid, Recorded, Released, IsGap, LengthKnown;
      RecordedAt(live, Contents(), block);
      RecordRemove(live, Contents(), block);
      ghost var at := zones[i].Dealloc(b, block);
      live := live - {block};
      assert Contents() == old(Contents())[i := zones[i].live];
      assert forall j :: 0 <= j < |zones| && j != i ==> zones[j].Valid();
      assert zones[i].Valid() <==> b == block;
    }

    /** The zone that claims the bytes, if any, is the one the block came from. */
    method FindZone(addr: nat, len: nat, ghost b: Node) returns (r: Option<nat>)
      requires Valid() && b in live && b.addr == addr
      ensures var home := live[b].zone;
              home < |zones| && r == if zones[home].Contains(addr, len) then Some(home) else None
    {
      ghost var home := live[b].zone;
      ghost var z0 := zones[home];
      z0.LiveInside(b);
      hide Zone.Valid, LengthKnown;
      forall j | 0 <= j < |zones| && j != home ensures !zones[j].Contains(addr, len) {
        OnlyOwnZoneContains(z0.base, z0.size, zones[j].base, zones[j].size, addr, len);
      }
      var i := 0;
      while i < |zones|
        invariant i <= |zones| && forall j :: 0 <= j < i ==> !zones[j].Contains(addr, len)
      {
        if zones[i].Contains(addr, len) { return Some(i); }
        i := i + 1;
      }
      r := None;
    }
  }

  lemma {:induction false} PastBase(base: nat, offset: nat, over: nat, a: nat)
    requires base % PAGE_SIZE == 0 && (a == 32 || a == 64) && offset % a == 0 && over < a
    ensures (base + offset) % a == 0 && (base + offset + over) % a == over
  {
    assert base % a == 0 by { FactorDivides(base, PAGE_SIZE / a, a); }
    SumOfMultiples(base, offset, a);
    var q := (base + offset) / a;
    DivUnique(base + offset + over, a, q);
  }

  lemma {:induction false} DownTo(base: nat, offset: nat, over: nat, a: nat)
    requires base % PAGE_SIZE == 0 && (a == 32 || a == 64) && offset % a == 0 && over < a
    ensures AlignDown(base + offset + over, a) == base + offset
  {
    PastBase(base, offset, over, a);
    AlignDownSpec(base + offset + over, a);
    OnlyMultiple(AlignDown(base + offset + over, a), base + offset, over, a);
  }

  lemma {:induction false} OnlyMultiple(x: nat, y: nat, over: nat, a: nat)
    requires a > 0 && x % a == 0 && y % a == 0 && over < a && x <= y + over < x + a
    ensures x == y
  {
    if x < y { MultiplesApart(x, y, a); }
    if y < x { MultiplesApart(y, x, a); }
  }

  lemma {:induction false} SmallAligns()
    ensures IsAlign(8) && IsAlign(64)
  {
    assert AlignOf(8) == 8 && AlignOf(64) == 64;
  }

  /** Where blocks lie in a fresh zone, and once 32 bytes were taken off it. */
  lemma {:induction false} BlockAddrs(base: nat)
    requires base % PAGE_SIZE == 0
    ensures BlockAddr(Node(base + 96, 32672), 32, 8) == base + 32736
    ensures BlockAddr(Node(base + 96, 32640), 64, 64) == base + 32640
    ensures BlockAddr(Node(base + 96, 32640), 32, 64) == base + 32704
  {
    DownTo(base, 32736, 0, 32);
    DownTo(base, 32640, 32, 64);
    DownTo(base, 32704, 0, 64);
  }

  /** The block of 64 or 32 bytes at alignment 64 that then comes off its end. */
  function Second(base: nat, size: nat): Node { if size == 64 then Node(base + 32640, 96) else Node(base + 32704, 32) }

  lemma {:induction false} SecondFacts(base: nat, size: nat)
    requires base % PAGE_SIZE == 0 && base > 0 && (size == 32 || size == 64)
    ensures IsAlign(64) && BlockAddr(Node(base + 96, 32640), size, 64) == Second(base, size).addr
    ensures RecomputedLength(Second(base, size).addr, size, 64) == Some(64) && Tail(Second(base, size), 64) == 32
  {
    hide IsAlign, BlockAddr, Tail, RecomputedLength;
    SmallAligns();
    BlockAddrs(base);
    SecondLength(base, size, Second(base, size));
  }

  /** A fresh zone, 32 bytes, then 64 bytes at alignment 64: the second block has 96 bytes and is released
      as 64, so its last 32 stay behind. */
  method ShortRelease(base: nat) returns (z: Zone, first: Node, second: Node)
    requires base % PAGE_SIZE == 0 && base > 0
    ensures z.Valid() && z.live == {first, second} && second.size == 96
    ensures RecomputedLength(second.addr, 64, 64) == Some(64) && Tail(second, 64) == 32
  {
    hide IsAlign, BlockAddr, Zone.Valid, Tail, RecomputedLength;
    SecondFacts(base, 64);
    z, first := FirstBlock(base);
    second := OnlyNode(z, Node(base + 96, 32640), 64, 64);
    assert second == Second(base, 64);
  }

  /** A fresh zone, 32 bytes, then 32 bytes at alignment 64: the second block has 32 bytes and is released
      as 64, and so takes in the first. */
  method LongRelease(base: nat) returns (z: Zone, first: Node, second: Node)
    requires base % PAGE_SIZE == 0 && base > 0
    ensures z.Valid() && z.live == {first, second} && second.size == 32
    ensures RecomputedLength(second.addr, 32, 64) == Some(64) && !Apart(first, Node(second.addr, 64))
    ensures !FitsInside(second, 32, 64)
  {
    hide IsAlign, BlockAddr, Zone.Valid, Tail, RecomputedLength;
    SecondFacts(base, 32);
    z, first := FirstBlock(base);
    second := OnlyNode(z, Node(base + 96, 32640), 32, 64);
    assert second == Second(base, 32);
  }

  /** A fresh zone with 32 bytes taken. */
  method FirstBlock(base: nat) returns (z: Zone, first: Node)
    requires base % PAGE_SIZE == 0 && base > 0
    ensures fresh(z) && z.Valid() && z.live == {first} && first == Node(base + 32736, 32)
    ensures z.nodes == [Node(base + 96, 32640)]
  {
    SmallAligns();
    BlockAddrs(base);
    hide IsAlign, BlockAddr, Zone.Valid, AlignOf, Took;
    z := new Zone(Region(base, HEAP_ZONE_SIZE));
    first := OnlyNode(z, Node(base + 96, 32672), 32, 8);
  }

  /** A block off a zone's only node, which has room to spare. */
  method OnlyNode(z: Zone, n: Node, size: nat, align: nat) returns (b: Node)
    requires z.Valid() && z.nodes == [n] && 0 < size <= n.size && IsAlign(align) && n.addr < BlockAddr(n, size, align)
    modifies z
    ensures z.Valid() && b.addr == BlockAddr(n, size, align) && b.End() == n.End()
    ensures z.nodes == [Node(n.addr, b.addr - n.addr)] && z.live == old(z.live) + {b}
  {
    hide BlockAddr, Zone.Valid, IsAlign;
    AlignPositive(align);
    assert Fits(z.nodes[0], size, align);
    ghost var k;
    var r;
    r, k := z.Alloc(size, align);
    b := r.value;
  }

  lemma {:induction false} SecondLength(base: nat, size: nat, b: Node)
    requires base % PAGE_SIZE == 0 && base > 0 && (size == 32 || size == 64)
    requires b == if size == 64 then Node(base + 32640, 96) else Node(base + 32704, 32)
    ensures Tail(b, 64) == 32 && RecomputedLength(b.addr, size, 64) == Some(64)
  {
    PastBase(base, b.addr - base, 0, 32);
    PastBase(base, 32704, 32, 64);
    SecondTail(base, size, b);
    ChunkAligned(b.addr);
    SixtyFour(size);
    hide AlignOf, AlignUp, Tail;
  }

  lemma {:induction false} SecondTail(base: nat, size: nat, b: Node)
    requires (base + 32704 + 32) % 64 == 32
    requires b == if size == 64 then Node(base + 32640, 96) else Node(base + 32704, 32)
    ensures Tail(b, 64) == 32
  {
    assert b.End() == base + 32704 + 32;
  }

  lemma {:induction false} SixtyFour(size: nat)
    requires 0 < size <= 64
    ensures AlignUp(size, 64) == 64
  {
    AlignUpSpec(size, 64);
    hide AlignUp;
  }
}
