/** The manager of all buddy allocators: cutting usable memory into pieces that qualify for one, the size
    a request is charged, and allocating from the allocators in turn. */
module PmemManager {
  import opened BitUtils
  import opened BuddyTree
  import opened BuddyAllocator
  import opened Wrappers

  datatype Range = Range(start: nat, size: nat) {
    function End(): nat { start + size }
  }

  // ---------------------------------------------------------------------------
  // Powers of two
  // ---------------------------------------------------------------------------

  lemma {:induction false} AlignOfPow2(k: nat)
    ensures AlignOf(Pow2(k)) == Pow2(k)
  {
    if k > 0 {
      AlignOfPow2(k - 1);
      assert Pow2(k) / 2 == Pow2(k - 1);
    }
  }

  /** An alignment is a power of two. */
  lemma {:induction false} AlignIsPow2(n: nat) returns (k: nat)
    ensures AlignOf(n) == Pow2(k)
  {
    if n == 0 {
      k := 63;
    } else {
      AlignOfSpec(n);
      k := TrailingZeros(n);
    }
  }

  lemma {:induction false} AlignedIff(n: nat, k: nat)
    requires k <= 63
    ensures AlignOf(n) >= Pow2(k) <==> n % Pow2(k) == 0
  {
    hide Pow2, AlignOf;
    if AlignOf(n) >= Pow2(k) { AlignedTo(n, k); }
    if n % Pow2(k) == 0 {
      if n > 0 { AlignAtLeast(n, k); } else { ZeroAligned(k); }
    }
  }

  /** An allocator is made for a range exactly if its size and the unit are powers of two, the unit no larger, and
      the range starts at a multiple of its size; it has a node for every block of every level. */
  lemma {:induction false} TreeSizeIff(start: nat, size: nat, unit: nat, n: nat)
    requires size < 0x1_0000_0000_0000_0000
    ensures RequiredTreeSize(start, size, unit) == Some(n) <==>
            exists k, j: nat ::
              j <= k && size == Pow2(k) && unit == Pow2(j) && start % size == 0 && n == 2 * Pow2(k - j) - 1
  {
    hide Pow2, AlignOf, RequiredTreeSize;
    forall k, j: nat | j <= k && size == Pow2(k) && unit == Pow2(j)
      ensures RequiredTreeSize(start, size, unit) ==
              if start % size == 0 then Some(2 * Pow2(k - j) - 1) else None
    {
      TreeSizeAt(start, k, j);
    }
    if RequiredTreeSize(start, size, unit).Some? {
      TreeSizePowers(start, size, unit);
      TreeSizeAt(start, Log2(size), Log2(unit));
    }
  }

  lemma {:induction false} TreeSizeAt(start: nat, k: nat, j: nat)
    requires j <= k && Pow2(k) < 0x1_0000_0000_0000_0000
    ensures RequiredTreeSize(start, Pow2(k), Pow2(j)) ==
            if start % Pow2(k) == 0 then Some(2 * Pow2(k - j) - 1) else None
  {
    hide Pow2, AlignOf;
    if k > 63 { WordSize(); Pow2Mono(64, k); }
    AlignOfPow2(k);
    AlignOfPow2(j);
    AlignedIff(start, k);
    Pow2Mono(j, k);
    Pow2Sum(k - j, j);
    ModOfMultiple(Pow2(k - j), Pow2(j));
  }

  lemma {:induction false} TreeSizePowers(start: nat, size: nat, unit: nat)
    requires RequiredTreeSize(start, size, unit).Some?
    ensures size == Pow2(Log2(size)) && unit == Pow2(Log2(unit)) && Log2(unit) <= Log2(size)
  {
    hide Pow2, AlignOf, Log2;
    PowerOfTwo(size);
    PowerOfTwo(unit);
    if Log2(size) < Log2(unit) { Pow2Mono(Log2(size), Log2(unit)); }
  }

  lemma {:induction false} PageIsPow2()
    ensures Pow2(12) == PAGE_SIZE
  {
    Pow2Byte(4);
  }

  // ---------------------------------------------------------------------------
  // Cutting a range into pieces
  // ---------------------------------------------------------------------------

  /** The size `SizeAlignedIter` gives the next piece. */
  function PieceSize(start: nat, end: nat): nat
    requires start < end
  {
    var a, b := AlignOf(start), Pow2(Log2(end - start));
    if a < b then a else b
  }

  /** A piece that `PmemAllocator::from` accepts. */
  ghost predicate Qualifies(r: Range) {
    RequiredTreeSize(r.start, r.size, PAGE_SIZE).Some?
  }

  lemma {:induction false} PieceSpec(start: nat, end: nat)
    requires start < end && start % PAGE_SIZE == 0 && end % PAGE_SIZE == 0
    ensures var size := PieceSize(start, end);
            && 0 < size <= end - start && (start + size) % PAGE_SIZE == 0 && Qualifies(Range(start, size))
  {
    var k := PieceIsPow2(start, end);
    hide PieceSize;
    PageDivides(k);
    AlignOfPow2(k);
    hide Pow2, AlignOf;
    PageIsAlign();
  }

  /** A block of two to the `j` that is aligned to its size fits between `start` and `end`; a start of zero
      counts as aligned to two to the 63. */
  ghost predicate Fits(start: nat, end: nat, j: nat) {
    start % Pow2(j) == 0 && start + Pow2(j) <= end && (start == 0 ==> j <= 63)
  }

  /** The piece is the largest block that fits. */
  lemma {:induction false} PieceLargest(start: nat, end: nat, j: nat)
    requires start < end && Fits(start, end, j)
    ensures Pow2(j) <= PieceSize(start, end)
  {
    hide Pow2, AlignOf, Log2;
    if start > 0 { AlignAtLeast(start, j); } else { ZeroAligned(j); }
    var b := Log2(end - start);
    Log2Spec(end - start);
    if j <= b { Pow2Mono(j, b); } else { Pow2Mono(b, j); }
  }

  lemma {:induction false} ZeroAligned(j: nat)
    requires j <= 63
    ensures Pow2(j) <= AlignOf(0)
  {
    Pow2Mono(j, 63);
  }

  lemma {:induction false} PieceIsPow2(start: nat, end: nat) returns (k: nat)
    requires start < end && start % PAGE_SIZE == 0 && end % PAGE_SIZE == 0
    ensures PieceSize(start, end) == Pow2(k) && Pow2(k) <= AlignOf(start) && PAGE_SIZE <= Pow2(k) <= end - start
  {
    hide Pow2, AlignOf, Log2;
    var a := AlignIsPow2(start);
    var b := Log2(end - start);
    Log2Spec(end - start);
    PageApart(start, end);
    PageFloor(end - start, b);
    PageAligned(start);
    k := if Pow2(a) < Pow2(b) then a else b;
  }

  lemma {:induction false} PageApart(start: nat, end: nat)
    requires start < end && start % PAGE_SIZE == 0 && end % PAGE_SIZE == 0
    ensures end - start >= PAGE_SIZE
  {
  }

  lemma {:induction false} PageAligned(start: nat)
    requires start % PAGE_SIZE == 0
    ensures AlignOf(start) >= PAGE_SIZE
  {
    PageIsPow2();
    if start > 0 { AlignAtLeast(start, 12); } else { Pow2Mono(12, 63); }
  }

  lemma {:induction false} PageDivides(k: nat)
    requires Pow2(k) >= PAGE_SIZE
    ensures Pow2(k) % PAGE_SIZE == 0
  {
    PageIsPow2();
    if k < 12 { Pow2Mono(k, 12); }
    ModOfMultiple(1, Pow2(k));
    DividesSmaller(Pow2(k), 12, k);
  }

  lemma {:induction false} PageIsAlign()
    ensures AlignOf(PAGE_SIZE) == PAGE_SIZE
  {
    PageIsPow2();
    AlignOfPow2(12);
  }

  /** The largest power of two in at least a page is at least a page. */
  lemma {:induction false} PageFloor(d: nat, b: nat)
    requires d >= PAGE_SIZE && Pow2(b) <= d < 2 * Pow2(b)
    ensures Pow2(b) >= PAGE_SIZE
  {
    PageIsPow2();
    if b < 12 { Pow2Mono(b, 12); } else { Pow2Mono(12, b); }
  }

  /** Pieces that follow each other without gap or overlap from `start` to `end`, each fit for an
      allocator. */
  ghost predicate Tiling(pieces: seq<Range>, start: nat, end: nat) {
    if pieces == [] then start == end
    else
      && pieces[0].start == start && pieces[0].size > 0 && Qualifies(pieces[0])
      && Tiling(pieces[1..], pieces[0].End(), end)
  }

  lemma {:induction false} TilingAppend(pieces: seq<Range>, start: nat, mid: nat, piece: Range)
    requires Tiling(pieces, start, mid) && piece.start == mid && piece.size > 0 && Qualifies(piece)
    ensures Tiling(pieces + [piece], start, piece.End())
  {
    hide Qualifies;
    var all := pieces + [piece];
    if pieces == [] {
      assert all[1..] == [];
    } else {
      TilingAppend(pieces[1..], pieces[0].End(), mid, piece);
      assert all[1..] == pieces[1..] + [piece];
    }
  }

  class SizeAlignedIter {
    var start: nat
    var end: nat

    constructor (range: Range)
      ensures start == range.start && end == range.End()
    {
      start, end := range.start, range.End();
    }

    method Next() returns (r: Option<Range>)
      requires start % PAGE_SIZE == 0 && end % PAGE_SIZE == 0
      modifies this
      ensures end == old(end) && start % PAGE_SIZE == 0
      ensures r.None? <==> old(start) >= end
      ensures r.None? ==> start == old(start)
      ensures r.Some? ==>
                r.value.start == old(start) && r.value.size > 0 && Qualifies(r.value) && start == r.value.End() <= end
      ensures r.Some? ==> forall j: nat :: Fits(old(start), end, j) ==> Pow2(j) <= r.value.size
    {
      if start >= end { return None; }
      forall j: nat | Fits(start, end, j) ensures Pow2(j) <= PieceSize(start, end) {
        PieceLargest(start, end, j);
      }
      hide PieceSize, Qualifies;
      PieceSpec(start, end);
      var size := PieceSize(start, end);
      r := Some(Range(start, size));
      start := start + size;
    }

    /** Running the iterator to its end tiles the range. */
    static method Pieces(range: Range) returns (pieces: seq<Range>)
      requires range.start % PAGE_SIZE == 0 && range.size % PAGE_SIZE == 0
      ensures Tiling(pieces, range.start, range.End())
    {
      hide Qualifies;
      var it := new SizeAlignedIter(range);
      pieces := [];
      assert Tiling(pieces, range.start, range.start);
      hide Tiling;
      while true
        invariant fresh(it) && it.end == range.End() && it.start <= it.end && it.start % PAGE_SIZE == 0
        invariant Tiling(pieces, range.start, it.start)
        decreases it.end - it.start
      {
        ghost var mid := it.start;
        var piece := it.Next();
        if piece.None? { return; }
        TilingAppend(pieces, range.start, mid, piece.value);
        pieces := pieces + [piece.value];
      }
    }
  }

  // ---------------------------------------------------------------------------
  // The size charged is the size handed out
  // ---------------------------------------------------------------------------

  /** `get_allocation_size_for_layout`. */
  function ChargedSize(size: nat): nat { Pow2(Log2Up(size)) }

  /** Rounding the logarithm up gives the least power of two that is large enough, except for 1. */
  lemma {:induction false} ChargedSizeSpec(size: nat)
    ensures size >= 2 ==> size <= ChargedSize(size) < 2 * size
    ensures size == 1 ==> ChargedSize(size) == 2
    ensures size == 0 ==> ChargedSize(size) == 1
  {
    if size >= 2 {
      RoundedUp(size);
    } else {
      assert Pow2(1) == 2 * Pow2(0);
      assert size == 0 ==> AlignUp(size, Pow2(Log2(size))) == 0;
    }
  }

  lemma {:induction false} RoundedUp(size: nat)
    requires size >= 2
    ensures size <= ChargedSize(size) < 2 * size
  {
    var l := Log2(size);
    var p := Pow2(l);
    Log2Spec(size);
    var up := AlignUp(size, p);
    AlignUpSpec(size, p);
    assert up == p || up == 2 * p by {
      ModOfMultiple(1, p);
      ModOfMultiple(2, p);
      if p < up < 2 * p { MultiplesApart(p, up, p); }
      if 2 * p < up { MultiplesApart(2 * p, up, p); }
    }
    hide AlignUp;
    if up == p { Log2Unique(up, l); } else { Log2Unique(up, l + 1); }
  }

  lemma {:induction false} SamePower(a: nat, b: nat, n: nat)
    requires n <= Pow2(a) < 2 * n && n <= Pow2(b) < 2 * n
    ensures Pow2(a) == Pow2(b)
  {
    if a < b { Pow2Mono(a, b); } else if b < a { Pow2Mono(b, a); }
  }

  lemma {:induction false} AtLeastPage(size: nat)
    requires 0 < size && size % PAGE_SIZE == 0
    ensures size >= PAGE_SIZE
  {
  }

  /** The block of a level is the smallest that holds the size. */
  lemma {:induction false} BlockBrackets(alloc: PmemAllocator, size: nat, node: nat) returns (d: nat)
    requires alloc.Shape() && alloc.unit == PAGE_SIZE && node < alloc.tree.Length
    requires 0 < size && size % PAGE_SIZE == 0 && alloc.LevelForSize(size) == Some(Level(node))
    ensures alloc.NodeSize(node) == Pow2(12 + d) && size <= Pow2(12 + d) < 2 * size
  {
    alloc.NodeGeometry(node);
    hide AlignUp, AlignDown;
    d := alloc.depth - Level(node);
    assert SlotCount(alloc.depth, node) == Pow2(d);
    PageIsPow2();
    Pow2Sum(12, d);
    if d == 0 {
      AtLeastPage(size);
    } else {
      assert Pow2(d) == 2 * Pow2(d - 1);
    }
  }

  /** For a whole number of pages that fits, the quota charged is the size of the block handed out, so
      that a release refunds what was charged. */
  lemma {:induction false} ChargedIsHandedOut(alloc: PmemAllocator, size: nat, node: nat)
    requires alloc.Shape() && alloc.unit == PAGE_SIZE && node < alloc.tree.Length
    requires 0 < size && size % PAGE_SIZE == 0 && alloc.LevelForSize(size) == Some(Level(node))
    ensures alloc.NodeSize(node) == ChargedSize(size)
  {
    hide Pow2, Log2Up, PmemAllocator.Shape, PmemAllocator.LevelForSize, PmemAllocator.NodeSize;
    var d := BlockBrackets(alloc, size, node);
    AtLeastPage(size);
    ChargedSizeSpec(size);
    SamePower(12 + d, Log2Up(size), size);
  }

  /** A block is aligned to any alignment not above that of the size asked for. */
  lemma {:induction false} AlignmentMet(size: nat, align: nat, block: nat, addr: nat)
    requires size >= 2 && block == ChargedSize(size) && addr % block == 0
    requires 0 < align == AlignOf(align) <= AlignOf(size)
    ensures addr % align == 0
  {
    var a, b := Log2(align), Log2Up(size);
    assert align == Pow2(a) by { PowerOfTwo(align); }
    assert align <= block by {
      AlignOfSpec(size);
      ChargedSizeSpec(size);
    }
    assert a <= b by { if b < a { Pow2Mono(b, a); } }
    DividesSmaller(addr, a, b);
  }

  // ---------------------------------------------------------------------------
  // All allocators together
  // ---------------------------------------------------------------------------

  /** Whose turn it is. */
  function Turn(k: nat, n: nat): (i: nat)
    requires n > 0
    ensures i < n
  {
    k % n
  }

  /** Going once around from any index meets every index. */
  lemma {:induction false} Rotation(start: nat, n: nat, k: nat) returns (j: nat)
    requires k < n
    ensures start <= j < start + n && Turn(j, n) == k
  {
    var q, r := start / n, start % n;
    assert start == q * n + r;
    if k >= r {
      j := q * n + k;
      Remainder(q, n, k);
    } else {
      j := (q + 1) * n + k;
      assert (q + 1) * n == q * n + n;
      Remainder(q + 1, n, k);
    }
  }

  lemma {:induction false} Remainder(q: nat, n: nat, k: nat)
    requires k < n
    ensures (q * n + k) % n == k
  {
    assert (q + 1) * n == q * n + n;
    DivUnique(q * n + k, n, q);
    var x := q * n + k;
    assert x == (x / n) * n + x % n;
  }

  class PmemManager {
    const allocers: seq<PmemAllocator>
    var nextIndex: nat

    ghost function Trees(): set<object>
    {
      set a | a in allocers :: a.tree
    }

    /** The allocators share nothing and are in address order. */
    ghost predicate Apart()
    {
      forall i, j :: 0 <= i < j < |allocers| ==>
        && allocers[i] != allocers[j] && allocers[i].tree != allocers[j].tree
        && allocers[i].start + allocers[i].maxSize <= allocers[j].start
    }

    ghost predicate Valid()
      reads this, allocers, Trees()
    {
      Apart() && forall i :: 0 <= i < |allocers| ==> allocers[i].Valid() && allocers[i].unit == PAGE_SIZE
    }

    /** The allocator is too small for the size, or every node of its size class overlaps a live block. */
    ghost predicate Full(a: PmemAllocator, size: nat)
      reads a
    {
      && a.Shape() && size > 0
      && (a.LevelForSize(size).Some? ==> forall j :: Level(j) == a.LevelForSize(size).value ==> Overlaps(a.live, j))
    }

    /** Asks the allocators in turn, beginning with a different one each time. */
    method Alloc(size: nat, align: nat) returns (r: Option<Allocation>, index: nat, ghost node: nat)
      requires Valid() && size > 0 && size % PAGE_SIZE == 0 && 0 < align == AlignOf(align) <= AlignOf(size)
      modifies this`nextIndex, allocers, Trees()
      ensures Valid() && nextIndex == old(nextIndex) + 1 && (r.Some? ==> index < |allocers|)
      ensures forall i :: 0 <= i < |allocers| && (r.None? || i != index) ==> allocers[i].live == old(allocers[i].live)
      ensures r.Some? ==>
                && allocers[index].live == old(allocers[index].live) + {node} && node !in old(allocers[index].live)
                && r.value == Allocation(allocers[index].NodeAddr(node), allocers[index].NodeSize(node))
                && r.value.size == ChargedSize(size) && r.value.addr % align == 0
      ensures r.None? ==> forall i :: 0 <= i < |allocers| ==> Full(allocers[i], size)
    {
      hide PmemAllocator.Valid, PmemAllocator.NodeAddr, PmemAllocator.NodeSize, Full, ChargedSize, AlignOf, Turn;
      var start := nextIndex;
      nextIndex := nextIndex + 1;
      var n := |allocers|;
      var k := start;
      index, node := 0, 0;
      while k < start + n
        invariant start <= k <= start + n && Valid() && nextIndex == old(nextIndex) + 1
        invariant forall i :: 0 <= i < n ==> allocers[i].live == old(allocers[i].live)
        invariant forall j :: start <= j < k ==> Full(allocers[Turn(j, n)], size)
      {
        index := Turn(k, n);
        r, node := AllocFrom(index, size, align);
        if r.Some? { return; }
        k := k + 1;
      }
      index, r := 0, None;
      forall i | 0 <= i < n ensures Full(allocers[i], size) {
        var j := Rotation(start, n, i);
      }
    }

    method AllocFrom(i: nat, size: nat, align: nat) returns (r: Option<Allocation>, ghost node: nat)
      requires Valid() && i < |allocers| && size > 0 && size % PAGE_SIZE == 0
      requires 0 < align == AlignOf(align) <= AlignOf(size)
      modifies allocers[i], allocers[i].tree
      ensures Valid()
      ensures r.None? ==> allocers[i].live == old(allocers[i].live) && Full(allocers[i], size)
      ensures r.Some? ==>
                && allocers[i].live == old(allocers[i].live) + {node} && node !in old(allocers[i].live)
                && r.value == Allocation(allocers[i].NodeAddr(node), allocers[i].NodeSize(node))
                && r.value.size == ChargedSize(size) && r.value.addr % align == 0
    {
      var a := allocers[i];
      r, node := a.Alloc(size);
      if r.Some? {
        ChargedIsHandedOut(a, size, node);
        a.NodeGeometry(node);
        AlignmentMet(size, align, r.value.size, r.value.addr);
      }
    }
  
    lemma {:induction false} StartsGrow()
      requires Valid()
      ensures forall i :: 0 <= i < |allocers| ==> allocers[i].maxSize > 0
      ensures forall i, j :: 0 <= i < j < |allocers| ==> allocers[i].start < allocers[j].start
    {
      forall i | 0 <= i < |allocers| ensures allocers[i].maxSize > 0 {
        assert allocers[i].Shape();
        MulMono(1, Pow2(allocers[i].depth), allocers[i].unit);
      }
      hide PmemAllocator.Valid;
    }

    /** The allocator an address belongs to, found by start addresses; the source panics, here `None`, when
        the address is below all of them. */
    method FindAllocator(addr: int) returns (r: Option<nat>)
      requires Valid()
      ensures r.None? <==> allocers == [] || addr < allocers[0].start
      ensures r.Some? ==> r.value < |allocers| && allocers[r.value].start <= addr
      ensures forall i :: 0 <= i < |allocers| && allocers[i].start <= addr < allocers[i].start + allocers[i].maxSize ==>
                r == Some(i)
    {
      StartsGrow();
      hide PmemAllocator.Valid;
      var lo, hi := 0, |allocers|;
      while lo < hi
        invariant 0 <= lo <= hi <= |allocers|
        invariant forall i :: 0 <= i < lo ==> allocers[i].start < addr
        invariant forall i :: hi <= i < |allocers| ==> addr < allocers[i].start
      {
        var mid := lo + (hi - lo) / 2;
        if allocers[mid].start == addr { return Some(mid); }
        if allocers[mid].start < addr { lo := mid + 1; } else { hi := mid; }
      }
      r := if lo == 0 then None else Some(lo - 1);
    }

    /** Gives a block back to its allocator, whether or not its index was kept. */
    method Dealloc(a: Allocation, zindex: Option<nat>, ghost owner: nat, ghost node: nat)
      requires Valid() && owner < |allocers| && node in allocers[owner].live && (zindex.Some? ==> zindex.value == owner)
      requires a == Allocation(allocers[owner].NodeAddr(node), allocers[owner].NodeSize(node))
      modifies allocers, Trees()
      ensures Valid() && allocers[owner].live == old(allocers[owner].live) - {node}
      ensures forall i :: 0 <= i < |allocers| && i != owner ==> allocers[i].live == old(allocers[i].live)
    {
      BlockInside(owner, node);
      hide PmemAllocator.Valid, PmemAllocator.NodeAddr, PmemAllocator.NodeSize;
      var index := zindex;
      if zindex.None? { index := FindAllocator(a.addr); }
      Return(index.value, a, node);
    }

    method Return(i: nat, a: Allocation, ghost node: nat)
      requires Valid() && i < |allocers| && node in allocers[i].live
      requires a == Allocation(allocers[i].NodeAddr(node), allocers[i].NodeSize(node))
      modifies allocers[i], allocers[i].tree
      ensures Valid() && allocers[i].live == old(allocers[i].live) - {node}
    {
      hide PmemAllocator.Valid, PmemAllocator.NodeAddr, PmemAllocator.NodeSize;
      allocers[i].Dealloc(a, node);
    }

    lemma {:induction false} BlockInside(i: nat, node: nat)
      requires Valid() && i < |allocers| && node in allocers[i].live
      ensures var z := allocers[i]; z.start <= z.NodeAddr(node) < z.start + z.maxSize
    {
      allocers[i].NodeGeometry(node);
    }
  }
}
