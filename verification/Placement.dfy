/** The userland address space manager: an address-ordered list of mapped regions, the free gaps between
    them, and the random choice of a place for a new mapping in two passes over the gaps. */
module Placement {
  import opened BitUtils
  import opened Wrappers

  const MAX_MAP_ADDR: nat := 0x8000_0000_0000
  const USIZE_LIMIT: nat := 0x1_0000_0000_0000_0000

  datatype Region = Region(address: nat, size: nat, padStart: nat, padEnd: nat) {
    function Start(): nat
      requires padStart <= address
    {
      address - padStart
    }
    function End(): nat { address + size + padEnd }
  }

  datatype Gap = Gap(addr: nat, size: nat) {
    function End(): nat { addr + size }
  }

  /** `Panics` is the panic of `insert_region`. */
  datatype Result<+T> = Ok(value: T) | Overflow | ZeroSizeMapping | NoAvailableRegion | InvalidAddress | Panics

  ghost predicate RegionOk(r: Region) { r.padStart <= r.address && r.Start() < r.End() <= MAX_MAP_ADDR }

  /** Nonempty, in address order, without overlap. */
  ghost predicate Sorted(rs: seq<Region>) {
    && (forall i :: 0 <= i < |rs| ==> RegionOk(rs[i]))
    && (forall i, j :: 0 <= i < j < |rs| ==> rs[i].End() <= rs[j].Start())
  }

  /** Every region starts and ends on a page boundary. */
  ghost predicate AlignedList(rs: seq<Region>)
    requires Sorted(rs)
  {
    forall i :: 0 <= i < |rs| ==> rs[i].Start() % PAGE_SIZE == 0 && rs[i].End() % PAGE_SIZE == 0
  }

  /** Where the gap before the rest of the list begins. */
  ghost predicate StartsAfter(rs: seq<Region>, prev: nat) {
    Sorted(rs) && prev <= MAX_MAP_ADDR && (rs != [] ==> prev <= rs[0].Start())
  }

  /** `iter_free_regions`: the gaps of nonzero size, the last one up to the end of the address space. */
  function FreeRegions(rs: seq<Region>, prev: nat): seq<Gap>
    requires StartsAfter(rs, prev)
  {
    if rs == [] then GapBefore(prev, MAX_MAP_ADDR)
    else TailStartsAfter(rs); GapBefore(prev, rs[0].Start()) + FreeRegions(rs[1..], rs[0].End())
  }

  function GapBefore(prev: nat, next: nat): seq<Gap>
    requires prev <= next
  {
    if next - prev != 0 then [Gap(prev, next - prev)] else []
  }

  lemma {:induction false} TailStartsAfter(rs: seq<Region>)
    requires Sorted(rs) && rs != []
    ensures StartsAfter(rs[1..], rs[0].End())
  {
    assert RegionOk(rs[0]);
    var t := rs[1..];
    assert forall i :: 0 <= i < |t| ==> t[i] == rs[i + 1];
  }

  /** One gap, if any, then the gaps of the rest. */
  lemma {:induction false} FreeUnfold(rs: seq<Region>, prev: nat)
    requires StartsAfter(rs, prev) && rs != []
    ensures RegionOk(rs[0]) && prev <= rs[0].Start() && StartsAfter(rs[1..], rs[0].End())
    ensures FreeRegions(rs, prev) == GapBefore(prev, rs[0].Start()) + FreeRegions(rs[1..], rs[0].End())
  {
    TailStartsAfter(rs);
    assert RegionOk(rs[0]);
  }

  ghost predicate InRegion(rs: seq<Region>, x: nat)
    requires Sorted(rs)
  {
    exists i :: 0 <= i < |rs| && rs[i].Start() <= x < rs[i].End()
  }

  ghost predicate InGap(gs: seq<Gap>, x: nat) {
    exists i :: 0 <= i < |gs| && gs[i].addr <= x < gs[i].End()
  }

  /** Gaps are nonempty and kept apart by regions. */
  ghost predicate GapsOk(gs: seq<Gap>, prev: nat) {
    && (forall i :: 0 <= i < |gs| ==> gs[i].size > 0 && prev <= gs[i].addr && gs[i].End() <= MAX_MAP_ADDR)
    && (forall i, j :: 0 <= i < j < |gs| ==> gs[i].End() < gs[j].addr)
  }

  lemma {:induction false} FreeRegionsOk(rs: seq<Region>, prev: nat)
    requires StartsAfter(rs, prev)
    ensures GapsOk(FreeRegions(rs, prev), prev)
  {
    if rs != [] {
      TailStartsAfter(rs);
      FreeRegionsOk(rs[1..], rs[0].End());
      assert RegionOk(rs[0]);
      ConsGap(FreeRegions(rs, prev), FreeRegions(rs[1..], rs[0].End()), prev, rs[0].Start(), rs[0].End());
    }
  }

  lemma {:induction false} ConsGap(all: seq<Gap>, rest: seq<Gap>, prev: nat, next: nat, end: nat)
    requires GapsOk(rest, end) && prev <= next < end && next <= MAX_MAP_ADDR
    requires all == if next - prev != 0 then [Gap(prev, next - prev)] + rest else rest
    ensures GapsOk(all, prev)
  {
    if next - prev != 0 {
      var g := Gap(prev, next - prev);
      assert all[0] == g && g.End() == next;
      assert forall i :: 1 <= i < |all| ==> all[i] == rest[i - 1];
      forall i, j | 0 <= i < j < |all| ensures all[i].End() < all[j].addr {
        assert all[j] == rest[j - 1];
        if i > 0 { assert rest[i - 1].End() < rest[j - 1].addr; }
      }
    }
  }

  ghost predicate AlignedGaps(gs: seq<Gap>) {
    forall i :: 0 <= i < |gs| ==> gs[i].addr % PAGE_SIZE == 0 && gs[i].size % PAGE_SIZE == 0
  }

  /** Between regions on page boundaries the gaps are whole pages. */
  lemma {:induction false} FreeAligned(rs: seq<Region>, prev: nat)
    requires StartsAfter(rs, prev) && AlignedList(rs) && prev % PAGE_SIZE == 0
    ensures AlignedGaps(FreeRegions(rs, prev))
  {
    if rs != [] {
      FreeUnfold(rs, prev);
      var t := rs[1..];
      assert forall i :: 0 <= i < |t| ==> t[i] == rs[i + 1];
      FreeAligned(t, rs[0].End());
      AlignedCons(prev, rs[0].Start(), FreeRegions(t, rs[0].End()));
    }
  }

  lemma {:induction false} AlignedCons(prev: nat, next: nat, rest: seq<Gap>)
    requires prev <= next && prev % PAGE_SIZE == 0 && next % PAGE_SIZE == 0 && AlignedGaps(rest)
    ensures AlignedGaps(GapBefore(prev, next) + rest)
  {
    var all := GapBefore(prev, next) + rest;
    if next > prev {
      assert all[0] == Gap(prev, next - prev) && (next - prev) % PAGE_SIZE == 0;
      assert forall i :: 1 <= i < |all| ==> all[i] == rest[i - 1];
    }
  }

  /** An address is in a gap exactly when no region has it. */
  lemma {:induction false} FreeExact(rs: seq<Region>, prev: nat, x: nat)
    requires StartsAfter(rs, prev) && prev <= x < MAX_MAP_ADDR
    ensures InGap(FreeRegions(rs, prev), x) <==> !InRegion(rs, x)
  {
    var all := FreeRegions(rs, prev);
    FreeRegionsOk(rs, prev);
    if rs == [] {
      assert all == if MAX_MAP_ADDR - prev != 0 then [Gap(prev, MAX_MAP_ADDR - prev)] else [];
      assert all[0].addr <= x < all[0].End();
    } else {
      TailStartsAfter(rs);
      assert RegionOk(rs[0]);
      FreeSplit(rs, prev, x);
      if x >= rs[0].End() { FreeExact(rs[1..], rs[0].End(), x); }
    }
  }

  /** The question for the whole list in terms of its first region and the rest. */
  lemma {:induction false} FreeSplit(rs: seq<Region>, prev: nat, x: nat)
    requires StartsAfter(rs, prev) && rs != [] && prev <= x < MAX_MAP_ADDR
    ensures StartsAfter(rs[1..], rs[0].End()) && RegionOk(rs[0])
    ensures InRegion(rs, x) <==> (rs[0].Start() <= x < rs[0].End() || InRegion(rs[1..], x))
    ensures InRegion(rs[1..], x) ==> x >= rs[0].End()
    ensures InGap(FreeRegions(rs, prev), x) <==> (x < rs[0].Start() || InGap(FreeRegions(rs[1..], rs[0].End()), x))
    ensures InGap(FreeRegions(rs[1..], rs[0].End()), x) ==> x >= rs[0].End()
  {
    TailStartsAfter(rs);
    assert RegionOk(rs[0]);
    var t := rs[1..];
    assert forall i :: 0 <= i < |t| ==> t[i] == rs[i + 1];
    if InRegion(rs, x) {
      var i :| 0 <= i < |rs| && rs[i].Start() <= x < rs[i].End();
      if i > 0 { assert t[i - 1].Start() <= x < t[i - 1].End(); }
    }
    var rest := FreeRegions(t, rs[0].End());
    FreeRegionsOk(t, rs[0].End());
    var all := FreeRegions(rs, prev);
    GapSplit(all, rest, prev, rs[0].Start(), x);
  }

  lemma {:induction false} GapSplit(all: seq<Gap>, rest: seq<Gap>, prev: nat, next: nat, x: nat)
    requires prev <= next && prev <= x
    requires all == if next - prev != 0 then [Gap(prev, next - prev)] + rest else rest
    ensures InGap(all, x) <==> (x < next || InGap(rest, x))
  {
    if next - prev != 0 {
      assert forall i :: 1 <= i < |all| ==> all[i] == rest[i - 1];
      if InGap(rest, x) {
        var i :| 0 <= i < |rest| && rest[i].addr <= x < rest[i].End();
        assert all[i + 1].addr <= x < all[i + 1].End();
      }
      if x < next { assert all[0].addr <= x < all[0].End(); }
    }
  }

  // ---------------------------------------------------------------------------
  // Positions
  // ---------------------------------------------------------------------------

  function PagesRounded(bytes: nat): nat { AlignUp(bytes, PAGE_SIZE) / PAGE_SIZE }

  /** How many page positions a gap offers. */
  function Slots(g: Gap, need: nat): nat {
    if g.size >= need then PagesRounded(g.size) - PagesRounded(need) + 1 else 0
  }

  function Count(gs: seq<Gap>, need: nat): nat {
    if gs == [] then 0 else Slots(gs[0], need) + Count(gs[1..], need)
  }

  /** The position that the second pass picks. */
  function Select(gs: seq<Gap>, need: nat, k: nat): nat
    requires k < Count(gs, need)
  {
    if k < Slots(gs[0], need) then gs[0].addr + k * PAGE_SIZE else Select(gs[1..], need, k - Slots(gs[0], need))
  }

  lemma {:induction false} PagesSpec(b: nat)
    ensures PagesRounded(b) * PAGE_SIZE == AlignUp(b, PAGE_SIZE)
    ensures b <= PagesRounded(b) * PAGE_SIZE < b + PAGE_SIZE
    ensures PagesRounded(b) * PAGE_SIZE == b <==> b % PAGE_SIZE == 0
  {
    AlignUpSpec(b, PAGE_SIZE);
    hide AlignUp;
  }

  /** The need fits into the gap, a whole number of pages from its start. */
  ghost predicate FitsIn(g: Gap, base: nat, need: nat) {
    g.addr <= base && base + need <= g.End() && (base - g.addr) % PAGE_SIZE == 0
  }

  /** Every gap that is large enough is a whole number of pages. */
  ghost predicate RoomAligned(gs: seq<Gap>, need: nat) {
    forall i :: 0 <= i < |gs| && gs[i].size >= need ==> gs[i].size % PAGE_SIZE == 0
  }

  /** The positions of a gap of whole pages are those at which the need fits in it. */
  lemma {:induction false} SlotsSpec(g: Gap, need: nat, k: nat)
    requires need % PAGE_SIZE == 0 && (g.size >= need ==> g.size % PAGE_SIZE == 0)
    ensures k < Slots(g, need) <==> FitsIn(g, g.addr + k * PAGE_SIZE, need)
  {
    PagesSpec(g.size);
    PagesSpec(need);
    hide PagesRounded;
  }

  /** The last position of a gap that is not a whole number of pages starts inside it and ends past it. */
  lemma {:induction false} LastSlotPastEnd(g: Gap, need: nat)
    requires need > 0 && need % PAGE_SIZE == 0 && g.size >= need && g.size % PAGE_SIZE != 0
    ensures Slots(g, need) > 0
    ensures var base := g.addr + (Slots(g, need) - 1) * PAGE_SIZE; g.addr <= base < g.End() < base + need
  {
    PagesSpec(g.size);
    PagesSpec(need);
    hide PagesRounded, AlignUp;
  }

  lemma {:induction false} SlotsPositive(g: Gap, need: nat)
    ensures Slots(g, need) > 0 <==> g.size >= need
  {
    PagesSpec(g.size);
    PagesSpec(need);
    hide PagesRounded, AlignUp;
  }

  ghost predicate FitsOne(gs: seq<Gap>, base: nat, need: nat) {
    exists i :: 0 <= i < |gs| && FitsIn(gs[i], base, need)
  }

  lemma {:induction false} TailOk(gs: seq<Gap>, prev: nat, need: nat)
    requires GapsOk(gs, prev) && gs != []
    ensures GapsOk(gs[1..], gs[0].End() + 1)
    ensures RoomAligned(gs, need) ==> RoomAligned(gs[1..], need) && (gs[0].size >= need ==> gs[0].size % PAGE_SIZE == 0)
  {
    var t := gs[1..];
    assert forall i :: 0 <= i < |t| ==> t[i] == gs[i + 1];
  }

  /** Every position of every gap is chosen by some draw. */
  lemma {:induction false} SelectAt(gs: seq<Gap>, need: nat, i: nat, j: nat) returns (k: nat)
    requires i < |gs| && j < Slots(gs[i], need)
    ensures k < Count(gs, need) && Select(gs, need, k) == gs[i].addr + j * PAGE_SIZE
  {
    hide Slots;
    if i == 0 {
      k := j;
    } else {
      k := SelectAt(gs[1..], need, i - 1, j);
      k := k + Slots(gs[0], need);
    }
  }

  /** The chosen position fits inside one gap. */
  lemma {:induction false} SelectFits(gs: seq<Gap>, prev: nat, need: nat, k: nat)
    requires GapsOk(gs, prev) && RoomAligned(gs, need) && need % PAGE_SIZE == 0 && k < Count(gs, need)
    ensures FitsOne(gs, Select(gs, need, k), need) && Select(gs, need, k) >= prev
  {
    TailOk(gs, prev, need);
    var n := Slots(gs[0], need);
    if k < n {
      SlotsSpec(gs[0], need, k);
      assert FitsIn(gs[0], Select(gs, need, k), need);
    } else {
      SelectFits(gs[1..], gs[0].End() + 1, need, k - n);
      var base := Select(gs, need, k);
      assert base == Select(gs[1..], need, k - n);
      var i :| 0 <= i < |gs[1..]| && FitsIn(gs[1..][i], base, need);
      assert FitsIn(gs[i + 1], base, need);
    }
  }

  /** Every legal page position is chosen by some draw. */
  lemma {:induction false} SelectOnto(gs: seq<Gap>, prev: nat, need: nat, base: nat) returns (k: nat)
    requires GapsOk(gs, prev) && RoomAligned(gs, need) && need % PAGE_SIZE == 0 && FitsOne(gs, base, need)
    ensures k < Count(gs, need) && Select(gs, need, k) == base
  {
    var i :| 0 <= i < |gs| && FitsIn(gs[i], base, need);
    var j := (base - gs[i].addr) / PAGE_SIZE;
    SlotsSpec(gs[i], need, j);
    k := SelectAt(gs, need, i, j);
  }

  /** Different draws choose different positions. */
  lemma {:induction false} SelectInjective(gs: seq<Gap>, prev: nat, need: nat, j: nat, k: nat)
    requires GapsOk(gs, prev) && RoomAligned(gs, need) && need % PAGE_SIZE == 0 && j < k < Count(gs, need)
    ensures Select(gs, need, j) < Select(gs, need, k)
  {
    TailOk(gs, prev, need);
    var n := Slots(gs[0], need);
    if j < n { SlotsSpec(gs[0], need, j); }
    if k >= n {
      SelectFits(gs[1..], gs[0].End() + 1, need, k - n);
      if j >= n { SelectInjective(gs[1..], gs[0].End() + 1, need, j - n, k - n); }
    }
  }

  /** All draws stay inside a gap exactly when every gap that is large enough is a whole number of pages. */
  lemma {:induction false} StaysInside(gs: seq<Gap>, prev: nat, need: nat)
    requires GapsOk(gs, prev) && need > 0 && need % PAGE_SIZE == 0
    ensures (forall k :: 0 <= k < Count(gs, need) ==> FitsOne(gs, Select(gs, need, k), need)) <==> RoomAligned(gs, need)
  {
    if RoomAligned(gs, need) {
      forall k | 0 <= k < Count(gs, need) ensures FitsOne(gs, Select(gs, need, k), need) {
        SelectFits(gs, prev, need, k);
      }
    } else {
      var i :| 0 <= i < |gs| && gs[i].size >= need && gs[i].size % PAGE_SIZE != 0;
      LastSlotPastEnd(gs[i], need);
      hide Slots, Count, Select;
      var k := SelectAt(gs, need, i, Slots(gs[i], need) - 1);
      assert !FitsOne(gs, Select(gs, need, k), need);
    }
  }

  // ---------------------------------------------------------------------------
  // The list with a region added or removed
  // ---------------------------------------------------------------------------

  /** A region placed inside one free gap is apart from every region. */
  lemma {:induction false} GapIsFree(rs: seq<Region>, g: Gap, i: nat)
    requires Sorted(rs) && g in FreeRegions(rs, 0) && i < |rs|
    ensures g.End() <= rs[i].Start() || rs[i].End() <= g.addr
  {
    var gs := FreeRegions(rs, 0);
    FreeRegionsOk(rs, 0);
    var k :| 0 <= k < |gs| && gs[k] == g;
    assert RegionOk(rs[i]);
    // The larger of the two starts lies in both unless they are apart.
    var x := if g.addr < rs[i].Start() then rs[i].Start() else g.addr;
    if x < g.End() && x < rs[i].End() {
      assert gs[k].addr <= x < gs[k].End();
      FreeExact(rs, 0, x);
    }
  }

  /** `k` is where a region belongs: what is before ends before it, what is after starts after it. */
  ghost predicate Belongs(rs: seq<Region>, r: Region, k: nat)
    requires Sorted(rs) && RegionOk(r)
  {
    && k <= |rs|
    && (forall i :: 0 <= i < k ==> rs[i].End() <= r.Start())
    && (forall i :: k <= i < |rs| ==> r.End() <= rs[i].Start())
  }

  lemma {:induction false} InsertSorted(rs: seq<Region>, r: Region, k: nat)
    requires Sorted(rs) && RegionOk(r) && Belongs(rs, r, k)
    ensures Sorted(rs[..k] + [r] + rs[k..])
  {
    var after := rs[..k] + [r] + rs[k..];
    hide RegionOk;
    assert forall i :: 0 <= i < k ==> after[i] == rs[i];
    assert after[k] == r;
    assert forall i :: k < i < |after| ==> after[i] == rs[i - 1];
  }

  lemma {:induction false} RemoveSorted(rs: seq<Region>, k: nat)
    requires Sorted(rs) && k < |rs|
    ensures Sorted(rs[..k] + rs[k + 1..])
  {
    var after := rs[..k] + rs[k + 1..];
    hide RegionOk;
    assert forall i :: 0 <= i < k ==> after[i] == rs[i];
    assert forall i :: k <= i < |after| ==> after[i] == rs[i + 1];
  }

  /** By the order of addresses, a region inside a gap belongs where its address belongs. */
  lemma {:induction false} AddressOrder(rs: seq<Region>, r: Region, k: nat)
    requires Sorted(rs) && Separate(rs, r) && k <= |rs|
    requires forall i :: 0 <= i < k ==> rs[i].address < r.address
    requires forall i :: k <= i < |rs| ==> r.address < rs[i].address
    ensures Belongs(rs, r, k)
  {
    forall i | 0 <= i < |rs| ensures if i < k then rs[i].End() <= r.Start() else r.End() <= rs[i].Start() {
      assert RegionOk(rs[i]);
    }
  }

  lemma {:induction false} AlignedSums(a: nat, b: nat, c: nat)
    ensures (AlignUp(a, PAGE_SIZE) + AlignUp(b, PAGE_SIZE) + AlignUp(c, PAGE_SIZE)) % PAGE_SIZE == 0
  {
    hide AlignUp;
    AlignUpSpec(a, PAGE_SIZE);
    AlignUpSpec(b, PAGE_SIZE);
    AlignUpSpec(c, PAGE_SIZE);
  }

  /** Some gap is large enough. */
  ghost predicate HasRoom(gs: seq<Gap>, need: nat) { exists i :: 0 <= i < |gs| && gs[i].size >= need }

  lemma {:induction false} CountRoom(gs: seq<Gap>, need: nat)
    ensures Count(gs, need) > 0 <==> HasRoom(gs, need)
  {
    if gs != [] {
      SlotsPositive(gs[0], need);
      var t := gs[1..];
      CountRoom(t, need);
      hide Slots;
      assert forall i :: 0 <= i < |t| ==> t[i] == gs[i + 1];
    }
  }

  /** No position is counted exactly when nothing of that size is free. */
  lemma {:induction false} NoneAvailable(gs: seq<Gap>, need: nat)
    ensures Count(gs, need) == 0 <==> forall base :: !FitsOne(gs, base, need)
  {
    CountRoom(gs, need);
    hide Count;
    if i :| 0 <= i < |gs| && gs[i].size >= need {
      assert FitsIn(gs[i], gs[i].addr, need);
      assert FitsOne(gs, gs[i].addr, need);
    }
  }

  predicate Apart(a: Region, b: Region)
    requires a.padStart <= a.address && b.padStart <= b.address
  {
    a.End() <= b.Start() || b.End() <= a.Start()
  }

  ghost predicate Separate(rs: seq<Region>, r: Region) {
    RegionOk(r) && forall i :: 0 <= i < |rs| ==> RegionOk(rs[i]) && Apart(r, rs[i])
  }

  ghost predicate Taken(rs: seq<Region>, address: nat) {
    exists i :: 0 <= i < |rs| && rs[i].address == address
  }

  /** The region lies inside a range that fits into one gap. */
  ghost predicate PlacedAt(rs: seq<Region>, r: Region, base: nat, need: nat)
    requires Sorted(rs)
  {
    RegionOk(r) && base <= r.Start() && r.End() <= base + need && FitsOne(FreeRegions(rs, 0), base, need)
  }

  /** A region at a chosen position overlaps nothing. */
  lemma {:induction false} PlacedApart(rs: seq<Region>, r: Region, base: nat, need: nat)
    requires Sorted(rs) && PlacedAt(rs, r, base, need)
    ensures Separate(rs, r)
  {
    var gs := FreeRegions(rs, 0);
    var k :| 0 <= k < |gs| && FitsIn(gs[k], base, need);
    forall i | 0 <= i < |rs| ensures RegionOk(rs[i]) && Apart(r, rs[i]) {
      GapIsFree(rs, gs[k], i);
    }
  }

  /** The region has bytes at or after its address; start padding alone has none. */
  predicate Anchored(r: Region) { r.size + r.padEnd > 0 }

  /** `b` follows directly on `a`, which is start padding alone, and has no start padding itself. */
  predicate FollowsBare(a: Region, b: Region) { !Anchored(a) && b.padStart == 0 && a.End() == b.address }

  /** Regions that are apart have the same address exactly when one is bare start padding and the other
      follows it directly without start padding. */
  lemma {:induction false} SameAddress(a: Region, b: Region)
    requires RegionOk(a) && RegionOk(b) && Apart(a, b)
    ensures a.address == b.address <==> FollowsBare(a, b) || FollowsBare(b, a)
  {
  }

  /** The page-rounded size of a mapping with its padding. */
  function Need(size: nat, padStart: nat, padEnd: nat): nat {
    AlignUp(size, PAGE_SIZE) + AlignUp(padStart, PAGE_SIZE) + AlignUp(padEnd, PAGE_SIZE)
  }

  lemma {:induction false} NeedSpec(size: nat, padStart: nat, padEnd: nat)
    ensures Need(size, padStart, padEnd) % PAGE_SIZE == 0 && AlignUp(padStart, PAGE_SIZE) >= padStart
    ensures Need(size, padStart, padEnd) >= AlignUp(padStart, PAGE_SIZE) + size + padEnd
  {
    AlignedSums(size, padStart, padEnd);
    AlignUpSpec(size, PAGE_SIZE);
    AlignUpSpec(padStart, PAGE_SIZE);
    AlignUpSpec(padEnd, PAGE_SIZE);
    hide AlignUp;
  }

  lemma {:induction false} NeedZero(size: nat, padStart: nat, padEnd: nat)
    ensures Need(size, padStart, padEnd) == 0 <==> size + padStart + padEnd == 0
  {
    NeedSpec(size, padStart, padEnd);
    AlignUpSpec(0, PAGE_SIZE);
  }

  /** The region stored for a mapping at a chosen position lies inside the padded range. */
  lemma {:induction false} PlacedRegion(rs: seq<Region>, size: nat, padStart: nat, padEnd: nat, base: nat)
    requires Sorted(rs) && size + padStart + padEnd > 0
    requires FitsOne(FreeRegions(rs, 0), base, Need(size, padStart, padEnd))
    ensures var region := Region(base + AlignUp(padStart, PAGE_SIZE), size, padStart, padEnd);
            PlacedAt(rs, region, base, Need(size, padStart, padEnd))
  {
    FreeRegionsOk(rs, 0);
    NeedSpec(size, padStart, padEnd);
    hide AlignUp, Need;
    var gs := FreeRegions(rs, 0);
    var k :| 0 <= k < |gs| && FitsIn(gs[k], base, Need(size, padStart, padEnd));
  }

  /** The address that a draw chooses, and the region stored there. */
  function Chosen(rs: seq<Region>, size: nat, padStart: nat, padEnd: nat, draw: nat): nat
    requires Sorted(rs) && Count(FreeRegions(rs, 0), Need(size, padStart, padEnd)) > 0
  {
    var gs, need := FreeRegions(rs, 0), Need(size, padStart, padEnd);
    Select(gs, need, draw % Count(gs, need)) + AlignUp(padStart, PAGE_SIZE)
  }

  /** Some region already has the address of `r`. */
  ghost predicate Clashes(rs: seq<Region>, r: Region) {
    exists i :: 0 <= i < |rs| && (FollowsBare(rs[i], r) || FollowsBare(r, rs[i]))
  }

  /** A gap with room starts right after bare start padding and the new region has no start padding; or it
      ends at a region without start padding and the new region is bare start padding. */
  ghost predicate ClashPossible(rs: seq<Region>, gs: seq<Gap>, need: nat, size: nat, padStart: nat, padEnd: nat)
    requires Sorted(rs)
  {
    exists i, j :: 0 <= i < |rs| && 0 <= j < |gs| && gs[j].size >= need
                   && GapClash(rs[i], gs[j], size, padStart, padEnd)
  }

  predicate GapClash(r: Region, g: Gap, size: nat, padStart: nat, padEnd: nat) {
    || (padStart == 0 && !Anchored(r) && r.End() == g.addr)
    || (size + padEnd == 0 && r.padStart == 0 && g.End() == r.address)
  }

  /** The region that the draw choosing `base` stores clashes with one next to the gap. */
  lemma {:induction false} ClashAtGap(rs: seq<Region>, i: nat, j: nat, size: nat, padStart: nat, padEnd: nat, base: nat)
    requires Sorted(rs) && i < |rs| && j < |FreeRegions(rs, 0)| && size + padStart + padEnd > 0
    requires FitsIn(FreeRegions(rs, 0)[j], base, size + padStart + padEnd)
    requires var r := Region(base + padStart, size, padStart, padEnd); FollowsBare(rs[i], r) || FollowsBare(r, rs[i])
    ensures GapClash(rs[i], FreeRegions(rs, 0)[j], size, padStart, padEnd)
  {
    var gs := FreeRegions(rs, 0);
    GapIsFree(rs, gs[j], i);
    assert RegionOk(rs[i]);
    hide FreeRegions, Sorted;
  }

  lemma {:induction false} DrawAtClash(rs: seq<Region>, i: nat, g: Gap, size: nat, padStart: nat, padEnd: nat)
    returns (base: nat)
    requires i < |rs| && RegionOk(rs[i]) && g.size >= size + padStart + padEnd
    requires GapClash(rs[i], g, size, padStart, padEnd)
    requires (size + padStart + padEnd) % PAGE_SIZE == 0 && g.size % PAGE_SIZE == 0
    ensures FitsIn(g, base, size + padStart + padEnd)
    ensures Clashes(rs, Region(base + padStart, size, padStart, padEnd))
  {
    var r := rs[i];
    var need := size + padStart + padEnd;
    base := if padStart == 0 && !Anchored(r) && r.End() == g.addr then g.addr else g.End() - need;
    assert (g.size - need) % PAGE_SIZE == 0;
    var n := Region(base + padStart, size, padStart, padEnd);
    assert FollowsBare(rs[i], n) || FollowsBare(n, rs[i]);
  }

  lemma {:induction false} ClashWith(rs: seq<Region>, r: Region) returns (i: nat)
    requires Clashes(rs, r)
    ensures i < |rs| && (FollowsBare(rs[i], r) || FollowsBare(r, rs[i]))
  {
    i :| 0 <= i < |rs| && (FollowsBare(rs[i], r) || FollowsBare(r, rs[i]));
  }

  lemma {:induction false} GapWhole(gs: seq<Gap>, j: nat)
    requires AlignedGaps(gs) && j < |gs|
    ensures gs[j].addr % PAGE_SIZE == 0 && gs[j].size % PAGE_SIZE == 0
  {
  }

  predicate WholePages(a: nat, b: nat, c: nat) { a % PAGE_SIZE == 0 && b % PAGE_SIZE == 0 && c % PAGE_SIZE == 0 }

  lemma {:induction false} SumAligned(a: nat, b: nat, c: nat)
    requires WholePages(a, b, c)
    ensures (a + b + c) % PAGE_SIZE == 0
  {
    var x, y, z := a / PAGE_SIZE, b / PAGE_SIZE, c / PAGE_SIZE;
    assert a + b + c == (x + y + z) * PAGE_SIZE;
  }

  lemma {:induction false} AlignedListFacts(rs: seq<Region>, need: nat)
    requires Sorted(rs) && AlignedList(rs)
    ensures GapsOk(FreeRegions(rs, 0), 0) && RoomAligned(FreeRegions(rs, 0), need) && AlignedGaps(FreeRegions(rs, 0))
    ensures forall i :: 0 <= i < |rs| ==> RegionOk(rs[i])
  {
    FreeRegionsOk(rs, 0);
    FreeAligned(rs, 0);
  }

  /** Some draw makes the insertion fail exactly when such a gap exists. */
  lemma {:induction false} ClashByDraw(rs: seq<Region>, size: nat, padStart: nat, padEnd: nat)
    requires Sorted(rs) && AlignedList(rs) && size + padStart + padEnd > 0
    requires WholePages(size, padStart, padEnd)
    ensures ClashDrawn(rs, size, padStart, padEnd) <==>
            ClashPossible(rs, FreeRegions(rs, 0), size + padStart + padEnd, size, padStart, padEnd)
  {
    SumAligned(size, padStart, padEnd);
    hide *;
    if ClashDrawn(rs, size, padStart, padEnd) { DrawnIsPossible(rs, size, padStart, padEnd); }
    if ClashPossible(rs, FreeRegions(rs, 0), size + padStart + padEnd, size, padStart, padEnd) {
      PossibleIsDrawn(rs, size, padStart, padEnd);
    }
  }

  lemma {:induction false} DrawnIsPossible(rs: seq<Region>, size: nat, padStart: nat, padEnd: nat)
    requires Sorted(rs) && AlignedList(rs) && size + padStart + padEnd > 0
    requires (size + padStart + padEnd) % PAGE_SIZE == 0
    requires ClashDrawn(rs, size, padStart, padEnd)
    ensures ClashPossible(rs, FreeRegions(rs, 0), size + padStart + padEnd, size, padStart, padEnd)
  {
    hide FreeRegions, Count, Select, Sorted, AlignedList, GapsOk, RoomAligned, AlignedGaps, FitsIn, Clashes, RegionOk,
         ClashDrawn, FollowsBare, GapClash;
    var gs, need := FreeRegions(rs, 0), size + padStart + padEnd;
    AlignedListFacts(rs, need);
    var k, base := TheDraw(rs, size, padStart, padEnd);
    SelectFits(gs, 0, need, k);
    var j :| 0 <= j < |gs| && FitsIn(gs[j], base, need);
    hide FitsOne;
    var i := ClashWith(rs, Region(base + padStart, size, padStart, padEnd));
    ClashAtGap(rs, i, j, size, padStart, padEnd, base);
    FitsRoom(gs[j], base, need);
  }

  lemma {:induction false} TheDraw(rs: seq<Region>, size: nat, padStart: nat, padEnd: nat) returns (k: nat, base: nat)
    requires Sorted(rs) && ClashDrawn(rs, size, padStart, padEnd)
    ensures k < Count(FreeRegions(rs, 0), size + padStart + padEnd)
    ensures Select(FreeRegions(rs, 0), size + padStart + padEnd, k) == base
    ensures Clashes(rs, Region(base + padStart, size, padStart, padEnd))
  {
    hide Sorted, FreeRegions, Select, Count, Clashes;
    var gs, need := FreeRegions(rs, 0), size + padStart + padEnd;
    k :| 0 <= k < Count(gs, need) && Clashes(rs, Region(Select(gs, need, k) + padStart, size, padStart, padEnd));
    base := Select(gs, need, k);
  }

  lemma {:induction false} PossibleIsDrawn(rs: seq<Region>, size: nat, padStart: nat, padEnd: nat)
    requires Sorted(rs) && AlignedList(rs) && size + padStart + padEnd > 0
    requires (size + padStart + padEnd) % PAGE_SIZE == 0
    requires ClashPossible(rs, FreeRegions(rs, 0), size + padStart + padEnd, size, padStart, padEnd)
    ensures ClashDrawn(rs, size, padStart, padEnd)
  {
    var gs, need := FreeRegions(rs, 0), size + padStart + padEnd;
    hide FreeRegions, Count, Select, Sorted, AlignedList, GapsOk, RoomAligned, AlignedGaps, FollowsBare, GapClash;
    hide FitsIn, Clashes, RegionOk;
    AlignedListFacts(rs, need);
    var i, j :| 0 <= i < |rs| && 0 <= j < |gs| && gs[j].size >= need && GapClash(rs[i], gs[j], size, padStart, padEnd);
    GapWhole(gs, j);
    var base := DrawAtClash(rs, i, gs[j], size, padStart, padEnd);
    assert FitsOne(gs, base, need);
    hide FitsOne;
    var k := SelectOnto(gs, 0, need, base);
    hide ClashDrawn;
    DrawnBy(rs, size, padStart, padEnd, k, base);
  }

  lemma {:induction false} DrawnBy(rs: seq<Region>, size: nat, padStart: nat, padEnd: nat, k: nat, base: nat)
    requires Sorted(rs) && k < Count(FreeRegions(rs, 0), size + padStart + padEnd)
    requires Select(FreeRegions(rs, 0), size + padStart + padEnd, k) == base
    requires Clashes(rs, Region(base + padStart, size, padStart, padEnd))
    ensures ClashDrawn(rs, size, padStart, padEnd)
  {
    hide Sorted, FreeRegions, Select, Count, Clashes;
  }

  /** Some draw chooses an address that is taken. */
  ghost predicate ClashDrawn(rs: seq<Region>, size: nat, padStart: nat, padEnd: nat)
    requires Sorted(rs)
  {
    var gs, need := FreeRegions(rs, 0), size + padStart + padEnd;
    exists k :: 0 <= k < Count(gs, need) && Clashes(rs, Region(Select(gs, need, k) + padStart, size, padStart, padEnd))
  }

  lemma {:induction false} FitsRoom(g: Gap, base: nat, need: nat)
    requires FitsIn(g, base, need)
    ensures g.size >= need
  {
  }

  /** Regions that all have bytes at or after their addresses never clash. */
  lemma {:induction false} AnchoredNoClash(rs: seq<Region>, r: Region)
    requires Anchored(r) && forall i :: 0 <= i < |rs| ==> Anchored(rs[i])
    ensures !Clashes(rs, r)
  {
  }

  // ---------------------------------------------------------------------------
  // Any list and any request
  // ---------------------------------------------------------------------------

  /** The draw falls into some gap, at one of its positions. */
  lemma {:induction false} SelectWhere(gs: seq<Gap>, need: nat, k: nat) returns (i: nat, j: nat)
    requires k < Count(gs, need)
    ensures i < |gs| && j < Slots(gs[i], need) && Select(gs, need, k) == gs[i].addr + j * PAGE_SIZE
  {
    hide Slots;
    if k < Slots(gs[0], need) {
      i, j := 0, k;
    } else {
      i, j := SelectWhere(gs[1..], need, k - Slots(gs[0], need));
      i := i + 1;
    }
  }

  lemma {:induction false} SlotIff(g: Gap, need: nat, j: nat)
    requires need % PAGE_SIZE == 0
    ensures j < Slots(g, need) <==> g.size >= need && j * PAGE_SIZE + need <= AlignUp(g.size, PAGE_SIZE)
  {
    PagesSpec(g.size);
    PagesSpec(need);
    hide PagesRounded, AlignUp;
  }

  /** With `pad` bytes before it, the address is one that the gap is counted to have. */
  ghost predicate AtPosition(g: Gap, need: nat, address: nat, pad: nat) {
    && g.size >= need && g.addr + pad <= address && (address - pad - g.addr) % PAGE_SIZE == 0
    && address - pad + need <= g.addr + AlignUp(g.size, PAGE_SIZE)
  }

  ghost predicate SomeTaken(rs: seq<Region>, size: nat, padStart: nat, padEnd: nat)
    requires Sorted(rs)
  {
    Count(FreeRegions(rs, 0), Need(size, padStart, padEnd)) > 0 &&
    exists draw: nat :: Taken(rs, Chosen(rs, size, padStart, padEnd, draw))
  }

  ghost predicate SomeAtPosition(rs: seq<Region>, gs: seq<Gap>, need: nat, pad: nat) {
    exists i, j :: 0 <= i < |rs| && 0 <= j < |gs| && AtPosition(gs[j], need, rs[i].address, pad)
  }

  /** Whatever the list and the request: some draw chooses an address that is taken, so that inserting it
      panics, exactly when a region's address is among those that some gap is counted to have. */
  lemma {:induction false} TakenByDraw(rs: seq<Region>, size: nat, padStart: nat, padEnd: nat)
    requires Sorted(rs)
    ensures SomeTaken(rs, size, padStart, padEnd) <==>
            SomeAtPosition(rs, FreeRegions(rs, 0), Need(size, padStart, padEnd), AlignUp(padStart, PAGE_SIZE))
  {
    hide Sorted, FreeRegions, Need, Count, Chosen, AlignUp, AtPosition;
    var gs, need, pad := FreeRegions(rs, 0), Need(size, padStart, padEnd), AlignUp(padStart, PAGE_SIZE);
    if SomeTaken(rs, size, padStart, padEnd) {
      var draw: nat :| Taken(rs, Chosen(rs, size, padStart, padEnd, draw));
      var i, j := DrawTaken(rs, size, padStart, padEnd, draw);
    }
    if SomeAtPosition(rs, gs, need, pad) {
      var i, j :| 0 <= i < |rs| && 0 <= j < |gs| && AtPosition(gs[j], need, rs[i].address, pad);
      var draw := TakenDrawn(rs, size, padStart, padEnd, i, j);
      assert Taken(rs, Chosen(rs, size, padStart, padEnd, draw));
    }
  }

  lemma {:induction false} DrawTaken(rs: seq<Region>, size: nat, padStart: nat, padEnd: nat, draw: nat)
    returns (i: nat, j: nat)
    requires Sorted(rs) && Count(FreeRegions(rs, 0), Need(size, padStart, padEnd)) > 0
    requires Taken(rs, Chosen(rs, size, padStart, padEnd, draw))
    ensures i < |rs| && j < |FreeRegions(rs, 0)|
    ensures AtPosition(FreeRegions(rs, 0)[j], Need(size, padStart, padEnd), rs[i].address, AlignUp(padStart, PAGE_SIZE))
  {
    hide Sorted, FreeRegions, Need, Count, Select, AlignUp, Slots;
    var gs, need, pad := FreeRegions(rs, 0), Need(size, padStart, padEnd), AlignUp(padStart, PAGE_SIZE);
    NeedSpec(size, padStart, padEnd);
    i :| 0 <= i < |rs| && rs[i].address == Chosen(rs, size, padStart, padEnd, draw);
    var k := draw % Count(gs, need);
    var slot;
    j, slot := SelectWhere(gs, need, k);
    SlotIff(gs[j], need, slot);
    ModOfMultiple(slot, PAGE_SIZE);
  }

  lemma {:induction false} TakenDrawn(rs: seq<Region>, size: nat, padStart: nat, padEnd: nat, i: nat, j: nat)
    returns (draw: nat)
    requires Sorted(rs) && i < |rs| && j < |FreeRegions(rs, 0)|
    requires AtPosition(FreeRegions(rs, 0)[j], Need(size, padStart, padEnd), rs[i].address,
                        AlignUp(padStart, PAGE_SIZE))
    ensures Count(FreeRegions(rs, 0), Need(size, padStart, padEnd)) > 0
    ensures Chosen(rs, size, padStart, padEnd, draw) == rs[i].address
  {
    hide Sorted, FreeRegions, Need, Count, Select, AlignUp, Slots;
    var gs, need, pad := FreeRegions(rs, 0), Need(size, padStart, padEnd), AlignUp(padStart, PAGE_SIZE);
    NeedSpec(size, padStart, padEnd);
    var slot := (rs[i].address - pad - gs[j].addr) / PAGE_SIZE;
    assert slot * PAGE_SIZE == rs[i].address - pad - gs[j].addr;
    SlotIff(gs[j], need, slot);
    draw := SelectAt(gs, need, j, slot);
    SmallRemainder(draw, Count(gs, need));
  }

  lemma {:induction false} SmallRemainder(k: nat, n: nat)
    requires k < n
    ensures k % n == k
  {
    DivUnique(k, n, 0);
  }

  /** The null page and a page of bare start padding above it. */
  function BareList(): seq<Region> { [Region(0, 0, 0, PAGE_SIZE), Region(2 * PAGE_SIZE, 0, PAGE_SIZE, 0)] }

  lemma {:induction false} BareListGaps()
    ensures Sorted(BareList()) && AlignedList(BareList())
    ensures FreeRegions(BareList(), 0) == [Gap(2 * PAGE_SIZE, MAX_MAP_ADDR - 2 * PAGE_SIZE)]
  {
    var rs := BareList();
    var bare := Region(2 * PAGE_SIZE, 0, PAGE_SIZE, 0);
    assert Sorted(rs) && AlignedList(rs) && Sorted([bare]);
    assert rs[1..] == [bare] && [bare][1..] == [];
    assert FreeRegions([], 2 * PAGE_SIZE) == [Gap(2 * PAGE_SIZE, MAX_MAP_ADDR - 2 * PAGE_SIZE)];
    hide FreeRegions, AlignedList;
    FreeUnfold(rs, 0);
    FreeUnfold([bare], PAGE_SIZE);
  }

  /** The first position is at the beginning of the first gap, if that has room. */
  lemma {:induction false} FirstSelected(gs: seq<Gap>, need: nat)
    requires gs != [] && gs[0].size >= need
    ensures Count(gs, need) > 0 && Select(gs, need, 0) == gs[0].addr
  {
    CountRoom(gs, need);
    SlotsPositive(gs[0], need);
  }

  lemma {:induction false} NeedOfPage()
    ensures Need(PAGE_SIZE, 0, 0) == PAGE_SIZE
  {
  }

  /** The first draw for one page takes the beginning of the first gap, if that has room. */
  lemma {:induction false} FirstDraw(rs: seq<Region>)
    requires Sorted(rs) && FreeRegions(rs, 0) != [] && FreeRegions(rs, 0)[0].size >= PAGE_SIZE
    ensures Count(FreeRegions(rs, 0), Need(PAGE_SIZE, 0, 0)) > 0
    ensures Chosen(rs, PAGE_SIZE, 0, 0, 0) == FreeRegions(rs, 0)[0].addr
  {
    hide FreeRegions, Count, Select, AlignUp, Need;
    NeedOfPage();
    FirstSelected(FreeRegions(rs, 0), PAGE_SIZE);
    NoPadding();
  }

  lemma {:induction false} NoPadding()
    ensures AlignUp(0, PAGE_SIZE) == 0
  {
  }

  /** In that list a page mapped with draw 0 is given an address that is taken. */
  lemma {:induction false} BarePaddingClash()
    ensures Sorted(BareList()) && Count(FreeRegions(BareList(), 0), Need(PAGE_SIZE, 0, 0)) > 0
    ensures Clashes(BareList(), Region(Chosen(BareList(), PAGE_SIZE, 0, 0, 0), PAGE_SIZE, 0, 0))
  {
    var rs := BareList();
    assert FollowsBare(rs[1], Region(2 * PAGE_SIZE, PAGE_SIZE, 0, 0));
    hide FreeRegions, Count, Select, AlignUp, Chosen, Need, Sorted, BareList;
    BareListGaps();
    FirstDraw(rs);
  }

  /** The null page and, above it, end padding of a page and a byte. */
  function PaddedList(): seq<Region> { [Region(0, 0, 0, PAGE_SIZE), Region(PAGE_SIZE, 0, 0, PAGE_SIZE + 1)] }

  lemma {:induction false} PaddedListGaps()
    ensures Sorted(PaddedList())
    ensures FreeRegions(PaddedList(), 0) == [Gap(2 * PAGE_SIZE + 1, MAX_MAP_ADDR - 2 * PAGE_SIZE - 1)]
  {
    var rs := PaddedList();
    var last := Region(PAGE_SIZE, 0, 0, PAGE_SIZE + 1);
    assert Sorted(rs) && Sorted([last]);
    assert rs[1..] == [last] && [last][1..] == [];
    assert FreeRegions([], 2 * PAGE_SIZE + 1) == [Gap(2 * PAGE_SIZE + 1, MAX_MAP_ADDR - 2 * PAGE_SIZE - 1)];
    hide FreeRegions;
    FreeUnfold(rs, 0);
    FreeUnfold([last], PAGE_SIZE);
  }

  const LAST_DRAW: nat := 0x7_FFFF_FFFD

  /** With one gap, a draw below the number of its positions is that position. */
  lemma {:induction false} ChosenInOne(rs: seq<Region>, g: Gap, size: nat, padStart: nat, padEnd: nat, draw: nat)
    requires Sorted(rs) && FreeRegions(rs, 0) == [g] && draw < Slots(g, Need(size, padStart, padEnd))
    ensures Count(FreeRegions(rs, 0), Need(size, padStart, padEnd)) == Slots(g, Need(size, padStart, padEnd))
    ensures Chosen(rs, size, padStart, padEnd, draw) == g.addr + draw * PAGE_SIZE + AlignUp(padStart, PAGE_SIZE)
  {
    hide Sorted, FreeRegions, Need, AlignUp, Slots;
    var gs, need := [g], Need(size, padStart, padEnd);
    assert gs[1..] == [];
    assert Count(gs, need) == Slots(g, need);
    SmallRemainder(draw, Count(gs, need));
  }

  /** The last draw for a page in that list. */
  lemma {:induction false} PaddingLeavesGap(rs: seq<Region>)
    requires rs == PaddedList()
    ensures Sorted(rs) && Count(FreeRegions(rs, 0), Need(PAGE_SIZE, 0, 0)) == LAST_DRAW + 1
    ensures Chosen(rs, PAGE_SIZE, 0, 0, LAST_DRAW) == MAX_MAP_ADDR + 1 - PAGE_SIZE
  {
    hide FreeRegions, PaddedList, Sorted, Count, Select, Chosen, Need, AlignUp, Slots;
    PaddedListGaps();
    NeedOfPages();
    var g := Gap(2 * PAGE_SIZE + 1, MAX_MAP_ADDR - 2 * PAGE_SIZE - 1);
    SlotsOver(g);
    ChosenInOne(rs, g, PAGE_SIZE, 0, 0, LAST_DRAW);
  }

  lemma {:induction false} SlotsOver(g: Gap)
    requires g.size == MAX_MAP_ADDR - 2 * PAGE_SIZE - 1
    ensures Slots(g, PAGE_SIZE) == LAST_DRAW + 1
  {
    PagesSpec(g.size);
    PagesSpec(PAGE_SIZE);
    hide PagesRounded, AlignUp;
  }

  lemma {:induction false} NeedOfPages()
    ensures Need(PAGE_SIZE, 0, 0) == PAGE_SIZE && Need(0, 0, PAGE_SIZE + 1) == 2 * PAGE_SIZE
    ensures AlignUp(0, PAGE_SIZE) == 0
  {
  }

  /** In an aligned list a chosen region with whole pages of size and padding is aligned. */
  lemma {:induction false} AlignedRegion(r: Region, rs: seq<Region>, base: nat)
    requires Sorted(rs) && FitsOne(FreeRegions(rs, 0), base, Need(r.size, r.padStart, r.padEnd))
    requires r.padStart <= r.address
    requires base + AlignUp(r.padStart, PAGE_SIZE) == r.address
    ensures AlignedList(rs) && WholePages(r.size, r.padStart, r.padEnd) ==>
              r.Start() % PAGE_SIZE == 0 && r.End() % PAGE_SIZE == 0
  {
    hide FreeRegions, Need, AlignUp, PagesRounded, Sorted, AlignedList, AlignedGaps, GapsOk;
    if AlignedList(rs) && WholePages(r.size, r.padStart, r.padEnd) {
      AlignedListFacts(rs, 0);
      PagesSpec(r.padStart);
      var gs := FreeRegions(rs, 0);
      var k :| 0 <= k < |gs| && FitsIn(gs[k], base, Need(r.size, r.padStart, r.padEnd));
      GapWhole(gs, k);
      SumAligned(r.size, r.padStart, r.padEnd);
      OnBoundary(gs[k].addr, base, r.size + r.padStart + r.padEnd);
    }
  }

  lemma {:induction false} OnBoundary(a: nat, b: nat, n: nat)
    requires a <= b && a % PAGE_SIZE == 0 && (b - a) % PAGE_SIZE == 0
    ensures b % PAGE_SIZE == 0 && (n % PAGE_SIZE == 0 ==> (b + n) % PAGE_SIZE == 0)
  {
  }

  lemma {:induction false} ClashIff(rs: seq<Region>, r: Region)
    requires Separate(rs, r)
    ensures Clashes(rs, r) <==> Taken(rs, r.address)
  {
    forall i | 0 <= i < |rs| ensures rs[i].address == r.address <==> FollowsBare(rs[i], r) || FollowsBare(r, rs[i]) {
      SameAddress(r, rs[i]);
    }
  }

  /** `after` is `before` with the region added at some place. */
  ghost predicate Inserted(before: seq<Region>, after: seq<Region>, r: Region) {
    exists k :: 0 <= k <= |before| && after == before[..k] + [r] + before[k..]
  }

  lemma {:induction false} InsertedLonger(before: seq<Region>, after: seq<Region>, r: Region)
    requires Inserted(before, after, r)
    ensures |after| == |before| + 1
  {
  }

  lemma {:induction false} PlacedOk(rs: seq<Region>, r: Region, base: nat, need: nat)
    requires Sorted(rs) && PlacedAt(rs, r, base, need)
    ensures RegionOk(r)
  {
  }

  /** What holds of every old region and of the new one holds of the list after. */
  lemma {:induction false} InsertedAll(before: seq<Region>, after: seq<Region>, r: Region)
    requires Sorted(before) && Sorted(after) && RegionOk(r) && Inserted(before, after, r)
    ensures (forall i :: 0 <= i < |before| ==> Anchored(before[i])) && Anchored(r) ==>
              forall i :: 0 <= i < |after| ==> Anchored(after[i])
    ensures AlignedList(before) && r.Start() % PAGE_SIZE == 0 && r.End() % PAGE_SIZE == 0 ==> AlignedList(after)
  {
    forall i | 0 <= i < |after| ensures after[i] == r || exists j :: 0 <= j < |before| && after[i] == before[j] {
      InsertedFrom(before, after, r, i);
    }
    hide Inserted, Anchored, Sorted;
  }

  lemma {:induction false} InsertedFrom(before: seq<Region>, after: seq<Region>, r: Region, i: nat)
    requires Inserted(before, after, r) && i < |after|
    ensures after[i] == r || exists j :: 0 <= j < |before| && after[i] == before[j]
  {
    var k :| 0 <= k <= |before| && after == before[..k] + [r] + before[k..];
    hide Inserted;
    if i < k {
      assert after[i] == before[i];
    } else if i > k {
      assert after[i] == before[k..][i - k - 1] == before[i - 1];
    }
  }

  lemma {:induction false} AddressesSorted(rs: seq<Region>)
    requires Sorted(rs)
    ensures forall i, j :: 0 <= i < j < |rs| ==> rs[i].address <= rs[j].address
  {
    forall i, j | 0 <= i < j < |rs| ensures rs[i].address <= rs[j].address {
      assert RegionOk(rs[i]) && RegionOk(rs[j]) && rs[i].End() <= rs[j].Start();
    }
  }

  datatype Search = Found(index: nat) | Missing(index: nat)

  class AddrSpaceManager {
    var regions: seq<Region>

    ghost predicate Valid()
      reads this
    {
      Sorted(regions)
    }

    /** `new_local` and `new_remote`: an empty list in which the null page is then reserved. */
    constructor ()
      ensures Valid() && AlignedList(regions) && AllAnchored()
      ensures regions == [Region(0, 0, 0, PAGE_SIZE)]
    {
      regions := [Region(0, 0, 0, PAGE_SIZE)];
    }

    /** Every region has bytes at or after its address. */
    ghost predicate AllAnchored()
      reads this
    {
      forall i :: 0 <= i < |regions| ==> Anchored(regions[i])
    }

    method IterFreeRegions() returns (gs: seq<Gap>)
      requires Valid()
      ensures gs == FreeRegions(regions, 0)
    {
      var prev, i := 0, 0;
      gs := [];
      assert regions[0..] == regions && StartsAfter(regions, 0);
      assert [] + FreeRegions(regions, 0) == FreeRegions(regions, 0);
      hide GapBefore;
      while i < |regions|
        invariant 0 <= i <= |regions|
        invariant StartsAfter(regions[i..], prev) && gs + FreeRegions(regions[i..], prev) == FreeRegions(regions, 0)
      {
        ghost var rest := regions[i..];
        FreeUnfold(rest, prev);
        assert rest[1..] == regions[i + 1..] && rest[0] == regions[i];
        hide FreeRegions, StartsAfter, Sorted;
        gs, prev, i := gs + GapBefore(prev, regions[i].Start()), regions[i].End(), i + 1;
      }
      gs := gs + GapBefore(prev, MAX_MAP_ADDR);
    }

    /** Chooses among all the page positions where the padded mapping fits, by the given draw. */
    method FindMapAddress(size: nat, padStart: nat, padEnd: nat, draw: nat) returns (r: Result<nat>)
      requires Valid()
      ensures var gs, need := FreeRegions(regions, 0), Need(size, padStart, padEnd);
              && (r.Overflow? <==> need >= USIZE_LIMIT)
              && (r.NoAvailableRegion? <==> need < USIZE_LIMIT && Count(gs, need) == 0)
              && (r.Overflow? || r.NoAvailableRegion? || r == Ok(Chosen(regions, size, padStart, padEnd, draw)))
              && (r.Ok? && RoomAligned(gs, need) ==> FitsOne(gs, r.value - AlignUp(padStart, PAGE_SIZE), need))
    {
      hide Need, AlignUp, FreeRegions, Count, Select, Sorted, GapsOk, RoomAligned, FitsOne;
      var need := Need(size, padStart, padEnd);
      if need >= USIZE_LIMIT { return Overflow; }
      var gs := IterFreeRegions();
      FreeRegionsOk(regions, 0);
      NeedSpec(size, padStart, padEnd);
      var available := CountPositions(gs, need);
      if available == 0 { return NoAvailableRegion; }
      var base := PickPosition(gs, need, draw % available);
      if RoomAligned(gs, need) { SelectFits(gs, 0, need, draw % available); }
      r := Ok(base + AlignUp(padStart, PAGE_SIZE));
    }

    /** The first pass. */
    static method CountPositions(gs: seq<Gap>, need: nat) returns (n: nat)
      ensures n == Count(gs, need)
    {
      n := 0;
      var i := 0;
      assert gs[0..] == gs;
      while i < |gs|
        invariant 0 <= i <= |gs|
        invariant n + Count(gs[i..], need) == Count(gs, need)
      {
        assert gs[i..][1..] == gs[i + 1..];
        if gs[i].size >= need {
          n := n + (PagesRounded(gs[i].size) - PagesRounded(need) + 1);
        }
        i := i + 1;
      }
    }

    /** The second pass, which always finds the position. */
    static method PickPosition(gs: seq<Gap>, need: nat, position: nat) returns (base: nat)
      requires position < Count(gs, need)
      ensures base == Select(gs, need, position)
    {
      var k: nat, i := position, 0;
      assert gs[0..] == gs;
      hide PagesRounded;
      while true
        invariant 0 <= i < |gs| && k < Count(gs[i..], need) && Select(gs[i..], need, k) == Select(gs, need, position)
        decreases |gs| - i
      {
        assert gs[i..][1..] == gs[i + 1..] && gs[i..][0] == gs[i];
        assert Count(gs[i..], need) == Slots(gs[i], need) + Count(gs[i + 1..], need);
        if gs[i].size >= need {
          var n := PagesRounded(gs[i].size) - PagesRounded(need) + 1;
          if k < n { return gs[i].addr + k * PAGE_SIZE; }
          k := k - n;
        }
        i := i + 1;
      }
    }

    method BinarySearchAddress(address: nat) returns (r: Search)
      requires Valid()
      ensures r.Found? ==> r.index < |regions| && regions[r.index].address == address
      ensures r.Missing? ==>
                && r.index <= |regions|
                && (forall i :: 0 <= i < r.index ==> regions[i].address < address)
                && (forall i :: r.index <= i < |regions| ==> address < regions[i].address)
    {
      AddressesSorted(regions);
      hide Sorted;
      var lo, hi := 0, |regions|;
      while lo < hi
        invariant 0 <= lo <= hi <= |regions|
        invariant forall i :: 0 <= i < lo ==> regions[i].address < address
        invariant forall i :: hi <= i < |regions| ==> address < regions[i].address
      {
        var mid := lo + (hi - lo) / 2;
        if regions[mid].address == address { return Found(mid); }
        if regions[mid].address < address { lo := mid + 1; } else { hi := mid; }
      }
      r := Missing(lo);
    }

    /** Inserts in address order. The source panics, here `None`, exactly when the address is taken. A region
        apart from all others keeps the list sorted. */
    method InsertRegion(r: Region) returns (at: Option<nat>)
      requires Valid()
      modifies this
      ensures at.None? <==> Taken(old(regions), r.address)
      ensures at.None? ==> regions == old(regions)
      ensures at.Some? ==>
                at.value <= |old(regions)| && regions == old(regions)[..at.value] + [r] + old(regions)[at.value..]
      ensures Separate(old(regions), r) ==> Valid() && (at.None? <==> Clashes(old(regions), r))
    {
      var s := BinarySearchAddress(r.address);
      if Separate(regions, r) { ClashIff(regions, r); }
      if s.Found? { return None; }
      if Separate(regions, r) {
        AddressOrder(regions, r, s.index);
        InsertSorted(regions, r, s.index);
      }
      regions := regions[..s.index] + [r] + regions[s.index..];
      at := Some(s.index);
    }

    method RemoveRegion(address: nat) returns (r: Result<Region>)
      requires Valid()
      modifies this
      ensures Valid() && (r.Ok? || r.InvalidAddress?)
      ensures r.InvalidAddress? ==>
                regions == old(regions) && forall i :: 0 <= i < |regions| ==> regions[i].address != address
      ensures r.Ok? ==> r.value.address == address
      ensures r.Ok? ==>
                exists k :: 0 <= k < |old(regions)| && old(regions)[k] == r.value
                            && regions == old(regions)[..k] + old(regions)[k + 1..]
    {
      var s := BinarySearchAddress(address);
      if s.Missing? { return InvalidAddress; }
      RemoveSorted(regions, s.index);
      r := Ok(regions[s.index]);
      regions := regions[..s.index] + regions[s.index + 1..];
    }

    /** `map_memory` without an address: finds a place and takes it. Whatever the draw, the list stays sorted
        and without overlap if every gap with room is a whole number of pages, as in an aligned list. */
    method MapAnywhere(size: nat, padStart: nat, padEnd: nat, memory: bool, draw: nat) returns (r: Result<nat>)
      requires Valid()
      modifies this
      ensures r.Ok? <==> regions != old(regions)
      ensures var gs, need := FreeRegions(old(regions), 0), Need(size, padStart, padEnd);
              && (r.Overflow? <==> need >= USIZE_LIMIT)
              && (r.ZeroSizeMapping? <==> need < USIZE_LIMIT && (need == 0 || (memory && size == 0)))
              && (r.NoAvailableRegion? <==> need < USIZE_LIMIT && !r.ZeroSizeMapping? && Count(gs, need) == 0)
              && !r.InvalidAddress?
              && (r.Ok? || r.Panics? ==>
                    && need > 0 && Count(gs, need) > 0
                    && var region := Region(Chosen(old(regions), size, padStart, padEnd, draw), size, padStart, padEnd);
                       && (r.Panics? <==> Taken(old(regions), region.address))
                       && (r.Ok? ==> r.value == region.address && Inserted(old(regions), regions, region))
                       && (RoomAligned(gs, need) ==> (r.Panics? <==> Clashes(old(regions), region))))
      ensures RoomAligned(FreeRegions(old(regions), 0), Need(size, padStart, padEnd)) ==>
                && Valid()
                && (old(AllAnchored()) && size + padEnd > 0 ==> !r.Panics? && AllAnchored())
      ensures AlignedList(old(regions)) && WholePages(size, padStart, padEnd) ==> Valid() && AlignedList(regions)
    {
      hide FreeRegions, Select, Count, AlignUp, FitsOne, Sorted, Need, Clashes, Inserted, RoomAligned, AlignedList;
      hide Taken;
      NeedSpec(size, padStart, padEnd);
      NeedZero(size, padStart, padEnd);
      var need := Need(size, padStart, padEnd);
      if AlignedList(regions) { AlignedListFacts(regions, need); }
      if need >= USIZE_LIMIT { return Overflow; }
      if need == 0 || (memory && size == 0) { return ZeroSizeMapping; }
      r := FindMapAddress(size, padStart, padEnd, draw);
      if r.NoAvailableRegion? { return; }
      r := Take(Region(r.value, size, padStart, padEnd), r.value - AlignUp(padStart, PAGE_SIZE));
    }

    /** Inserts the region chosen. */
    method Take(region: Region, ghost base: nat) returns (r: Result<nat>)
      requires Valid() && base + AlignUp(region.padStart, PAGE_SIZE) == region.address
      requires region.size + region.padStart + region.padEnd > 0
      modifies this
      ensures (r.Ok? || r.Panics?) && (r.Panics? <==> Taken(old(regions), region.address))
      ensures r.Panics? ==> regions == old(regions)
      ensures r.Ok? ==> r.value == region.address && Inserted(old(regions), regions, region) && regions != old(regions)
      ensures FitsOne(FreeRegions(old(regions), 0), base, Need(region.size, region.padStart, region.padEnd)) ==>
                && Valid() && (r.Panics? <==> Clashes(old(regions), region))
                && (old(AllAnchored()) && Anchored(region) ==> r.Ok? && AllAnchored())
                && (AlignedList(old(regions)) && WholePages(region.size, region.padStart, region.padEnd) ==>
                      AlignedList(regions))
    {
      ghost var need := Need(region.size, region.padStart, region.padEnd);
      ghost var fits := FitsOne(FreeRegions(regions, 0), base, need);
      hide FreeRegions, AlignUp, FitsOne, Sorted, Need, Clashes, Taken, Separate, PlacedAt, AlignedList, WholePages;
      if fits {
        PlacedRegion(regions, region.size, region.padStart, region.padEnd, base);
        PlacedApart(regions, region, base, need);
        PlacedOk(regions, region, base, need);
        AlignedRegion(region, regions, base);
      }
      if AllAnchored() && Anchored(region) { AnchoredNoClash(regions, region); }
      var at := InsertRegion(region);
      if at.None? { return Panics; }
      r := Ok(region.address);
      InsertedLonger(old(regions), regions, region);
      if fits { InsertedAll(old(regions), regions, region); }
    }
  }

  lemma {:induction false} NullPageGaps(rs: seq<Region>)
    requires rs == [Region(0, 0, 0, PAGE_SIZE)]
    ensures Sorted(rs) && AlignedList(rs) && !Taken(rs, PAGE_SIZE)
    ensures FreeRegions(rs, 0) == [Gap(PAGE_SIZE, MAX_MAP_ADDR - PAGE_SIZE)]
  {
    assert rs[1..] == [];
    FreeUnfold(rs, 0);
  }

  lemma {:induction false} NullPageChosen(rs: seq<Region>)
    requires rs == [Region(0, 0, 0, PAGE_SIZE)]
    ensures Sorted(rs) && AlignedList(rs) && !Taken(rs, PAGE_SIZE)
    ensures Count(FreeRegions(rs, 0), Need(0, 0, PAGE_SIZE + 1)) > 0
    ensures Chosen(rs, 0, 0, PAGE_SIZE + 1, 0) == PAGE_SIZE
  {
    hide FreeRegions, Sorted, AlignedList, Count, Select, Chosen, Need, AlignUp, Slots, Taken;
    NullPageGaps(rs);
    NeedOfPages();
    var g := Gap(PAGE_SIZE, MAX_MAP_ADDR - PAGE_SIZE);
    SlotsPositive(g, 2 * PAGE_SIZE);
    ChosenInOne(rs, g, 0, 0, PAGE_SIZE + 1, 0);
  }

  lemma {:induction false} OnlyOrder(rs: seq<Region>)
    requires Sorted(rs) && Inserted([Region(0, 0, 0, PAGE_SIZE)], rs, Region(PAGE_SIZE, 0, 0, PAGE_SIZE + 1))
    ensures rs == PaddedList()
  {
    var page0, r := Region(0, 0, 0, PAGE_SIZE), Region(PAGE_SIZE, 0, 0, PAGE_SIZE + 1);
    var k :| 0 <= k <= 1 && rs == [page0][..k] + [r] + [page0][k..];
    if k == 0 { assert rs == [r, page0] && rs[0].End() <= rs[1].Start(); }
  }

  /** A new manager, a reservation of a page and a byte, and a page with the last draw: the page is placed so
      that it ends a byte past the end of the address space. */
  method RunsOver() returns (m: AddrSpaceManager, r: Result<nat>)
    ensures r == Ok(MAX_MAP_ADDR + 1 - PAGE_SIZE) && !m.Valid()
    ensures Inserted(PaddedList(), m.regions, Region(MAX_MAP_ADDR + 1 - PAGE_SIZE, PAGE_SIZE, 0, 0))
  {
    hide FreeRegions, Count, Select, Chosen, Need, AlignUp, Sorted, AlignedList, Inserted, Taken, RoomAligned;
    hide PaddedList;
    NullPageChosen([Region(0, 0, 0, PAGE_SIZE)]);
    PaddingLeavesGap(PaddedList());
    NeedOfPages();
    m := new AddrSpaceManager();
    var first := m.MapAnywhere(0, 0, PAGE_SIZE + 1, false, 0);
    AlignedListFacts([Region(0, 0, 0, PAGE_SIZE)], 2 * PAGE_SIZE);
    OnlyOrder(m.regions);
    r := m.MapAnywhere(PAGE_SIZE, 0, 0, true, LAST_DRAW);
    NotTaken();
    OverEnd(m.regions);
  }

  lemma {:induction false} NotTaken()
    ensures !Taken(PaddedList(), MAX_MAP_ADDR + 1 - PAGE_SIZE)
  {
  }

  lemma {:induction false} OverEnd(rs: seq<Region>)
    requires Inserted(PaddedList(), rs, Region(MAX_MAP_ADDR + 1 - PAGE_SIZE, PAGE_SIZE, 0, 0))
    ensures !Sorted(rs)
  {
    var r := Region(MAX_MAP_ADDR + 1 - PAGE_SIZE, PAGE_SIZE, 0, 0);
    var k :| 0 <= k <= |PaddedList()| && rs == PaddedList()[..k] + [r] + PaddedList()[k..];
    assert rs[k] == r && !RegionOk(rs[k]);
  }
}
