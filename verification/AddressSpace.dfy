/** An address space: page tables in physical frames, rewritten in place by mapping and unmapping,
    with frames taken from and returned to a page allocator that may fail at any request. */
module AddressSpace {
  import opened PageEntry
  import opened PageTree
  import opened PageTight
  import opened Processor
  import opened Wrappers

  datatype CacheSetting = WriteBack | WriteThrough | WriteCombining | Uncached

  datatype PageOptions = PageOptions(read: bool, write: bool, exec: bool, user: bool, cache: CacheSetting) {
    predicate Exists() { read || write || exec }
  }

  datatype Outcome = Done | OutOfMem | InvalidArgs | Panics

  datatype Unmapping = Unmapped(frame: nat) | NotMapped | Fault

  function CacheBits(c: CacheSetting): nat {
    match c
    case WriteBack => 0
    case WriteThrough => 8
    case WriteCombining => 16
    case Uncached => 24
  }

  function LowFlags(o: PageOptions): nat {
    1 + (if o.write then 2 else 0) + (if o.user then 4 else 0) + CacheBits(o.cache)
  }

  /** The word `map_page` stores for a page: frame, permission and cache bits, and the no-execute
      bit 63. */
  function PageWord(phys: nat, o: PageOptions): (w: Word)
    requires IsFrame(phys)
  {
    phys + LowFlags(o) + (if o.exec then 0 else 0x8000_0000_0000_0000)
  }

  lemma PageWordSpec(phys: nat, o: PageOptions)
    requires IsFrame(phys)
    ensures Present(PageWord(phys, o)) && Address(PageWord(phys, o)) == phys
    ensures NoCount(PageWord(phys, o)) == PageWord(phys, o)
  {
    var k, low := phys / 4096, LowFlags(o);
    PointerWord(k, low);
    CountOf(if o.exec then 0 else 1, 0, 4096 * k + low);
  }

  /** To the processor the word is the frame with the permissions and the memory type asked for. */
  lemma {:induction false} PageWordAccess(phys: nat, o: PageOptions)
    requires IsFrame(phys)
    ensures PageAccess(PageWord(phys, o)) ==
            Access(phys, o.write, o.user, o.exec, o.cache in {WriteThrough, Uncached},
                   o.cache in {WriteCombining, Uncached}, false)
  {
    hide Set, FrameOf, LowFlags;
    LowFlagBits(o);
    WordOf(phys, LowFlags(o), if o.exec then 0 else 1);
  }

  lemma {:induction false} LowFlagBits(o: PageOptions)
    ensures LowFlags(o) < 32 && LowFlags(o) % 2 == 1 && LowFlags(o) / 128 % 2 == 0
    ensures (LowFlags(o) / 2 % 2 == 1 <==> o.write) && (LowFlags(o) / 4 % 2 == 1 <==> o.user)
    ensures LowFlags(o) / 8 % 2 == 1 <==> o.cache in {WriteThrough, Uncached}
    ensures LowFlags(o) / 16 % 2 == 1 <==> o.cache in {WriteCombining, Uncached}
  {
    match o.cache { case WriteBack => case WriteThrough => case WriteCombining => case Uncached => }
  }

  /** Table index `k` of a virtual address, counted from the leaf: bits 12 + 9k .. 20 + 9k. */
  function IndexOf(addr: nat, k: nat): nat {
    Shifted(addr / 4096, k) % 512
  }

  function Shifted(n: nat, k: nat): nat {
    if k == 0 then n else Shifted(n, k - 1) / 512
  }

  /** The position of the page at a virtual address. */
  function PageOf(addr: nat): Path {
    Step(Step(Step(Step(Root, IndexOf(addr, 3)), IndexOf(addr, 2)), IndexOf(addr, 1)), IndexOf(addr, 0))
  }

  const KERNEL_VMA: nat := 0xffff_ff80_0000_0000

  /** A page-aligned canonical address below the kernel's region. */
  predicate IsUserPage(addr: nat) {
    addr % 4096 == 0 && (addr < 0x8000_0000_0000 || 0xffff_8000_0000_0000 <= addr < KERNEL_VMA)
  }

  /** Splitting a page number into its four indices and what lies above them. */
  lemma {:induction false} Digits(n: nat)
    ensures Shifted(n, 0) == n == 512 * Shifted(n, 1) + Shifted(n, 0) % 512
    ensures Shifted(n, 1) == 512 * Shifted(n, 2) + Shifted(n, 1) % 512
    ensures Shifted(n, 2) == 512 * Shifted(n, 3) + Shifted(n, 2) % 512
    ensures Shifted(n, 3) == 512 * Shifted(n, 4) + Shifted(n, 3) % 512
  {
  }

  /** What lies above the indices is decided by the half of the address space the top index is in. */
  lemma {:induction false} TopIndex(a: nat)
    requires IsUserPage(a)
    ensures IndexOf(a, 3) != KERNEL_ENTRY
    ensures Shifted(a / 4096, 4) == if IndexOf(a, 3) < 256 then 0 else 0xffff
  {
    var n := a / 4096;
    Digits(n);
    if a < 0x8000_0000_0000 {
      assert n < 0x8_0000_0000;
    } else {
      assert 0xf_fff8_0000_0000 <= n < 0xf_ffff_f800_0000;
    }
  }

  /** Of the page addresses that are canonical, whose bits from 47 on are all equal, the user's are those with a
      top index other than the kernel's. */
  lemma {:induction false} UserPageIff(a: nat)
    requires a % 4096 == 0 && (a < 0x8000_0000_0000 || 0xffff_8000_0000_0000 <= a < 0x1_0000_0000_0000_0000)
    ensures IsUserPage(a) <==> a / 0x80_0000_0000 % 512 != 511
  {
    var t := a / 0x80_0000_0000;
    if a < 0x8000_0000_0000 {
      assert t < 256;
    } else {
      assert 0x1ff_ff00 <= t < 0x200_0000 && (a < KERNEL_VMA <==> t < 0x1ff_ffff);
      assert t % 512 == t - 0x1ff_fe00;
    }
  }

  /** User addresses name user pages, and different addresses name different pages. */
  lemma {:induction false} PageOfSpec(a: nat, b: nat)
    requires IsUserPage(a) && IsUserPage(b)
    ensures IsPage(PageOf(a))
    ensures PageOf(a) == PageOf(b) ==> a == b
  {
    TopIndex(a);
    TopIndex(b);
    PageOfDepth(a);
    if PageOf(a) == PageOf(b) {
      Digits(a / 4096);
      Digits(b / 4096);
    }
  }

  /** The position on the way to page `q` after `level` steps. */
  ghost function Waypoint(q: Path, level: nat): Path
    requires IsPage(q) && level <= 4
  {
    FourSteps(q);
    [Root, q.up.up.up, q.up.up, q.up, q][level]
  }

  function IndicesOf(addr: nat): (r: seq<nat>)
    ensures |r| == 4
  {
    [IndexOf(addr, 3), IndexOf(addr, 2), IndexOf(addr, 1), IndexOf(addr, 0)]
  }

  /** The indices are the address bits that the processor uses. */
  lemma {:induction false} IndicesAre(addr: nat)
    requires IsUserPage(addr)
    ensures IsPage(PageOf(addr)) && Indices(PageOf(addr)) == AddressBits(addr) == IndicesOf(addr)
  {
    PageOfSpec(addr, addr);
    FourSteps(PageOf(addr));
    hide IsPage, IsUserPage;
    ShiftedBits(addr);
  }

  lemma {:induction false} ShiftedBits(addr: nat)
    ensures Shifted(addr / 4096, 0) == addr / 0x1000 && Shifted(addr / 4096, 1) == addr / 0x20_0000
    ensures Shifted(addr / 4096, 2) == addr / 0x4000_0000 && Shifted(addr / 4096, 3) == addr / 0x80_0000_0000
  {
    var n := addr / 4096;
    assert Shifted(n, 1) == n / 512;
    assert Shifted(n, 2) == n / 512 / 512;
    assert Shifted(n, 3) == n / 512 / 512 / 512;
  }

  /** The processor's translation of a user address is that of the flat mapping. */
  lemma {:induction false} TranslateGood(cr3: nat, kernel: Word, mem: Memory, at: Shape, pool: set<nat>,
                                         flat: map<Path, Word>, addr: nat)
    requires Good(cr3, kernel, mem, at, pool, {}, flat) && IsUserPage(addr)
    ensures Translate(mem, cr3, AddressBits(addr)) == Seen(Lookup(flat, PageOf(addr)))
  {
    IndicesAre(addr);
    hide PageOf, IsUserPage, AddressBits, IndicesOf;
    TranslateFindsLeaf(cr3, kernel, mem, at, PageOf(addr));
  }

  /** The table with the page's own entry exists. */
  ghost predicate HasLeafTable(at: Shape, addr: nat) { PageOf(addr).up in at }

  lemma {:induction false} PageIndex(addr: nat)
    ensures PageOf(addr).Step? && PageOf(addr).index == IndexOf(addr, 0) < ENTRIES
  {
  }

  /** The four indices of an address lead step by step to its page. */
  lemma {:induction false} WayToPage(addr: nat)
    requires IsUserPage(addr)
    ensures IsPage(PageOf(addr)) && Waypoint(PageOf(addr), 0) == Root
  {
    PageOfSpec(addr, addr);
  }

  lemma {:induction false} WayStep(addr: nat, level: nat)
    requires IsUserPage(addr) && level < 4 && IsPage(PageOf(addr))
    ensures Waypoint(PageOf(addr), level + 1) == Step(Waypoint(PageOf(addr), level), IndicesOf(addr)[level])
    ensures Waypoint(PageOf(addr), level).Depth() == level && Waypoint(PageOf(addr), level + 1).InUser()
    ensures IndicesOf(addr)[level] < ENTRIES
    ensures level == 3 ==> Waypoint(PageOf(addr), 4) == PageOf(addr)
  {
    FourSteps(PageOf(addr));
  }

  lemma {:induction false} PageOfDepth(a: nat)
    requires IndexOf(a, 3) != KERNEL_ENTRY
    ensures IsPage(PageOf(a))
  {
    var p1 := Step(Root, IndexOf(a, 3));
    var p2 := Step(p1, IndexOf(a, 2));
    var p3 := Step(p2, IndexOf(a, 1));
    assert p1.Depth() == 1 && p1.InUser();
    assert p2.Depth() == 2 && p2.InUser();
    assert p3.Depth() == 3 && p3.InUser();
  }

  /** `PageTable::add_entry` on the 512 words of a table. */
  method AddEntryInPlace(t: array<Word>, i: nat, w: Word)
    requires t.Length == ENTRIES && i < ENTRIES
    modifies t
    ensures t[..] == AddEntry(old(t[..]), i, w)
  {
    var count := Count(t[0]);
    if !Present(t[i]) {
      count := count + 1;
    }
    t[i] := w;
    t[0] := WithCount(t[0], count);
  }

  /** `PageTable::remove` on the 512 words of a table. */
  method RemoveInPlace(t: array<Word>, i: nat)
    requires t.Length == ENTRIES && i < ENTRIES
    modifies t
    ensures t[..] == RemoveEntry(old(t[..]), i)
  {
    if Present(t[i]) {
      t[i] := ClearPresent(t[i]);
      t[0] := WithCount(t[0], Count(t[0]) - 1);
    }
  }

  datatype MapAction = MapAction(addr: nat, phys: nat, options: PageOptions)

  ghost predicate WellFormed(actions: seq<MapAction>) {
    forall a :: a in actions ==> IsUserPage(a.addr) && IsFrame(a.phys)
  }

  ghost predicate NoRepeat(actions: seq<MapAction>) {
    forall i, j :: 0 <= i < j < |actions| ==> actions[i].addr != actions[j].addr
  }

  /** None of these pages is mapped. */
  ghost predicate AllUnmapped(flat: map<Path, Word>, actions: seq<MapAction>) {
    forall i :: 0 <= i < |actions| ==> PageOf(actions[i].addr) !in flat
  }

  ghost function Pages(actions: seq<MapAction>): set<Path> {
    set i | 0 <= i < |actions| :: PageOf(actions[i].addr)
  }

  /** `flat` after all requests of the batch took effect. */
  ghost function Mapped(flat: map<Path, Word>, actions: seq<MapAction>): map<Path, Word>
    requires WellFormed(actions)
  {
    if actions == [] then flat
    else
      var n := |actions| - 1;
      Mapped(flat, actions[..n])[PageOf(actions[n].addr) := PageWord(actions[n].phys, actions[n].options)]
  }

  /** Unmapping the first pages of a batch gives back the translation from before it exactly when none of
      them was mapped then. */
  lemma {:induction false} RollbackRestores(flat: map<Path, Word>, actions: seq<MapAction>)
    ensures flat - Pages(actions) == flat <==> AllUnmapped(flat, actions)
  {
    hide PageOf;
    if flat - Pages(actions) == flat {
      forall i | 0 <= i < |actions| ensures PageOf(actions[i].addr) !in flat {
        assert PageOf(actions[i].addr) in Pages(actions);
      }
    }
  }

  lemma {:induction false} MappedPages(flat: map<Path, Word>, actions: seq<MapAction>)
    requires WellFormed(actions)
    ensures Mapped(flat, actions).Keys == flat.Keys + Pages(actions)
    ensures Mapped(flat, actions) - Pages(actions) == flat - Pages(actions)
  {
    hide PageOf, PageWord, IsFrame, IsUserPage;
    if actions != [] {
      var n := |actions| - 1;
      MappedPages(flat, actions[..n]);
      var x, before := PageOf(actions[n].addr), Pages(actions[..n]);
      assert Pages(actions) == before + {x};
      assert Mapped(flat, actions) - Pages(actions) == (Mapped(flat, actions[..n]) - before) - {x};
      assert flat - Pages(actions) == (flat - before) - {x};
    }
  }

  /** One more page of the batch: a new one exactly when its address is. */
  lemma {:induction false} PagesStep(actions: seq<MapAction>, j: nat)
    requires WellFormed(actions) && j < |actions| && NoRepeat(actions[..j])
    ensures Pages(actions[..j + 1]) == Pages(actions[..j]) + {PageOf(actions[j].addr)}
    ensures NoRepeat(actions[..j + 1]) <==> PageOf(actions[j].addr) !in Pages(actions[..j])
  {
    forall i | 0 <= i < j
      ensures PageOf(actions[i].addr) == PageOf(actions[j].addr) <==> actions[i].addr == actions[j].addr
    {
      PageOfSpec(actions[i].addr, actions[j].addr);
    }
    hide PageOf, IsUserPage, IsFrame;
    assert forall i :: 0 <= i < j ==> actions[..j + 1][i] == actions[i] == actions[..j][i];
    assert actions[..j + 1][j] == actions[j];
  }

  lemma {:induction false} NoPages(actions: seq<MapAction>)
    ensures Pages(actions[..0]) == {} && NoRepeat(actions[..0])
  {
  }

  lemma {:induction false} InPages(actions: seq<MapAction>, j: nat, n: nat)
    requires j < n <= |actions|
    ensures PageOf(actions[j].addr) in Pages(actions[..n])
  {
    assert actions[..n][j] == actions[j];
  }

  lemma {:induction false} RepeatGrows(actions: seq<MapAction>, i: nat, j: nat)
    requires i <= j <= |actions| && !NoRepeat(actions[..i])
    ensures !NoRepeat(actions[..j])
  {
    var a, b := actions[..i], actions[..j];
    var k, l :| 0 <= k < l < |a| && a[k].addr == a[l].addr;
    assert b[k] == a[k] && b[l] == a[l];
  }

  lemma {:induction false} PrefixFine(flat: map<Path, Word>, actions: seq<MapAction>, n: nat)
    requires n <= |actions|
    ensures NoRepeat(actions) ==> NoRepeat(actions[..n])
    ensures AllUnmapped(flat, actions) ==> AllUnmapped(flat, actions[..n])
  {
    hide PageOf;
  }

  class VirtAddrSpace {
    const cr3: nat
    /** The entry for the kernel's shared tables, number 511 of every root. */
    const kernel: Word
    /** The frames that hold this space's tables: their 512 words, by physical address. */
    var mem: Memory
    /** The frames the page allocator could still hand out. */
    var pool: set<nat>
    /** Where each table hangs. */
    ghost var at: Shape
    /** The mapping this space stands for. */
    ghost var flat: map<Path, Word>
    /** What the page allocator will answer, from now on, while it has frames: a refusal where it says
        `false`, and a frame where it says `true` and at its end. */
    var answers: seq<bool>
    /** How many times the page allocator refused a frame. */
    ghost var refused: nat

    /** The frames taken and not returned are exactly the tables in the tree, each at one position;
        every hidden count is right; and the tree maps exactly what `flat` says. */
    ghost predicate Valid()
      reads this
    {
      Good(cr3, kernel, mem, at, pool, {}, flat)
    }

    /** A space with an empty user half: a zeroed root holding only the shared kernel entry. */
    constructor (frame: nat, kernel: Word, pool: set<nat>, answers: seq<bool>)
      requires IsFrame(frame) && frame !in pool && forall f :: f in pool ==> IsFrame(f)
      requires Present(kernel) && NoCount(kernel) == kernel
      ensures Valid() && flat == map[] && this.pool == pool && mem.Keys == {frame} && cr3 == frame && Tight(mem, at)
      ensures this.answers == answers && this.kernel == kernel && refused == 0
    {
      var root := AddEntry(ZeroTable(), KERNEL_ENTRY, kernel);
      this.cr3, this.kernel, this.pool, this.answers := frame, kernel, pool, answers;
      mem := map[frame := root];
      at := map[Root := frame];
      flat := map[];
      refused := 0;
      ZeroTableSpec();
      AddEntrySpec(ZeroTable(), KERNEL_ENTRY, kernel);
      assert Entry(root, KERNEL_ENTRY) == Some(kernel);
    }

    /** The processor's walk of a valid space is a lookup in the flat mapping. */
    lemma TranslationIsFlat(q: Path)
      requires Valid() && IsPage(q)
      ensures |Indices(q)| == 4 && forall k :: 0 <= k < 4 ==> Indices(q)[k] < ENTRIES
      ensures Walk(mem, cr3, Indices(q)) == Lookup(flat, q)
    {
      WalkFindsLeaf(cr3, kernel, mem, at, q);
    }

    /** What the processor makes of a virtual address while this space is loaded. */
    ghost function Translation(addr: nat): Option<Access>
      reads this
    {
      Translate(mem, cr3, AddressBits(addr))
    }

    /** The page allocator has this many frames and will refuse none of them. */
    ghost predicate Willing(n: nat)
      reads this
    {
      answers == [] && |pool| >= n
    }

    /** Takes a frame from the page allocator, which may refuse at any time. */
    method AllocFrame() returns (r: Option<nat>)
      modifies this`pool, this`refused, this`answers
      ensures r.Some? ==> r.value in old(pool) && pool == old(pool) - {r.value} && refused == old(refused)
      ensures r.None? ==> pool == old(pool) && refused == old(refused) + 1
      ensures r.None? <==> old(pool) == {} || (old(answers) != [] && !old(answers)[0])
      ensures answers == if old(pool) == {} || old(answers) == [] then old(answers) else old(answers)[1..]
    {
      if pool == {} {
        refused := refused + 1;
        return None;
      }
      if answers != [] {
        var granted := answers[0];
        answers := answers[1..];
        if !granted {
          refused := refused + 1;
          return None;
        }
      }
      var f :| f in pool;
      pool := pool - {f};
      return Some(f);
    }

    /** `PageTable::get_or_alloc`: the table below slot `i` of the table at `p`, made if missing. */
    method GetOrAlloc(ghost p: Path, f: nat, i: nat) returns (r: Option<nat>)
      requires Valid() && p in at && at[p] == f && p.Depth() < 3 && Step(p, i).InUser()
      modifies this`pool, this`mem, this`at, this`refused, this`answers
      ensures Valid()
      ensures pool + mem.Keys == old(pool + mem.Keys)
      ensures r.Some? ==> Step(p, i) in at && at[Step(p, i)] == r.value
      ensures r.None? ==> mem == old(mem) && pool == old(pool)
      ensures refused == old(refused) + if r.None? then 1 else 0
      ensures r.None? ==> Step(p, i) !in at && at == old(at)
      ensures old(pool) == {} ==> pool == {} && at == old(at)
      ensures old(at).Keys <= at.Keys
      ensures old(answers) == [] && old(pool) != {} ==> r.Some?
      ensures old(answers) == [] ==> answers == [] && |pool| + 1 >= |old(pool)|
      ensures r.Some? && old(EmptyOnlyAt(mem, at, p)) ==> EmptyOnlyAt(mem, at, Step(p, i))
    {
      hide Good, EmptyOnlyAt, Tight;
      SlotGood(cr3, kernel, mem, at, pool, flat, p, i);
      if Present(mem[f][i]) {
        if EmptyOnlyAt(mem, at, p) {
          ParentTight(cr3, kernel, mem, at, pool, flat, p, i);
          TightEnough(mem, at, Step(p, i));
        }
        return Some(Address(mem[f][i]));
      }
      var frame := AllocFrame();
      if frame.None? {
        return None;
      }
      var g := frame.value;
      GrowGood(cr3, kernel, mem, at, old(pool), flat, p, i, g);
      if EmptyOnlyAt(mem, at, p) { GrowTight(cr3, kernel, mem, at, old(pool), flat, p, i, g); }
      mem := Grown(mem, f, i, g);
      at := at[Step(p, i) := g];
      return Some(g);
    }

    /** The loop of `map_page_inner` over the upper levels: the leaf table of a page, made together
        with every table missing on the way. */
    method Descend(addr: nat) returns (r: Option<nat>)
      requires Valid() && IsUserPage(addr)
      modifies this`pool, this`mem, this`at, this`refused, this`answers
      ensures Valid()
      ensures pool + mem.Keys == old(pool + mem.Keys)
      ensures r.Some? ==> IsPage(PageOf(addr)) && PageOf(addr).up in at && at[PageOf(addr).up] == r.value
      ensures refused == old(refused) + if r.None? then 1 else 0
      ensures r.None? ==> IsPage(PageOf(addr)) && PageOf(addr).up !in old(at)
      ensures old(pool) == {} ==> pool == {} && at == old(at)
      ensures old(Willing(3)) ==> r.Some?
      ensures r.Some? && old(Tight(mem, at)) ==> EmptyOnlyAt(mem, at, PageOf(addr).up)
    {
      hide Good, PageOf, IsPage, IsUserPage, IndicesOf, Waypoint, Tight, EmptyOnlyAt;
      WayToPage(addr);
      var idx := IndicesOf(addr);
      ghost var q := PageOf(addr);
      RootGood(cr3, kernel, mem, at, pool, flat);
      TightEnough(mem, at, Waypoint(q, 0));
      var f, level := cr3, 0;
      while level < 3
        invariant 0 <= level <= 3
        invariant Valid()
        invariant pool + mem.Keys == old(pool + mem.Keys)
        invariant Waypoint(q, level) in at && at[Waypoint(q, level)] == f
        invariant refused == old(refused) && (old(Tight(mem, at)) ==> EmptyOnlyAt(mem, at, Waypoint(q, level)))
        invariant old(at).Keys <= at.Keys && (old(pool) == {} ==> pool == {} && at == old(at))
        invariant old(Willing(3)) ==> Willing(3 - level)
      {
        WayStep(addr, level);
        var next := GetOrAlloc(Waypoint(q, level), f, idx[level]);
        if next.None? {
          MissingBelow(cr3, kernel, mem, at, pool, flat, addr, level + 1);
          return None;
        }
        f := next.value;
        level := level + 1;
      }
      WayStep(addr, 3);
      return Some(f);
    }

    /** Maps the page at `addr` to the frame at `phys`, making the tables on the way. */
    method MapPage(addr: nat, phys: nat, options: PageOptions) returns (r: Outcome)
      requires Valid() && IsUserPage(addr) && IsFrame(phys)
      modifies this`pool, this`mem, this`at, this`flat, this`refused, this`answers
      ensures Valid()
      ensures pool + mem.Keys == old(pool + mem.Keys)
      ensures refused == old(refused) + if r == OutOfMem then 1 else 0
      ensures r == Done && old(Tight(mem, at)) ==> Tight(mem, at)
      ensures r == InvalidArgs <==> !options.read && !options.write && !options.exec
      ensures r == OutOfMem ==> !HasLeafTable(old(at), addr)
      ensures r == Done ==> HasLeafTable(at, addr)
      ensures old(Willing(3)) && options.Exists() ==> r == Done
      ensures old(pool) == {} ==> pool == {} && at == old(at)
      ensures r != Panics
      ensures r == InvalidArgs ==> mem == old(mem) && pool == old(pool)
      ensures flat == if r == Done then old(flat)[PageOf(addr) := PageWord(phys, options)] else old(flat)
      ensures r == Done ==>
                Translation(addr) ==
                Some(Access(phys, options.write, options.user, options.exec, options.cache in {WriteThrough, Uncached},
                            options.cache in {WriteCombining, Uncached}, false))
      ensures forall b :: IsUserPage(b) && (b != addr || r != Done) ==> Translation(b) == old(Translation(b))
    {
      hide Good, IsPage, IsUserPage, PageWord, Tight, EmptyOnlyAt, PageOf, Translate, AddressBits, IndexOf;
      PageIndex(addr);
      if !options.Exists() {
        return InvalidArgs;
      }
      var leaf := Descend(addr);
      if leaf.None? {
        OthersKept(old(mem), old(at), old(pool), old(flat), addr);
        return OutOfMem;
      }
      PageWordSpec(phys, options);
      MapGood(cr3, kernel, mem, at, pool, flat, PageOf(addr), PageWord(phys, options));
      if old(Tight(mem, at)) { MapTight(cr3, kernel, mem, at, pool, flat, PageOf(addr), PageWord(phys, options)); }
      mem := Written(mem, leaf.value, IndexOf(addr, 0), PageWord(phys, options));
      flat := flat[PageOf(addr) := PageWord(phys, options)];
      PageWordAccess(phys, options);
      TranslateGood(cr3, kernel, mem, at, pool, flat, addr);
      OthersKept(old(mem), old(at), old(pool), old(flat), addr);
      return Done;
    }

    /** If the flat mapping changed at one page at most, so did the processor's translation. */
    lemma {:induction false} OthersKept(mem0: Memory, at0: Shape, pool0: set<nat>, flat0: map<Path, Word>, addr: nat)
      requires Good(cr3, kernel, mem0, at0, pool0, {}, flat0) && Valid() && IsUserPage(addr)
      requires forall q :: q != PageOf(addr) ==> Lookup(flat, q) == Lookup(flat0, q)
      ensures forall b :: IsUserPage(b) && (b != addr || flat == flat0) ==>
                Translation(b) == Translate(mem0, cr3, AddressBits(b))
    {
      hide Good, PageOf, IsUserPage, Translate, AddressBits, Seen;
      forall b | IsUserPage(b) && (b != addr || flat == flat0)
        ensures Translation(b) == Translate(mem0, cr3, AddressBits(b))
      {
        PageOfSpec(addr, b);
        TranslateGood(cr3, kernel, mem0, at0, pool0, flat0, b);
        TranslateGood(cr3, kernel, mem, at, pool, flat, b);
      }
    }

    /** The first loop of `unmap_page`: the tables on the way to a page, `None` from the first missing
        one on; the empty sequence when the walk stops before the leaf level. */
    method FindTables(addr: nat) returns (tabs: seq<Option<nat>>)
      requires Valid() && IsUserPage(addr)
      ensures IsPage(PageOf(addr))
      ensures tabs == [] ==> PageOf(addr).up !in at
      ensures tabs != [] ==> |tabs| == 4 && tabs[0].Some? && tabs[1].Some? && tabs[2].Some?
      ensures tabs != [] ==> forall j {:trigger tabs[j]} :: 0 <= j < 4 ==>
                tabs[j] == TableAt(at, PageOf(addr), j)
    {
      hide Good, PageOf, IsPage, IsUserPage, IndicesOf, Waypoint;
      WayToPage(addr);
      ghost var q := PageOf(addr);
      RootGood(cr3, kernel, mem, at, pool, flat);
      var idx := IndicesOf(addr);
      tabs := [Some(cr3)];
      while |tabs| < 4
        invariant 1 <= |tabs| <= 4
        invariant forall j {:trigger tabs[j]} :: 0 <= j < |tabs| ==> tabs[j] == TableAt(at, q, j)
        invariant forall j :: 0 <= j < |tabs| - 1 ==> tabs[j].Some?
      {
        var a := |tabs|;
        if tabs[a - 1].None? {
          MissingBelow(cr3, kernel, mem, at, pool, flat, addr, a - 1);
          return [];
        }
        var f := tabs[a - 1].value;
        WayStep(addr, a - 1);
        SlotGood(cr3, kernel, mem, at, pool, flat, Waypoint(q, a - 1), idx[a - 1]);
        tabs := tabs + [if Present(mem[f][idx[a - 1]]) then Some(Address(mem[f][idx[a - 1]])) else None];
      }
    }

    /** The second loop of `unmap_page`: clears the page's entry, then, while the table just changed
        became empty, its entry one level up. Returns the frame the page mapped to and the first level
        whose table was cut off. */
    method Unhook(addr: nat, tabs: seq<Option<nat>>) returns (out: Option<nat>, first: nat, ghost loose: set<nat>)
      requires Valid() && IsUserPage(addr) && IsPage(PageOf(addr))
      requires |tabs| == 4 && tabs[0].Some? && tabs[1].Some? && tabs[2].Some?
      requires forall j {:trigger tabs[j]} :: 0 <= j < 4 ==> tabs[j] == TableAt(at, PageOf(addr), j)
      requires PageOf(addr) in flat || PageOf(addr).up !in at
      modifies this`mem, this`at, this`flat
      ensures Good(cr3, kernel, mem, at, pool, loose, flat)
      ensures mem.Keys == old(mem.Keys) && flat == old(flat) - {PageOf(addr)}
      ensures out == if PageOf(addr) in old(flat) then Some(Address(old(flat)[PageOf(addr)])) else None
      ensures 1 <= first <= 4 && loose == Cut(tabs, first)
      ensures old(Tight(mem, at)) ==> Tight(mem, at)
    {
      hide Good, PageOf, IsPage, IsUserPage, Cut, Unhooking, Tight, EmptyOnlyAt, Waypoint;
      out := ClearPage(addr, tabs);
      var i: int := 3;
      first, loose := 4, {};
      // After an iteration at level `i`: go on upwards only if that table is missing or became empty.
      while i > 0 && (tabs[i].None? || EntryCount(mem[tabs[i].value]) == 0)
        invariant 0 <= i <= 3 && Unhooking(addr, tabs, i, first, loose)
        invariant mem.Keys == old(mem.Keys) && flat == old(flat) - {PageOf(addr)}
        invariant tabs[i].Some? ==> tabs[i].value in mem
        invariant 1 <= first <= 4 && loose == Cut(tabs, first) && Good(cr3, kernel, mem, at, pool, loose, flat)
        invariant tabs[i] == TableAt(at, PageOf(addr), i)
        invariant old(Tight(mem, at)) ==> EmptyOnlyAt(mem, at, Waypoint(PageOf(addr), i))
      {
        if tabs[i].Some? {
          first, loose := CutTable(addr, tabs, i, first, loose);
        } else {
          first, loose := SkipTable(addr, tabs, i, first, loose);
        }
        i := i - 1;
      }
      WayStep(addr, i);
      TightEnough(mem, at, Waypoint(PageOf(addr), i));
    }

    /** The first iteration: the page's own entry, if its table exists. */
    method ClearPage(addr: nat, tabs: seq<Option<nat>>) returns (out: Option<nat>)
      requires Valid() && IsUserPage(addr) && IsPage(PageOf(addr))
      requires |tabs| == 4 && tabs[0].Some? && tabs[1].Some? && tabs[2].Some?
      requires forall j {:trigger tabs[j]} :: 0 <= j < 4 ==> tabs[j] == TableAt(at, PageOf(addr), j)
      requires PageOf(addr) in flat || PageOf(addr).up !in at
      modifies this`mem, this`flat
      ensures Unhooking(addr, tabs, 3, 4, {}) && Good(cr3, kernel, mem, at, pool, {}, flat) && Cut(tabs, 4) == {}
      ensures mem.Keys == old(mem.Keys) && flat == old(flat) - {PageOf(addr)}
      ensures tabs[3].Some? ==> tabs[3].value in mem
      ensures out == if PageOf(addr) in old(flat) then Some(Address(old(flat)[PageOf(addr)])) else None
      ensures tabs[3] == TableAt(at, PageOf(addr), 3)
      ensures old(Tight(mem, at)) ==> EmptyOnlyAt(mem, at, Waypoint(PageOf(addr), 3))
    {
      hide Good, PageOf, IsPage, IsUserPage, IndicesOf, Waypoint, Cut, RemoveEntry, Address, Tight, EmptyOnlyAt;
      CutNone(tabs);
      ghost var q := PageOf(addr);
      var idx := IndicesOf(addr);
      TablesPresent(addr, tabs);
      PageGood(cr3, kernel, mem, at, pool, flat, q);
      WayStep(addr, 3);
      TightEnough(mem, at, Waypoint(q, 3));
      if tabs[3].Some? {
        out := Some(Address(mem[tabs[3].value][idx[3]]));
        if Tight(mem, at) { UnmapTight(cr3, kernel, mem, at, pool, flat, q); }
        UnmapGood(cr3, kernel, mem, at, pool, flat, q);
        mem := Cleared(mem, tabs[3].value, idx[3]);
      } else {
        out := None;
        assert flat - {q} == flat;
      }
      flat := flat - {q};
    }

    lemma {:induction false} TablesPresent(addr: nat, tabs: seq<Option<nat>>)
      requires Valid() && IsPage(PageOf(addr)) && |tabs| == 4
      requires forall j {:trigger tabs[j]} :: 0 <= j < 4 ==> tabs[j] == TableAt(at, PageOf(addr), j)
      ensures forall j {:trigger tabs[j]} :: 0 <= j < 4 && tabs[j].Some? ==> tabs[j].value in mem
    {
      hide Good, PageOf, IsPage, Waypoint;
      RootGood(cr3, kernel, mem, at, pool, flat);
    }

    /** The invariant of that loop: the tables of levels up to `i` are still in place, the cut ones are
        loose. */
    ghost predicate Unhooking(addr: nat, tabs: seq<Option<nat>>, i: int, first: nat, loose: set<nat>)
      requires IsPage(PageOf(addr)) && |tabs| == 4 && 0 <= i <= 3
      reads this
    {
      && tabs[0].Some? && tabs[1].Some? && tabs[2].Some?
      && Good(cr3, kernel, mem, at, pool, loose, flat)
      && (forall j {:trigger tabs[j]} :: 0 <= j <= i ==> tabs[j] == TableAt(at, PageOf(addr), j))
      && (forall j {:trigger tabs[j]} :: 0 <= j <= 3 && tabs[j].Some? ==> tabs[j].value in mem)
      && loose == Cut(tabs, first) && (first == 4 ==> loose == {})
      && (first == i + 1 || (first == 4 && i == 2 && tabs[3].None?))
    }

    /** An empty table is cut off from the one above it. */
    method CutTable(addr: nat, tabs: seq<Option<nat>>, i: int, ghost first: nat, ghost loose: set<nat>)
      returns (first': nat, ghost loose': set<nat>)
      requires IsUserPage(addr) && IsPage(PageOf(addr)) && |tabs| == 4 && 0 < i <= 3
      requires Unhooking(addr, tabs, i, first, loose)
      requires tabs[i].Some? && tabs[i].value in mem && EntryCount(mem[tabs[i].value]) == 0
      modifies this`mem, this`at
      ensures Unhooking(addr, tabs, i - 1, first', loose') && mem.Keys == old(mem.Keys)
      ensures 1 <= first' <= 4 && loose' == Cut(tabs, first') && (tabs[i - 1].Some? ==> tabs[i - 1].value in mem)
      ensures Good(cr3, kernel, mem, at, pool, loose', flat) && tabs[i - 1] == TableAt(at, PageOf(addr), i - 1)
      ensures old(EmptyOnlyAt(mem, at, Waypoint(PageOf(addr), i))) ==>
                EmptyOnlyAt(mem, at, Waypoint(PageOf(addr), i - 1))
    {
      hide Good, PageOf, IsPage, IsUserPage, IndicesOf, Waypoint, Cut, RemoveEntry, Tight, EmptyOnlyAt;
      ghost var n := Waypoint(PageOf(addr), i);
      var idx := IndicesOf(addr);
      WayStep(addr, i - 1);
      ShrinkGood(cr3, kernel, mem, at, pool, loose, flat, n);
      if EmptyOnlyAt(mem, at, n) { ShrinkTight(cr3, kernel, mem, at, pool, loose, flat, n); }
      StillThere(addr, at, tabs, i);
      CutStep(tabs, first, i);
      mem := Cleared(mem, tabs[i - 1].value, idx[i - 1]);
      at := at - {n};
      first', loose' := i, loose + {tabs[i].value};
    }

    /** A missing table leaves nothing to clear above it. */
    method SkipTable(addr: nat, tabs: seq<Option<nat>>, i: int, ghost first: nat, ghost loose: set<nat>)
      returns (first': nat, ghost loose': set<nat>)
      requires IsUserPage(addr) && IsPage(PageOf(addr)) && |tabs| == 4 && 0 < i <= 3
      requires Unhooking(addr, tabs, i, first, loose)
      requires tabs[i].None?
      modifies this`mem
      ensures Unhooking(addr, tabs, i - 1, first', loose') && mem.Keys == old(mem.Keys)
      ensures 1 <= first' <= 4 && loose' == Cut(tabs, first') && (tabs[i - 1].Some? ==> tabs[i - 1].value in mem)
      ensures Good(cr3, kernel, mem, at, pool, loose', flat) && tabs[i - 1] == TableAt(at, PageOf(addr), i - 1)
      ensures old(EmptyOnlyAt(mem, at, Waypoint(PageOf(addr), i))) ==>
                EmptyOnlyAt(mem, at, Waypoint(PageOf(addr), i - 1))
    {
      hide Good, PageOf, IsPage, IsUserPage, IndicesOf, Waypoint, Cut, RemoveEntry, Tight, EmptyOnlyAt;
      var idx := IndicesOf(addr);
      WayStep(addr, i - 1);
      TightEnough(mem, at, Waypoint(PageOf(addr), i));
      TightEnough(mem, at, Waypoint(PageOf(addr), i - 1));
      AbsentGood(cr3, kernel, mem, at, pool, flat, Waypoint(PageOf(addr), i - 1), idx[i - 1]);
      mem := Cleared(mem, tabs[i - 1].value, idx[i - 1]);
      first', loose' := 4, {};
    }

    /** The third loop of `unmap_page`: returns the cut tables to the page allocator. */
    method FreeCut(tabs: seq<Option<nat>>, first: nat, ghost loose: set<nat>)
      requires |tabs| == 4 && 1 <= first <= 4 && loose == Cut(tabs, first)
      requires tabs[0].Some? && tabs[1].Some? && tabs[2].Some?
      requires forall j, k :: 0 <= j < k < 4 && tabs[j].Some? && tabs[k].Some? ==> tabs[j] != tabs[k]
      requires Good(cr3, kernel, mem, at, pool, loose, flat)
      modifies this`mem, this`pool
      ensures Valid() && pool + mem.Keys == old(pool + mem.Keys)
      ensures old(Tight(mem, at)) ==> Tight(mem, at)
    {
      hide Good, EntryCount;
      var i := first;
      while i < 4
        invariant first <= i <= 4
        invariant Good(cr3, kernel, mem, at, pool, Cut(tabs, i), flat)
        invariant pool + mem.Keys == old(pool + mem.Keys) && (old(Tight(mem, at)) ==> Tight(mem, at))
      {
        CutFirst(tabs, i);
        if tabs[i].None? {
          break;
        }
        var f := tabs[i].value;
        FreeGood(cr3, kernel, mem, at, pool, Cut(tabs, i), flat, f);
        assert Cut(tabs, i) - {f} == Cut(tabs, i + 1);
        mem, pool := mem - {f}, pool + {f};
        i := i + 1;
      }
      assert Cut(tabs, 4) == {};
    }

    /** Unmaps the page at `addr`, returning the frame it mapped to, and returns every table that became
        empty. A page that is not mapped is reported as such only if its leaf table is missing: otherwise
        the null entry read there is no physical address. */
    method UnmapPage(addr: nat) returns (r: Unmapping)
      requires Valid() && IsUserPage(addr)
      modifies this`pool, this`mem, this`at, this`flat
      ensures Valid() && IsPage(PageOf(addr))
      ensures pool + mem.Keys == old(pool + mem.Keys)
      ensures old(Tight(mem, at)) ==> Tight(mem, at)
      ensures flat == old(flat) - {PageOf(addr)}
      ensures r.Unmapped? <==> PageOf(addr) in old(flat)
      ensures r.Unmapped? ==> r.frame == Address(old(flat)[PageOf(addr)])
      ensures r.NotMapped? <==> !HasLeafTable(old(at), addr)
      ensures r.Fault? ==> mem == old(mem) && pool == old(pool) && at == old(at) && flat == old(flat)
      ensures r.Unmapped? <==> old(Translation(addr)).Some?
      ensures r.Unmapped? ==> r.frame == old(Translation(addr)).value.frame
      ensures Translation(addr).None?
      ensures forall b :: IsUserPage(b) && b != addr ==> Translation(b) == old(Translation(b))
    {
      hide Good, PageOf, IsUserPage, Cut, Tight, Translate, AddressBits, Address, FrameOf;
      TranslateGood(cr3, kernel, mem, at, pool, flat, addr);
      if PageOf(addr) in flat { CountIgnored(flat[PageOf(addr)]); }
      var tabs := FindTables(addr);
      PageGood(cr3, kernel, mem, at, pool, flat, PageOf(addr));
      if tabs == [] {
        assert flat - {PageOf(addr)} == flat;
        return NotMapped;
      }
      LeafSlot(addr, tabs);
      if tabs[3].Some? && !Present(mem[tabs[3].value][IndicesOf(addr)[3]]) {
        assert flat - {PageOf(addr)} == flat;
        return Fault;
      }
      DistinctTables(addr, tabs);
      var first: nat;
      ghost var loose: set<nat>;
      var out: Option<nat>;
      out, first, loose := Unhook(addr, tabs);
      FreeCut(tabs, first, loose);
      r := if out.Some? then Unmapped(out.value) else NotMapped;
      TranslateGood(cr3, kernel, mem, at, pool, flat, addr);
      OthersKept(old(mem), old(at), old(pool), old(flat), addr);
    }

    lemma {:induction false} LeafSlot(addr: nat, tabs: seq<Option<nat>>)
      requires Valid() && IsUserPage(addr) && IsPage(PageOf(addr)) && |tabs| == 4
      requires forall j {:trigger tabs[j]} :: 0 <= j < 4 ==> tabs[j] == TableAt(at, PageOf(addr), j)
      ensures tabs[3].Some? <==> PageOf(addr).up in at
      ensures tabs[3].Some? ==> tabs[3].value == at[PageOf(addr).up] && IndicesOf(addr)[3] == PageOf(addr).index
    {
      hide Good, IsPage, IsUserPage;
      assert Waypoint(PageOf(addr), 3) == PageOf(addr).up;
    }

    /** While no table is empty, a leaf table exists exactly if one of its 512 pages is mapped. */
    lemma {:induction false} LeafTableShared(addr: nat)
      requires Valid() && Tight(mem, at) && IsUserPage(addr)
      ensures IsPage(PageOf(addr)) && (HasLeafTable(at, addr) <==> exists q :: q in flat && q.up == PageOf(addr).up)
    {
      PageOfSpec(addr, addr);
      var p := PageOf(addr).up;
      FourSteps(PageOf(addr));
      hide Tight, PageOf, IsUserPage;
      if p in at {
        var q := EveryTableNeeded(cr3, kernel, mem, at, pool, flat, p);
        FourSteps(q);
        AboveDepth(p, q.up);
      } else {
        forall q | q in flat ensures q.up != p { PageGood(cr3, kernel, mem, at, pool, flat, q); }
      }
    }

    /** Maps a batch of pages; if one fails, unmaps those mapped before it, of which there are `failed`.
        That is refused by a page which comes twice among them, and restores the translation from before
        exactly when none of them was mapped then. */
    method MapMany(actions: seq<MapAction>) returns (r: Outcome, ghost failed: nat)
      requires Valid() && WellFormed(actions)
      modifies this`pool, this`mem, this`at, this`flat, this`refused, this`answers
      ensures Valid() && pool + mem.Keys == old(pool + mem.Keys)
      ensures r == OutOfMem ==> refused == old(refused) + 1
      ensures r == Done || r == InvalidArgs ==> refused == old(refused)
      ensures r == Done && old(Tight(mem, at)) ==> Tight(mem, at)
      ensures failed <= |actions| && (r == Done <==> failed == |actions|)
      ensures r == Done ==> flat == Mapped(old(flat), actions)
      ensures r == Panics <==> failed < |actions| && !NoRepeat(actions[..failed])
      ensures r == OutOfMem || r == InvalidArgs ==>
                && flat == old(flat) - Pages(actions[..failed])
                && (flat == old(flat) <==> AllUnmapped(old(flat), actions[..failed]))
      ensures r != Done && NoRepeat(actions) && AllUnmapped(old(flat), actions) ==> flat == old(flat)
      ensures r == InvalidArgs ==> !actions[failed].options.Exists()
      ensures r == OutOfMem ==> actions[failed].options.Exists()
      ensures forall i :: 0 <= i < failed ==> actions[i].options.Exists()
      ensures r == OutOfMem && old(pool) == {} ==> !HasLeafTable(old(at), actions[failed].addr)
      ensures old(pool) == {} ==> forall i :: 0 <= i < failed ==> HasLeafTable(old(at), actions[i].addr)
    {
      hide Good, PageOf, IsUserPage, PageWord, IsFrame, Tight, NoRepeat, AllUnmapped;
      var i := 0;
      while i < |actions|
        invariant 0 <= i <= |actions|
        invariant Valid() && pool + mem.Keys == old(pool + mem.Keys)
        invariant flat == Mapped(old(flat), actions[..i])
        invariant refused == old(refused) && (old(Tight(mem, at)) ==> Tight(mem, at))
        invariant forall j :: 0 <= j < i ==> actions[j].options.Exists()
        invariant old(pool) == {} ==> pool == {} && at == old(at)
        invariant old(pool) == {} ==> forall j :: 0 <= j < i ==> HasLeafTable(old(at), actions[j].addr)
      {
        var a := actions[i];
        r := MapPage(a.addr, a.phys, a.options);
        if r != Done {
          failed := i;
          var ok := Rollback(actions, i, old(flat));
          if !ok { r := Panics; }
          RollbackRestores(old(flat), actions[..i]);
          PrefixFine(old(flat), actions, i);
          return;
        }
        assert actions[..i + 1][..i] == actions[..i];
        i := i + 1;
      }
      assert actions[..i] == actions;
      r, failed := Done, i;
    }

    /** The rollback loop of `map_many`: unmaps the first `n` pages of the batch, each of which must be
        mapped when its turn comes. */
    method Rollback(actions: seq<MapAction>, n: nat, ghost before: map<Path, Word>) returns (ok: bool)
      requires Valid() && WellFormed(actions) && n <= |actions|
      requires flat == Mapped(before, actions[..n])
      modifies this`pool, this`mem, this`at, this`flat
      ensures Valid() && pool + mem.Keys == old(pool + mem.Keys)
      ensures ok <==> NoRepeat(actions[..n])
      ensures ok ==> flat == before - Pages(actions[..n])
    {
      hide Good, PageOf, IsUserPage, IsFrame, Mapped, NoRepeat, Pages;
      MappedPages(before, actions[..n]);
      NoPages(actions);
      var j := 0;
      while j < n
        invariant 0 <= j <= n && NoRepeat(actions[..j])
        invariant Valid() && pool + mem.Keys == old(pool + mem.Keys)
        invariant flat == old(flat) - Pages(actions[..j])
      {
        PagesStep(actions, j);
        InPages(actions, j, n);
        var u := UnmapPage(actions[j].addr);
        if !u.Unmapped? {
          RepeatGrows(actions, j + 1, n);
          return false;
        }
        j := j + 1;
      }
      ok := true;
    }

    /** Returns a frame to the page allocator; it must be one taken and not yet returned. */
    method FreeFrame(f: nat)
      requires f in mem && f !in pool
      modifies this`mem, this`pool
      ensures mem == old(mem) - {f} && pool == old(pool) + {f}
    {
      mem, pool := mem - {f}, pool + {f};
    }

    /** `PageTable::dealloc_recurse`: frees the tables below the one at `p`, then that one. The shared
        kernel entry of the root is passed over. */
    method DeallocRecurse(ghost p: Path, f: nat, level: nat)
      requires Intact(mem, at, pool, p) && p in at && at[p] == f && p.Depth() + level == 3
      modifies this`mem, this`at, this`pool
      ensures at == old(at) - Subtree(old(at), p)
      ensures mem == old(mem) - Frames(old(at), Subtree(old(at), p))
      ensures pool == old(pool) + Frames(old(at), Subtree(old(at), p))
      decreases level, 1
    {
      hide Intact, Torn, Subtree, Frames, Above;
      if level > 0 {
        DeallocChildren(p, f, level);
      } else {
        TornLeaf(mem, at, pool, p);
      }
      LastFrame(old(mem), old(at), old(pool), p);
      FreeFrame(f);
      at := at - {p};
    }

    /** The loop of `dealloc_recurse` over the entries of the table at `p`. */
    method DeallocChildren(ghost p: Path, f: nat, level: nat)
      requires Intact(mem, at, pool, p) && p in at && at[p] == f && p.Depth() + level == 3 && level > 0
      modifies this`mem, this`at, this`pool
      ensures at == old(at) - Torn(old(at), p, ENTRIES)
      ensures mem == old(mem) - Frames(old(at), Torn(old(at), p, ENTRIES))
      ensures pool == old(pool) + Frames(old(at), Torn(old(at), p, ENTRIES))
      decreases level, 0
    {
      hide Intact, Above;
      var i := 0;
      TornNone(mem, at, pool, p);
      while i < ENTRIES
        invariant 0 <= i <= ENTRIES
        invariant at == old(at) - Torn(old(at), p, i)
        invariant mem == old(mem) - Frames(old(at), Torn(old(at), p, i))
        invariant pool == old(pool) + Frames(old(at), Torn(old(at), p, i))
      {
        hide Torn, Frames;
        TornSlot(old(mem), old(at), old(pool), p, i);
        var w := mem[f][i];
        ghost var n := Step(p, i);
        if Huge(w) || (level == 3 && i == KERNEL_ENTRY) {
          TornNothing(old(mem), old(at), old(pool), p, i);
        } else if Present(w) {
          StillIntact(old(mem), old(at), old(pool), p, i);
          TornStep(old(at), p, i);
          TearMore(old(mem), old(at), old(pool), Torn(old(at), p, i), Subtree(at, n));
          DeallocRecurse(n, Address(w), level - 1);
        } else {
          TornNothing(old(mem), old(at), old(pool), p, i);
        }
        i := i + 1;
      }
    }

    /** Returns every table of the space to the page allocator. */
    method DeallocAddrSpace()
      requires Valid()
      modifies this`mem, this`at, this`pool
      ensures mem == map[] && at == map[]
      ensures pool == old(pool) + old(mem.Keys)
    {
      WholeTree(cr3, kernel, mem, at, pool, flat);
      DeallocRecurse(Root, cr3, 3);
    }

    lemma {:induction false} DistinctTables(addr: nat, tabs: seq<Option<nat>>)
      requires Valid() && IsUserPage(addr) && IsPage(PageOf(addr)) && |tabs| == 4
      requires forall j {:trigger tabs[j]} :: 0 <= j < 4 ==> tabs[j] == TableAt(at, PageOf(addr), j)
      ensures forall j, k :: 0 <= j < k < 4 && tabs[j].Some? && tabs[k].Some? ==> tabs[j] != tabs[k]
    {
      forall j, k | 0 <= j < k < 4 && tabs[j].Some? && tabs[k].Some? ensures tabs[j] != tabs[k] {
        WayStep(addr, j);
        WayStep(addr, k);
        assert Waypoint(PageOf(addr), j) in at && Waypoint(PageOf(addr), k) in at;
      }
    }
  }

  /** The third loop's specification: freeing the cut tables in order empties `loose`. */
  lemma {:induction false} CutFirst(tabs: seq<Option<nat>>, i: nat)
    requires |tabs| == 4 && i < 4
    ensures Cut(tabs, i) == if tabs[i].Some? then Cut(tabs, i + 1) + {tabs[i].value} else Cut(tabs, i + 1)
  {
  }

  lemma {:induction false} CutNone(tabs: seq<Option<nat>>)
    requires |tabs| == 4
    ensures Cut(tabs, 4) == {}
  {
  }

  lemma {:induction false} CutStep(tabs: seq<Option<nat>>, first: nat, i: nat)
    requires |tabs| == 4 && i <= 3 && tabs[i].Some?
    requires first == i + 1 || (first == 4 && i == 2 && tabs[3].None?)
    ensures Cut(tabs, i) == Cut(tabs, first) + {tabs[i].value}
  {
  }

  /** Cutting off the table at level `i` leaves the tables above it where they are. */
  lemma {:induction false} StillThere(addr: nat, at: Shape, tabs: seq<Option<nat>>, i: nat)
    requires IsUserPage(addr) && IsPage(PageOf(addr)) && i <= 3 && |tabs| == 4
    requires forall j {:trigger tabs[j]} :: 0 <= j <= i ==> tabs[j] == TableAt(at, PageOf(addr), j)
    ensures forall j {:trigger tabs[j]} :: 0 <= j < i ==>
              tabs[j] == TableAt(at - {Waypoint(PageOf(addr), i)}, PageOf(addr), j)
  {
    hide PageOf, IsPage, IsUserPage, Waypoint;
    WayStep(addr, i);
    forall j | 0 <= j < i
      ensures tabs[j] == TableAt(at - {Waypoint(PageOf(addr), i)}, PageOf(addr), j)
    {
      WayStep(addr, j);
    }
  }

  /** The tables from level `first` on. */
  ghost function Cut(tabs: seq<Option<nat>>, first: nat): set<nat>
    requires |tabs| == 4
  {
    set j | first <= j < 4 && tabs[j].Some? :: tabs[j].value
  }

  /** The frame of the table after `level` steps towards page `q`, if there is one. */
  ghost function TableAt(at: Shape, q: Path, level: nat): Option<nat>
    requires IsPage(q) && level <= 3
  {
    if Waypoint(q, level) in at then Some(at[Waypoint(q, level)]) else None
  }

  /** Below a missing table there is no leaf table. */
  lemma {:induction false} MissingBelow(cr3: nat, kernel: Word, mem: Memory, at: Shape, pool: set<nat>,
                                        flat: map<Path, Word>, addr: nat, level: nat)
    requires Good(cr3, kernel, mem, at, pool, {}, flat) && IsUserPage(addr) && IsPage(PageOf(addr))
    requires level <= 3 && Waypoint(PageOf(addr), level) !in at
    ensures PageOf(addr).up !in at
  {
    FourSteps(PageOf(addr));
  }

  /** The tables on the way to a mapped page take four frames. */
  lemma {:induction false} FourFrames(s: VirtAddrSpace, q: Path, all: set<nat>)
    requires s.Valid() && q in s.flat && s.pool + s.mem.Keys == all && |all| == 4
    ensures s.pool == {}
  {
    var taken := WayFrames(s.cr3, s.kernel, s.mem, s.at, s.pool, s.flat, q);
    hide Consistent, Refines, IsFrame;
    SameSize(taken, all);
  }

  lemma {:induction false} WayFrames(cr3: nat, kernel: Word, mem: Memory, at: Shape, pool: set<nat>,
                                     flat: map<Path, Word>, q: Path)
    returns (taken: set<nat>)
    requires Good(cr3, kernel, mem, at, pool, {}, flat) && q in flat
    ensures taken <= mem.Keys && |taken| == 4
  {
    ShapeGood(cr3, kernel, mem, at, pool, flat, q);
    PageGood(cr3, kernel, mem, at, pool, flat, q);
    RootGood(cr3, kernel, mem, at, pool, flat);
    hide Good, IsPage;
    WayTables(cr3, at, q);
    hide WellShaped;
    var p := q.up;
    FourOf(at, Root, p.up.up, p.up, p);
    taken := {at[Root], at[p.up.up], at[p.up], at[p]};
  }

  lemma {:induction false} WayTables(cr3: nat, at: Shape, q: Path)
    requires WellShaped(cr3, at) && IsPage(q) && q.up in at
    ensures q.Step? && q.up.Step? && q.up.up.Step? && q.up.up in at && q.up.up.up in at && Root in at
    ensures Root.Depth() == 0 && q.up.up.up.Depth() == 1 && q.up.up.Depth() == 2 && q.up.Depth() == 3
  {
    FourSteps(q);
    var p := q.up;
    hide IsPage;
    UpwardClosed(cr3, at, p.up, p);
    UpwardClosed(cr3, at, p.up.up, p.up);
    UpwardClosed(cr3, at, Root, p.up.up);
  }

  lemma {:induction false} ShapeGood(cr3: nat, kernel: Word, mem: Memory, at: Shape, pool: set<nat>,
                                     flat: map<Path, Word>, q: Path)
    requires Good(cr3, kernel, mem, at, pool, {}, flat) && q in flat
    ensures IsPage(q) && WellShaped(cr3, at) && forall p, r :: p in at && r in at && at[p] == at[r] ==> p == r
  {
  }

  lemma {:induction false} FourOf(at: Shape, a: Path, b: Path, c: Path, d: Path)
    requires a in at && b in at && c in at && d in at && a.Depth() < b.Depth() < c.Depth() < d.Depth()
    requires forall p, q :: p in at && q in at && at[p] == at[q] ==> p == q
    ensures |{at[a], at[b], at[c], at[d]}| == 4
  {
  }

  lemma {:induction false} SameSize(a: set<nat>, b: set<nat>)
    requires a <= b && |a| == |b|
    ensures a == b
  {
    assert |b - a| == 0;
    assert b == a + (b - a);
  }

  lemma {:induction false} NextPage()
    ensures IsUserPage(0) && IsUserPage(4096) && PageOf(0) != PageOf(4096) && PageOf(0).up == PageOf(4096).up
  {
    Digits(0);
    Digits(1);
    assert IndexOf(4096, 0) == 1 && IndexOf(0, 0) == 0;
  }

  /** Page 0 is mapped in a new space, and page 1, which is not, unmapped. */
  method UnmapFaults(root: nat, kernel: Word, pool: set<nat>, frame: nat) returns (s: VirtAddrSpace, r: Unmapping)
    requires IsFrame(root) && root !in pool && (forall f :: f in pool ==> IsFrame(f)) && |pool| >= 3
    requires Present(kernel) && NoCount(kernel) == kernel && IsFrame(frame)
    ensures s.Valid() && s.flat == map[PageOf(0) := PageWord(frame, RO)] && PageOf(4096) !in s.flat
    ensures HasLeafTable(s.at, 4096) && r == Fault
  {
    NextPage();
    hide PageOf, IsUserPage, IsFrame, Good, Tight, PageWord;
    s := new VirtAddrSpace(root, kernel, pool, []);
    var first := s.MapPage(0, frame, RO);
    r := s.UnmapPage(4096);
  }

  const RO: PageOptions := PageOptions(true, false, false, true, WriteBack)
  const FAR: nat := 0x80_0000_0000

  lemma {:induction false} FarApart()
    ensures IsUserPage(0) && IsUserPage(FAR) && PageOf(0).up != PageOf(FAR).up
  {
    assert IndexOf(0, 3) == 0 && IndexOf(FAR, 3) == 1;
  }

  /** A space with frames for the tables of one page, which maps page 0 and then a batch of page 0 and a
      page 512 GiB away: the batch is refused, and page 0 is no longer mapped. */
  method LosesMapping(root: nat, kernel: Word, pool: set<nat>, frame: nat)
    returns (s: VirtAddrSpace, r: Outcome, ghost before: map<Path, Word>)
    requires IsFrame(root) && root !in pool && (forall f :: f in pool ==> IsFrame(f)) && |pool| == 3
    requires Present(kernel) && NoCount(kernel) == kernel && IsFrame(frame)
    ensures s.Valid() && before == map[PageOf(0) := PageWord(frame, RO)]
    ensures r == OutOfMem && s.flat == map[] && s.refused == 1
  {
    FarApart();
    hide PageOf, IsUserPage, IsFrame, Good, Tight, PageWord;
    s := new VirtAddrSpace(root, kernel, pool, []);
    ghost var all := {root} + pool;
    var first := s.MapPage(0, frame, RO);
    before := s.flat;
    FourFrames(s, PageOf(0), all);
    s.LeafTableShared(FAR);
    var batch := [MapAction(0, frame, RO), MapAction(FAR, frame, RO)];
    ghost var failed: nat;
    r, failed := s.MapMany(batch);
    FailsAtSecond(batch, failed);
  }

  lemma {:induction false} FailsAtSecond(batch: seq<MapAction>, failed: nat)
    requires |batch| == 2 && failed <= 1
    ensures NoRepeat(batch[..failed]) && Pages(batch[..1]) == {PageOf(batch[0].addr)}
  {
    hide PageOf;
    assert batch[..1] == [batch[0]];
    assert PageOf(batch[..1][0].addr) in Pages(batch[..1]);
  }
}
