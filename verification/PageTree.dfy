/** The tree of page tables as a value: which frame hangs where, when that agrees with the words in
    memory, and the walk the processor makes. */
module PageTree {
  import opened PageEntry
  import opened Processor
  import opened Wrappers

  /** A position in the radix tree: the root table, or entry `index` of the table at `up`.
      Positions of depth 0 to 3 are tables, positions of depth 4 are pages. */
  datatype Path = Root | Step(up: Path, index: nat) {
    function Depth(): nat {
      if Root? then 0 else up.Depth() + 1
    }

    /** Every index is a table index and the path stays out of the kernel's shared entry. */
    predicate InUser() {
      Step? ==> index < ENTRIES && up.InUser() && (up.Root? ==> index != KERNEL_ENTRY)
    }
  }

  const KERNEL_ENTRY: nat := 511
  /** PRESENT, WRITABLE, USER and the ignored bit that marks an entry for a table. */
  const TABLE_FLAGS: nat := 519

  type Memory = map<nat, Table>
  type Shape = map<Path, nat>

  predicate IsFrame(f: nat) { f % 4096 == 0 && f < COUNT_UNIT }

  function TablePointer(f: nat): Word
    requires IsFrame(f)
  {
    f + TABLE_FLAGS
  }

  /** Following the entry for a table leads to its frame; it is present, carries no count and is not
      marked as a huge page (bit 7). */
  lemma TablePointerSpec(f: nat)
    requires IsFrame(f)
    ensures Present(TablePointer(f)) && Address(TablePointer(f)) == f
    ensures Count(TablePointer(f)) == 0 && NoCount(TablePointer(f)) == TablePointer(f)
    ensures !Huge(TablePointer(f))
  {
    PointerWord(f / 4096, TABLE_FLAGS);
    HugeBit(f / 4096, TABLE_FLAGS);
  }

  /** A word made of frame number `k` and low flag bits, taken apart. */
  lemma PointerWord(k: nat, flags: nat)
    requires k < 0x100_0000_0000 && flags < 4096
    ensures var w := 4096 * k + flags;
            && w < COUNT_UNIT && w / COUNT_UNIT == 0 && w % COUNT_UNIT == w
            && w / 4096 == k && w % 2 == flags % 2
  {
    SmallWord(4096 * k + flags);
    FrameNumber(k, flags);
  }

  lemma SmallWord(w: nat)
    requires w < COUNT_UNIT
    ensures w / COUNT_UNIT == 0 && w % COUNT_UNIT == w
  {
  }

  lemma FrameNumber(k: nat, flags: nat)
    requires flags < 4096
    ensures (4096 * k + flags) / 4096 == k && (4096 * k + flags) % 2 == flags % 2
  {
  }

  lemma HugeBit(k: nat, flags: nat)
    ensures (4096 * k + flags) / 128 % 2 == flags / 128 % 2
  {
    assert (4096 * k + flags) / 128 == 32 * k + flags / 128;
  }

  /** What a table's words say of entry `i` of the table at `p`, given which positions hold tables. */
  ghost predicate EntryAgrees(mem: Memory, at: Shape, p: Path, i: nat)
    requires p in at && at[p] in mem && i < ENTRIES
    requires forall q :: q in at ==> IsFrame(at[q])
  {
    Entry(mem[at[p]], i) == if Step(p, i) in at then Some(TablePointer(at[Step(p, i)])) else None
  }

  /** Shape of the position map: rooted at `cr3`, closed upwards, one frame per position. */
  ghost predicate WellShaped(cr3: nat, at: Shape) {
    && Root in at && at[Root] == cr3
    && (forall p :: p in at ==> p.Depth() <= 3 && p.InUser() && IsFrame(at[p]))
    && (forall p :: p in at && p.Step? ==> p.up in at)
    && (forall p, q :: p in at && q in at && at[p] == at[q] ==> p == q)
  }

  /** Memory and position map describe the same tree, every hidden count is right, and the kernel's
      entry of the root is the shared kernel one. */
  ghost predicate Consistent(cr3: nat, kernel: Word, mem: Memory, at: Shape) {
    && WellShaped(cr3, at)
    && (forall p :: p in at ==> at[p] in mem)
    && (forall f :: f in mem ==> WellCounted(mem[f]))
    && Entry(mem[cr3], KERNEL_ENTRY) == Some(kernel)
    && (forall p, i :: p in at && 0 <= i < ENTRIES && p.Depth() < 3 && Step(p, i).InUser() ==>
          EntryAgrees(mem, at, p, i))
  }

  predicate IsPage(q: Path) { q.Depth() == 4 && q.InUser() }

  /** What page `q` maps to according to the tree. */
  ghost function Leaf(mem: Memory, at: Shape, q: Path): Option<Word>
    requires IsPage(q)
  {
    if q.up in at && at[q.up] in mem then Entry(mem[at[q.up]], q.index) else None
  }

  /** The walk of section 4.5 of the Intel SDM, Volume 3A, from table `f` down the given indices. */
  function Walk(mem: Memory, f: nat, idx: seq<nat>): Option<Word>
    requires forall k :: 0 <= k < |idx| ==> idx[k] < ENTRIES
    requires |idx| > 0
    decreases |idx|
  {
    if f !in mem then None
    else
      var e := Entry(mem[f], idx[0]);
      if |idx| == 1 || e.None? then e else Walk(mem, Address(e.value), idx[1..])
  }

  /** The indices on the way to `q`, from the root. */
  function Indices(q: Path): seq<nat> {
    if q.Root? then [] else Indices(q.up) + [q.index]
  }

  /** `p` is on the way from the root to `q`. */
  ghost predicate Above(p: Path, q: Path) {
    p == q || (q.Step? && Above(p, q.up))
  }

  lemma {:induction false} AboveDepth(p: Path, q: Path)
    requires Above(p, q)
    ensures p.Depth() <= q.Depth()
    ensures p.Depth() == q.Depth() ==> p == q
    decreases q
  {
    if p != q { AboveDepth(p, q.up); }
  }

  /** The processor's walk finds for every page exactly what the tree of tables holds for it. */
  lemma {:induction false} WalkFindsLeaf(cr3: nat, kernel: Word, mem: Memory, at: Shape, q: Path)
    requires Consistent(cr3, kernel, mem, at) && IsPage(q)
    ensures |Indices(q)| == 4 && forall k :: 0 <= k < 4 ==> Indices(q)[k] < ENTRIES
    ensures Walk(mem, cr3, Indices(q)) == Leaf(mem, at, q)
  {
    FourSteps(q);
    var p3 := q.up;
    var p2 := p3.up;
    var p1 := p2.up;
    var idx := Indices(q);
    WalkStep(cr3, kernel, mem, at, Root, p1.index, idx);
    if p1 in at {
      WalkStep(cr3, kernel, mem, at, p1, p2.index, idx[1..]);
      if p2 in at {
        WalkStep(cr3, kernel, mem, at, p2, p3.index, idx[1..][1..]);
      }
    }
  }

  lemma FourSteps(q: Path)
    requires IsPage(q)
    ensures q.Step? && q.up.Step? && q.up.up.Step? && q.up.up.up.Step? && q.up.up.up.up == Root
    ensures q.up.Depth() == 3 && q.up.up.Depth() == 2 && q.up.up.up.Depth() == 1
    ensures q.up.InUser() && q.up.up.InUser() && q.up.up.up.InUser()
    ensures Indices(q) == [q.up.up.up.index, q.up.up.index, q.up.index, q.index]
  {
    var p3 := q.up;
    assert p3.Depth() == 3 && p3.InUser();
    var p2 := p3.up;
    assert p2.Depth() == 2 && p2.InUser();
    var p1 := p2.up;
    assert p1.Depth() == 1 && p1.InUser();
    assert p1.up.Depth() == 0;
    assert Indices(p1) == [p1.index];
    assert Indices(p2) == [p1.index, p2.index];
    assert Indices(p3) == [p1.index, p2.index, p3.index];
  }

  lemma WalkStep(cr3: nat, kernel: Word, mem: Memory, at: Shape, p: Path, i: nat, idx: seq<nat>)
    requires Consistent(cr3, kernel, mem, at) && p in at && p.Depth() < 3 && Step(p, i).InUser()
    requires |idx| >= 2 && idx[0] == i && forall k :: 0 <= k < |idx| ==> idx[k] < ENTRIES
    ensures Walk(mem, at[p], idx) ==
            if Step(p, i) in at then Walk(mem, at[Step(p, i)], idx[1..]) else None
  {
    assert EntryAgrees(mem, at, p, i);
    if Step(p, i) in at { TablePointerSpec(at[Step(p, i)]); }
  }

  /** What the processor finds behind a leaf word. */
  ghost function Seen(leaf: Option<Word>): Option<Access> {
    match leaf
    case None => None
    case Some(w) => Some(PageAccess(w))
  }

  /** An entry for a table takes no permission away, and leads to the table. */
  lemma {:induction false} TranslateStep(cr3: nat, kernel: Word, mem: Memory, at: Shape, p: Path, i: nat, idx: seq<nat>)
    requires Consistent(cr3, kernel, mem, at) && p in at && p.Depth() < 3 && Step(p, i).InUser()
    requires |idx| >= 2 && idx[0] == i && forall k :: 0 <= k < |idx| ==> idx[k] < ENTRIES
    ensures Translate(mem, at[p], idx) ==
            if Step(p, i) in at then Translate(mem, at[Step(p, i)], idx[1..]) else None
  {
    assert EntryAgrees(mem, at, p, i);
    var w := mem[at[p]][i];
    CountIgnored(w);
    NoCountSpec(w);
    hide NoCount, Address, FrameOf, Set;
    if Step(p, i) in at {
      TablePointerSpec(at[Step(p, i)]);
      TableBits(at[Step(p, i)]);
    }
  }

  lemma {:induction false} TableBits(f: nat)
    requires IsFrame(f)
    ensures PageAccess(TablePointer(f)) == Access(f, true, true, true, false, false, false)
    ensures Set(TablePointer(f), 512)
  {
    WordOf(f, TABLE_FLAGS, 0);
    AboveUnit(TABLE_FLAGS, f / 4096 * 4, 512);
  }

  lemma {:induction false} TranslateLeaf(mem: Memory, f: nat, i: nat)
    requires f in mem && i < ENTRIES
    ensures Translate(mem, f, [i]) == Seen(Entry(mem[f], i))
  {
    CountIgnored(mem[f][i]);
    NoCountSpec(mem[f][i]);
    hide NoCount, FrameOf, Set;
  }

  /** In a consistent tree the processor finds exactly the leaf, with the permissions of the leaf alone. */
  lemma {:induction false} TranslateFindsLeaf(cr3: nat, kernel: Word, mem: Memory, at: Shape, q: Path)
    requires Consistent(cr3, kernel, mem, at) && IsPage(q)
    ensures |Indices(q)| == 4 && forall k :: 0 <= k < 4 ==> Indices(q)[k] < ENTRIES
    ensures Translate(mem, cr3, Indices(q)) == Seen(Leaf(mem, at, q))
  {
    FourSteps(q);
    var p3 := q.up;
    var p2 := p3.up;
    var p1 := p2.up;
    var idx := Indices(q);
    TranslateStep(cr3, kernel, mem, at, Root, p1.index, idx);
    if p1 in at {
      TranslateStep(cr3, kernel, mem, at, p1, p2.index, idx[1..]);
      if p2 in at {
        TranslateStep(cr3, kernel, mem, at, p2, p3.index, idx[1..][1..]);
        if p3 in at { TranslateLeaf(mem, at[p3], q.index); }
      }
    }
    hide Translate;
    assert idx[1..][1..][1..] == [q.index];
  }

  // ---------------------------------------------------------------------------
  // The four changes the kernel makes to the tree
  // ---------------------------------------------------------------------------

  /** Memory after a fresh zeroed table at `g` is hung into slot `i` of the table at `f`. */
  function Grown(mem: Memory, f: nat, i: nat, g: nat): Memory
    requires f in mem && i < ENTRIES && IsFrame(g)
  {
    mem[f := AddEntry(mem[f], i, TablePointer(g))][g := ZeroTable()]
  }

  function Written(mem: Memory, f: nat, i: nat, w: Word): Memory
    requires f in mem && i < ENTRIES
  {
    mem[f := AddEntry(mem[f], i, w)]
  }

  function Cleared(mem: Memory, f: nat, i: nat): Memory
    requires f in mem && i < ENTRIES
  {
    mem[f := RemoveEntry(mem[f], i)]
  }

  ghost predicate SameLeaves(mem: Memory, at: Shape, mem': Memory, at': Shape) {
    forall q :: IsPage(q) ==> Leaf(mem', at', q) == Leaf(mem, at, q)
  }

  /** Hanging a fresh zeroed table into an empty slot. */
  lemma {:induction false} GrowSpec(cr3: nat, kernel: Word, mem: Memory, at: Shape, p: Path, i: nat, g: nat)
    requires Consistent(cr3, kernel, mem, at)
    requires p in at && p.Depth() < 3 && Step(p, i).InUser() && Step(p, i) !in at
    requires IsFrame(g) && g !in mem
    ensures Consistent(cr3, kernel, Grown(mem, at[p], i, g), at[Step(p, i) := g])
    ensures at[Step(p, i) := g].Values == at.Values + {g}
    ensures SameLeaves(mem, at, Grown(mem, at[p], i, g), at[Step(p, i) := g])
  {
    var n := Step(p, i);
    var mem', at' := Grown(mem, at[p], i, g), at[n := g];
    GrowTables(mem, at[p], i, g);
    GrowShape(cr3, at, p, i, g);
    forall r, j | r in at' && 0 <= j < ENTRIES && r.Depth() < 3 && Step(r, j).InUser()
      ensures EntryAgrees(mem', at', r, j)
    {
      if r == n { assert Step(n, j) !in at; } else { assert EntryAgrees(mem, at, r, j); }
    }
    ValuesAdd(at, n, g);
    forall q | IsPage(q) ensures Leaf(mem', at', q) == Leaf(mem, at, q) {
      if q.up == n { assert Entry(mem'[g], q.index).None?; } else { assert q.up != p; }
    }
  }

  lemma {:induction false} GrowShape(cr3: nat, at: Shape, p: Path, i: nat, g: nat)
    requires WellShaped(cr3, at) && IsFrame(g) && g !in at.Values
    requires p in at && p.Depth() < 3 && Step(p, i).InUser() && Step(p, i) !in at
    ensures WellShaped(cr3, at[Step(p, i) := g])
  {
    assert forall q :: q in at ==> at[q] in at.Values;
  }

  lemma {:induction false} GrowTables(mem: Memory, f: nat, i: nat, g: nat)
    requires f in mem && i < ENTRIES && IsFrame(g) && g !in mem
    requires forall f :: f in mem ==> WellCounted(mem[f])
    ensures forall h :: h in Grown(mem, f, i, g) ==> WellCounted(Grown(mem, f, i, g)[h])
    ensures forall h, j :: h in mem && 0 <= j < ENTRIES ==>
              Entry(Grown(mem, f, i, g)[h], j) == if h == f && j == i then Some(TablePointer(g)) else Entry(mem[h], j)
    ensures forall j :: 0 <= j < ENTRIES ==> Entry(Grown(mem, f, i, g)[g], j).None?
  {
    TablePointerSpec(g);
    AddEntrySpec(mem[f], i, TablePointer(g));
    ZeroTableSpec();
  }

  lemma {:induction false} ValuesAdd(at: Shape, n: Path, g: nat)
    requires n !in at
    ensures at[n := g].Values == at.Values + {g}
  {
    var at' := at[n := g];
    forall v | v in at.Values + {g} ensures v in at'.Values {
      if v == g { assert at'[n] == g; } else { var k :| k in at && at[k] == v; assert at'[k] == v; }
    }
  }

  /** Writing a page entry into a leaf table. */
  lemma {:induction false} MapSpec(cr3: nat, kernel: Word, mem: Memory, at: Shape, q: Path, w: Word)
    requires Consistent(cr3, kernel, mem, at) && IsPage(q) && q.up in at && Present(w) && NoCount(w) == w
    ensures Consistent(cr3, kernel, Written(mem, at[q.up], q.index, w), at)
    ensures forall r :: IsPage(r) ==>
              Leaf(Written(mem, at[q.up], q.index, w), at, r) == if r == q then Some(w) else Leaf(mem, at, r)
  {
    AddEntrySpec(mem[at[q.up]], q.index, w);
    var mem' := Written(mem, at[q.up], q.index, w);
    forall r, j | r in at && 0 <= j < ENTRIES && r.Depth() < 3 && Step(r, j).InUser()
      ensures EntryAgrees(mem', at, r, j)
    {
      assert EntryAgrees(mem, at, r, j);
    }
  }

  /** Clearing a page entry of a leaf table. */
  lemma {:induction false} UnmapSpec(cr3: nat, kernel: Word, mem: Memory, at: Shape, q: Path)
    requires Consistent(cr3, kernel, mem, at) && IsPage(q) && q.up in at
    ensures Consistent(cr3, kernel, Cleared(mem, at[q.up], q.index), at)
    ensures forall r :: IsPage(r) ==>
              Leaf(Cleared(mem, at[q.up], q.index), at, r) == if r == q then None else Leaf(mem, at, r)
  {
    RemoveEntrySpec(mem[at[q.up]], q.index);
    var mem' := Cleared(mem, at[q.up], q.index);
    forall r, j | r in at && 0 <= j < ENTRIES && r.Depth() < 3 && Step(r, j).InUser()
      ensures EntryAgrees(mem', at, r, j)
    {
      assert EntryAgrees(mem, at, r, j);
    }
  }

  /** Cutting off a table whose count has dropped to zero. */
  lemma {:induction false} ShrinkSpec(cr3: nat, kernel: Word, mem: Memory, at: Shape, n: Path)
    requires Consistent(cr3, kernel, mem, at) && n in at && n.Step? && EntryCount(mem[at[n]]) == 0
    ensures n.up in at && n.index < ENTRIES
    ensures Consistent(cr3, kernel, Cleared(mem, at[n.up], n.index), at - {n})
    ensures (at - {n}).Values == at.Values - {at[n]}
    ensures SameLeaves(mem, at, Cleared(mem, at[n.up], n.index), at - {n})
  {
    assert at[n.up] != at[n];
    RemoveEntrySpec(mem[at[n.up]], n.index);
    var mem', at' := Cleared(mem, at[n.up], n.index), at - {n};
    EmptyHasNoChild(cr3, kernel, mem, at, n);
    assert WellShaped(cr3, at');
    forall r, j | r in at' && 0 <= j < ENTRIES && r.Depth() < 3 && Step(r, j).InUser()
      ensures EntryAgrees(mem', at', r, j)
    {
      assert EntryAgrees(mem, at, r, j);
    }
    ShrinkLeaves(cr3, kernel, mem, at, n);
    ValuesRemove(at, n);
  }

  lemma {:induction false} ShrinkLeaves(cr3: nat, kernel: Word, mem: Memory, at: Shape, n: Path)
    requires Consistent(cr3, kernel, mem, at) && n in at && n.Step? && EntryCount(mem[at[n]]) == 0
    requires n.up in at && n.index < ENTRIES
    ensures SameLeaves(mem, at, Cleared(mem, at[n.up], n.index), at - {n})
  {
    var mem', at' := Cleared(mem, at[n.up], n.index), at - {n};
    EmptyHasNoChild(cr3, kernel, mem, at, n);
    forall q | IsPage(q) ensures Leaf(mem', at', q) == Leaf(mem, at, q) {
      if q.up in at && q.up != n {
        assert q.up != n.up;
        assert at[q.up] != at[n.up];
      }
    }
  }

  /** A table with count zero has no table below it and maps no page. */
  lemma {:induction false} EmptyHasNoChild(cr3: nat, kernel: Word, mem: Memory, at: Shape, n: Path)
    requires Consistent(cr3, kernel, mem, at) && n in at && EntryCount(mem[at[n]]) == 0
    ensures forall j :: Step(n, j) !in at
    ensures forall q :: IsPage(q) && q.up == n ==> Leaf(mem, at, q).None?
  {
    EmptyTable(mem[at[n]]);
    forall j ensures Step(n, j) !in at {
      if Step(n, j).InUser() && n.Depth() < 3 { assert EntryAgrees(mem, at, n, j); }
    }
  }

  lemma {:induction false} ValuesRemove(at: Shape, n: Path)
    requires n in at && forall p, q :: p in at && q in at && at[p] == at[q] ==> p == q
    ensures (at - {n}).Values == at.Values - {at[n]}
  {
    var at' := at - {n};
    forall v | v in at.Values - {at[n]} ensures v in at'.Values {
      var k :| k in at && at[k] == v;
      assert at'[k] == v;
    }
  }

  // ---------------------------------------------------------------------------
  // Ownership of frames and the flat mapping
  // ---------------------------------------------------------------------------

  ghost function Lookup(flat: map<Path, Word>, q: Path): Option<Word> {
    if q in flat then Some(flat[q]) else None
  }

  /** The tree maps exactly what `flat` says. */
  ghost predicate Refines(mem: Memory, at: Shape, flat: map<Path, Word>) {
    && (forall q :: q in flat ==> IsPage(q))
    && (forall q :: IsPage(q) ==> Leaf(mem, at, q) == Lookup(flat, q))
  }

  /** The frames in memory are those of the tree and the `loose` ones, cut off and not yet returned;
      none of them is in the allocator's pool. */
  ghost predicate Owned(mem: Memory, at: Shape, pool: set<nat>, loose: set<nat>) {
    && mem.Keys == at.Values + loose && at.Values !! loose
    && pool !! mem.Keys
    && (forall f :: f in pool || f in mem ==> IsFrame(f))
  }

  ghost predicate Good(cr3: nat, kernel: Word, mem: Memory, at: Shape, pool: set<nat>, loose: set<nat>,
                       flat: map<Path, Word>) {
    Consistent(cr3, kernel, mem, at) && Owned(mem, at, pool, loose) && Refines(mem, at, flat)
  }

  lemma {:induction false} GrowGood(cr3: nat, kernel: Word, mem: Memory, at: Shape, pool: set<nat>,
                                    flat: map<Path, Word>, p: Path, i: nat, g: nat)
    requires Good(cr3, kernel, mem, at, pool, {}, flat)
    requires p in at && p.Depth() < 3 && Step(p, i).InUser() && Step(p, i) !in at && g in pool
    ensures at[p] in mem && IsFrame(g)
    ensures Good(cr3, kernel, Grown(mem, at[p], i, g), at[Step(p, i) := g], pool - {g}, {}, flat)
    ensures (pool - {g}) + Grown(mem, at[p], i, g).Keys == pool + mem.Keys
  {
    GrowSpec(cr3, kernel, mem, at, p, i, g);
    SameRefines(mem, at, Grown(mem, at[p], i, g), at[Step(p, i) := g], flat);
  }

  lemma {:induction false} SameRefines(mem: Memory, at: Shape, mem': Memory, at': Shape, flat: map<Path, Word>)
    requires Refines(mem, at, flat) && SameLeaves(mem, at, mem', at')
    ensures Refines(mem', at', flat)
  {
    hide Leaf;
  }

  lemma {:induction false} RootGood(cr3: nat, kernel: Word, mem: Memory, at: Shape, pool: set<nat>,
                                    flat: map<Path, Word>)
    requires Good(cr3, kernel, mem, at, pool, {}, flat)
    ensures Root in at && at[Root] == cr3
    ensures forall p :: p in at ==> at[p] in mem
  {
  }

  /** Reading slot `i` of the table at `p` tells whether a table hangs below it, and where. */
  lemma {:induction false} SlotGood(cr3: nat, kernel: Word, mem: Memory, at: Shape, pool: set<nat>,
                                    flat: map<Path, Word>, p: Path, i: nat)
    requires Good(cr3, kernel, mem, at, pool, {}, flat)
    requires p in at && p.Depth() < 3 && Step(p, i).InUser()
    ensures at[p] in mem && (Present(mem[at[p]][i]) <==> Step(p, i) in at)
    ensures Step(p, i) in at ==> Address(mem[at[p]][i]) == at[Step(p, i)]
  {
    assert EntryAgrees(mem, at, p, i);
    NoCountSpec(mem[at[p]][i]);
    if Step(p, i) in at { TablePointerSpec(at[Step(p, i)]); }
  }

  lemma {:induction false} MapGood(cr3: nat, kernel: Word, mem: Memory, at: Shape, pool: set<nat>,
                                   flat: map<Path, Word>, q: Path, w: Word)
    requires Good(cr3, kernel, mem, at, pool, {}, flat)
    requires IsPage(q) && q.up in at && Present(w) && NoCount(w) == w
    ensures at[q.up] in mem
    ensures Good(cr3, kernel, Written(mem, at[q.up], q.index, w), at, pool, {}, flat[q := w])
    ensures Written(mem, at[q.up], q.index, w).Keys == mem.Keys
  {
    MapSpec(cr3, kernel, mem, at, q, w);
    MapRefines(mem, Written(mem, at[q.up], q.index, w), at, flat, q, w);
  }

  lemma {:induction false} MapRefines(mem: Memory, mem': Memory, at: Shape, flat: map<Path, Word>, q: Path, w: Word)
    requires Refines(mem, at, flat) && IsPage(q)
    requires forall r :: IsPage(r) ==> Leaf(mem', at, r) == if r == q then Some(w) else Leaf(mem, at, r)
    ensures Refines(mem', at, flat[q := w])
  {
    hide Leaf;
  }

  lemma {:induction false} UnmapGood(cr3: nat, kernel: Word, mem: Memory, at: Shape, pool: set<nat>,
                                     flat: map<Path, Word>, q: Path)
    requires Good(cr3, kernel, mem, at, pool, {}, flat) && IsPage(q) && q.up in at
    ensures at[q.up] in mem
    ensures Good(cr3, kernel, Cleared(mem, at[q.up], q.index), at, pool, {}, flat - {q})
    ensures Cleared(mem, at[q.up], q.index).Keys == mem.Keys
  {
    UnmapSpec(cr3, kernel, mem, at, q);
    UnmapRefines(mem, Cleared(mem, at[q.up], q.index), at, flat, q);
  }

  lemma {:induction false} UnmapRefines(mem: Memory, mem': Memory, at: Shape, flat: map<Path, Word>, q: Path)
    requires Refines(mem, at, flat)
    requires forall r :: IsPage(r) ==> Leaf(mem', at, r) == if r == q then None else Leaf(mem, at, r)
    ensures Refines(mem', at, flat - {q})
  {
    hide Leaf;
  }

  lemma {:induction false} ShrinkGood(cr3: nat, kernel: Word, mem: Memory, at: Shape, pool: set<nat>, loose: set<nat>,
                                      flat: map<Path, Word>, n: Path)
    requires Good(cr3, kernel, mem, at, pool, loose, flat)
    requires n in at && n.Step? && at[n] in mem && EntryCount(mem[at[n]]) == 0
    ensures n.up in at && n.index < ENTRIES && at[n.up] in mem && at[n.up] != at[n] && at[n] !in loose
    ensures Good(cr3, kernel, Cleared(mem, at[n.up], n.index), at - {n}, pool, loose + {at[n]}, flat)
    ensures Cleared(mem, at[n.up], n.index).Keys == mem.Keys
  {
    ShrinkSpec(cr3, kernel, mem, at, n);
    SameRefines(mem, at, Cleared(mem, at[n.up], n.index), at - {n}, flat);
    assert at[n] in at.Values;
  }

  /** A mapped page has a leaf table whose entry is the mapped word; without a leaf table a page is
      not mapped. */
  lemma {:induction false} PageGood(cr3: nat, kernel: Word, mem: Memory, at: Shape, pool: set<nat>,
                                    flat: map<Path, Word>, q: Path)
    requires Good(cr3, kernel, mem, at, pool, {}, flat) && IsPage(q)
    ensures q in flat ==> q.up in at && at[q.up] in mem && Address(mem[at[q.up]][q.index]) == Address(flat[q])
    ensures q.up !in at ==> q !in flat
    ensures q.up in at ==> at[q.up] in mem && (Present(mem[at[q.up]][q.index]) <==> q in flat)
    ensures q.up in at && q.up.Step? ==> q.up.up in at
  {
    assert Leaf(mem, at, q) == Lookup(flat, q);
    if q in flat { NoCountSpec(mem[at[q.up]][q.index]); }
  }

  /** Clearing an entry that is not there changes nothing. */
  lemma {:induction false} AbsentGood(cr3: nat, kernel: Word, mem: Memory, at: Shape, pool: set<nat>,
                                      flat: map<Path, Word>, p: Path, i: nat)
    requires Good(cr3, kernel, mem, at, pool, {}, flat)
    requires p in at && p.Depth() < 3 && Step(p, i).InUser() && Step(p, i) !in at
    ensures at[p] in mem && Cleared(mem, at[p], i) == mem
  {
    SlotGood(cr3, kernel, mem, at, pool, flat, p, i);
  }

  /** Returning a loose frame to the allocator. */
  lemma {:induction false} FreeGood(cr3: nat, kernel: Word, mem: Memory, at: Shape, pool: set<nat>, loose: set<nat>,
                                    flat: map<Path, Word>, f: nat)
    requires Good(cr3, kernel, mem, at, pool, loose, flat) && f in loose
    ensures f !in pool && f in mem
    ensures (pool + {f}) + (mem - {f}).Keys == pool + mem.Keys
    ensures Good(cr3, kernel, mem - {f}, at, pool + {f}, loose - {f}, flat)
  {
    var mem': Memory := mem - {f};
    forall p | p in at ensures at[p] in mem' { assert at[p] in at.Values; }
    forall p, i | p in at && 0 <= i < ENTRIES && p.Depth() < 3 && Step(p, i).InUser()
      ensures EntryAgrees(mem', at, p, i)
    {
      assert EntryAgrees(mem, at, p, i);
    }
  }

  // ---------------------------------------------------------------------------
  // Tearing a subtree down
  // ---------------------------------------------------------------------------

  /** The entry of the table at `p` through which the way to `q` below it leads. */
  ghost function FirstIndex(p: Path, q: Path): nat
    requires Above(p, q) && p != q
  {
    if q.up == p then q.index else FirstIndex(p, q.up)
  }

  lemma {:induction false} AboveStep(p: Path, i: nat, q: Path)
    ensures Above(Step(p, i), q) <==> Above(p, q) && p != q && FirstIndex(p, q) == i
    decreases q
  {
    if q.Step? {
      if q.up == p {
        if Above(Step(p, i), p) { AboveDepth(Step(p, i), p); }
      } else {
        AboveStep(p, i, q.up);
      }
      if Above(p, q) && p == q && Above(Step(p, i), q) { AboveDepth(Step(p, i), q); }
    }
  }

  /** The tables at and below `p`. */
  ghost function Subtree(at: Shape, p: Path): set<Path> {
    set q | q in at && Above(p, q)
  }

  /** The tables below the first `i` entries of the table at `p`. */
  ghost function Torn(at: Shape, p: Path, i: nat): set<Path> {
    set q | q in at && Above(p, q) && p != q && FirstIndex(p, q) < i
  }

  ghost function Frames(at: Shape, s: set<Path>): set<nat>
    requires s <= at.Keys
  {
    set q | q in s :: at[q]
  }

  /** The part of the tree at and below `p` is intact and its frames are not in the pool. */
  ghost predicate Intact(mem: Memory, at: Shape, pool: set<nat>, p: Path) {
    && (forall q, r :: q in at && r in at && at[q] == at[r] ==> q == r)
    && (forall q :: q in at ==> IsFrame(at[q]))
    && (forall q :: q in at && Above(p, q) ==>
          at[q] in mem && at[q] !in pool && q.Depth() <= 3 && q.InUser() && (q != p ==> q.up in at))
    && (forall q, i :: q in at && Above(p, q) && 0 <= i < ENTRIES && q.Depth() < 3 && Step(q, i).InUser() ==>
          EntryAgrees(mem, at, q, i))
  }

  lemma {:induction false} TornStep(at: Shape, p: Path, i: nat)
    ensures Torn(at, p, i + 1) == Torn(at, p, i) + Subtree(at - Torn(at, p, i), Step(p, i))
    ensures Subtree(at - Torn(at, p, i), Step(p, i)) == Subtree(at, Step(p, i))
  {
    forall q | q in at
      ensures Above(Step(p, i), q) <==> Above(p, q) && p != q && FirstIndex(p, q) == i
    {
      AboveStep(p, i, q);
    }
  }

  /** No table hangs below an entry whose own position holds none. */
  lemma {:induction false} NothingBelow(mem: Memory, at: Shape, pool: set<nat>, p: Path, i: nat, q: Path)
    requires Intact(mem, at, pool, p) && Step(p, i) !in at && Above(Step(p, i), q)
    ensures q !in at
    decreases q
  {
    if q in at && q != Step(p, i) {
      AboveStep(p, i, q);
      NothingBelow(mem, at, pool, p, i, q.up);
    }
  }

  lemma {:induction false} TornNothing(mem: Memory, at: Shape, pool: set<nat>, p: Path, i: nat)
    requires Intact(mem, at, pool, p) && Step(p, i) !in at
    ensures Torn(at, p, i + 1) == Torn(at, p, i)
  {
    TornStep(at, p, i);
    forall q | Above(Step(p, i), q) ensures q !in at { NothingBelow(mem, at, pool, p, i, q); }
  }

  /** After all 512 entries only the table itself is left of its subtree. */
  lemma {:induction false} TornAll(mem: Memory, at: Shape, pool: set<nat>, p: Path)
    requires Intact(mem, at, pool, p) && p in at
    ensures Subtree(at, p) == Torn(at, p, ENTRIES) + {p}
  {
    forall q | q in at && Above(p, q) && p != q ensures FirstIndex(p, q) < ENTRIES {
      IndexInRange(p, q);
    }
  }

  lemma {:induction false} IndexInRange(p: Path, q: Path)
    requires Above(p, q) && p != q && q.InUser()
    ensures FirstIndex(p, q) < ENTRIES
    decreases q
  {
    if q.up != p { IndexInRange(p, q.up); }
  }

  /** Tearing down the earlier entries leaves the subtree of entry `i` intact. */
  lemma {:induction false} StillIntact(mem: Memory, at: Shape, pool: set<nat>, p: Path, i: nat)
    requires Intact(mem, at, pool, p) && p in at && Step(p, i) in at
    ensures var torn := Torn(at, p, i);
            Intact(mem - Frames(at, torn), at - torn, pool + Frames(at, torn), Step(p, i))
  {
    var n := Step(p, i);
    var torn := Torn(at, p, i);
    var mem', at', pool' := mem - Frames(at, torn), at - torn, pool + Frames(at, torn);
    forall q | q in at' && Above(n, q)
      ensures Above(p, q) && p != q && q !in torn && at[q] !in Frames(at, torn) && (q != n ==> q.up in at')
    {
      AboveStep(p, i, q);
      if q != n { AboveStep(p, i, q.up); }
    }
    forall q, j | q in at' && Above(n, q) && 0 <= j < ENTRIES && q.Depth() < 3 && Step(q, j).InUser()
      ensures EntryAgrees(mem', at', q, j)
    {
      AboveStep(p, i, q);
      assert EntryAgrees(mem, at, q, j);
      AboveStep(p, i, Step(q, j));
    }
  }

  lemma {:induction false} TornNone(mem: Memory, at: Shape, pool: set<nat>, p: Path)
    ensures Torn(at, p, 0) == {} && Frames(at, Torn(at, p, 0)) == {}
    ensures at - Torn(at, p, 0) == at && mem - Frames(at, Torn(at, p, 0)) == mem
    ensures pool + Frames(at, Torn(at, p, 0)) == pool
  {
  }

  /** Leaf tables have no tables below them. */
  lemma {:induction false} TornLeaf(mem: Memory, at: Shape, pool: set<nat>, p: Path)
    requires Intact(mem, at, pool, p) && p.Depth() == 3
    ensures at - Torn(at, p, ENTRIES) == at && mem - Frames(at, Torn(at, p, ENTRIES)) == mem
    ensures pool + Frames(at, Torn(at, p, ENTRIES)) == pool
  {
    forall q | q in at && Above(p, q) ensures q == p { AboveDepth(p, q); }
  }

  /** Reading entry `i` while tearing down: an entry that is followed leads to the child table. */
  lemma {:induction false} TornSlot(mem: Memory, at: Shape, pool: set<nat>, p: Path, i: nat)
    requires Intact(mem, at, pool, p) && p in at && p.Depth() < 3 && i < ENTRIES
    ensures at[p] in mem && p !in Torn(at, p, i) && at[p] !in Frames(at, Torn(at, p, i))
    ensures !Step(p, i).InUser() ==> Step(p, i) !in at && p.Root? && i == KERNEL_ENTRY
    ensures Step(p, i) in at ==>
              !Huge(mem[at[p]][i]) && Present(mem[at[p]][i]) && Address(mem[at[p]][i]) == at[Step(p, i)]
    ensures Step(p, i).InUser() && Step(p, i) !in at ==> !Present(mem[at[p]][i])
  {
    var w := mem[at[p]][i];
    NoCountSpec(w);
    HugeNoCount(w);
    if Step(p, i).InUser() {
      assert EntryAgrees(mem, at, p, i);
      if Step(p, i) in at { TablePointerSpec(at[Step(p, i)]); }
    } else {
      assert p.InUser();
      if Step(p, i) in at { assert Above(p, Step(p, i)); }
    }
  }

  /** Tearing down `s` and then `t` is tearing down both. */
  lemma {:induction false} TearMore(mem: Memory, at: Shape, pool: set<nat>, s: set<Path>, t: set<Path>)
    requires s <= at.Keys && t <= (at - s).Keys
    ensures (at - s) - t == at - (s + t)
    ensures (mem - Frames(at, s)) - Frames(at - s, t) == mem - Frames(at, s + t)
    ensures (pool + Frames(at, s)) + Frames(at - s, t) == pool + Frames(at, s + t)
  {
    assert Frames(at - s, t) == Frames(at, t);
    assert Frames(at, s + t) == Frames(at, s) + Frames(at, t);
  }

  /** Freeing the table itself completes its subtree. */
  lemma {:induction false} LastFrame(mem: Memory, at: Shape, pool: set<nat>, p: Path)
    requires Intact(mem, at, pool, p) && p in at
    ensures var torn := Torn(at, p, ENTRIES);
            && p !in torn && at[p] in mem - Frames(at, torn) && at[p] !in pool + Frames(at, torn)
            && (at - torn) - {p} == at - Subtree(at, p)
            && (mem - Frames(at, torn)) - {at[p]} == mem - Frames(at, Subtree(at, p))
            && (pool + Frames(at, torn)) + {at[p]} == pool + Frames(at, Subtree(at, p))
  {
    var torn := Torn(at, p, ENTRIES);
    TornAll(mem, at, pool, p);
    TearMore(mem, at, pool, torn, {p});
    assert Frames(at - torn, {p}) == {at[p]};
  }

  /** A valid space is intact from the root, and its subtree at the root is everything. */
  lemma {:induction false} WholeTree(cr3: nat, kernel: Word, mem: Memory, at: Shape, pool: set<nat>,
                                     flat: map<Path, Word>)
    requires Good(cr3, kernel, mem, at, pool, {}, flat)
    ensures Intact(mem, at, pool, Root) && Root in at && at[Root] == cr3
    ensures at - Subtree(at, Root) == map[] && Frames(at, Subtree(at, Root)) == mem.Keys
    ensures mem - Frames(at, Subtree(at, Root)) == map[]
  {
    forall q | q in at ensures Above(Root, q) { RootAbove(q); }
    assert Subtree(at, Root) == at.Keys;
    assert Frames(at, at.Keys) == at.Values;
    forall q | q in at ensures at[q] in mem && at[q] !in pool { assert at[q] in mem.Keys; }
  }

  lemma {:induction false} RootAbove(q: Path)
    ensures Above(Root, q)
  {
    if q.Step? { RootAbove(q.up); }
  }
}
