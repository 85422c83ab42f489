/** Which tables of a page-table tree are empty: at most the one just changed, so that without refused
    memory the tables in use are exactly those on the way to a mapped page. */
module PageTight {
  import opened PageEntry
  import opened PageTree

  ghost predicate IsEmpty(mem: Memory, at: Shape, x: Path) {
    x in at && x != Root && at[x] in mem && EntryCount(mem[at[x]]) == 0
  }

  /** No table but the root is empty. */
  ghost predicate Tight(mem: Memory, at: Shape) {
    forall x :: x in at ==> !IsEmpty(mem, at, x)
  }

  /** Only the table at `p` may be empty. */
  ghost predicate EmptyOnlyAt(mem: Memory, at: Shape, p: Path) {
    forall x :: x in at && IsEmpty(mem, at, x) ==> x == p
  }

  lemma {:induction false} TightEnough(mem: Memory, at: Shape, p: Path)
    ensures Tight(mem, at) ==> EmptyOnlyAt(mem, at, p)
    ensures EmptyOnlyAt(mem, at, p) && !IsEmpty(mem, at, p) ==> Tight(mem, at)
  {
    hide IsEmpty;
  }

  /** Clearing an entry can empty only that table. */
  lemma {:induction false} ClearedEmpty(cr3: nat, mem: Memory, at: Shape, p: Path, i: nat)
    requires WellShaped(cr3, at) && p in at && at[p] in mem && i < ENTRIES && Tight(mem, at)
    ensures EmptyOnlyAt(Cleared(mem, at[p], i), at, p)
  {
    hide RemoveEntry, EntryCount;
    var mem' := Cleared(mem, at[p], i);
    forall x | x in at && x != p ensures !IsEmpty(mem', at, x) {
      assert at[x] != at[p];
      assert !IsEmpty(mem, at, x);
    }
  }

  /** Cutting off the one empty table can empty only the table above it. */
  lemma {:induction false} CutEmpty(cr3: nat, mem: Memory, at: Shape, n: Path)
    requires WellShaped(cr3, at) && n in at && n.Step? && n.up in at && at[n.up] in mem && n.index < ENTRIES
    requires EmptyOnlyAt(mem, at, n)
    ensures EmptyOnlyAt(Cleared(mem, at[n.up], n.index), at - {n}, n.up)
  {
    hide RemoveEntry, EntryCount;
    var mem', at' := Cleared(mem, at[n.up], n.index), at - {n};
    forall x | x in at' && x != n.up ensures !IsEmpty(mem', at', x) {
      assert at[x] != at[n.up];
      assert !IsEmpty(mem, at, x);
    }
  }

  /** A table with an entry is not empty. */
  lemma {:induction false} HasEntry(t: Table, i: nat)
    requires WellCounted(t) && i < ENTRIES && Entry(t, i).Some?
    ensures EntryCount(t) != 0
  {
    EmptyTable(t);
  }

  /** Hanging a fresh table below the only one that may be empty makes the fresh one that. */
  lemma {:induction false} GrownEmpty(cr3: nat, mem: Memory, at: Shape, p: Path, i: nat, g: nat)
    requires WellShaped(cr3, at) && p in at && at[p] in mem && WellCounted(mem[at[p]]) && i < ENTRIES && IsFrame(g)
    requires g !in mem
    requires (forall x :: x in at ==> at[x] in mem) && EmptyOnlyAt(mem, at, p) && Step(p, i) !in at
    ensures EmptyOnlyAt(Grown(mem, at[p], i, g), at[Step(p, i) := g], Step(p, i))
  {
    TablePointerSpec(g);
    AddEntrySpec(mem[at[p]], i, TablePointer(g));
    var t := AddEntry(mem[at[p]], i, TablePointer(g));
    HasEntry(t, i);
    hide AddEntry, EntryCount, WellCounted, Entry, ZeroTable;
    var mem', at' := Grown(mem, at[p], i, g), at[Step(p, i) := g];
    forall x | x in at' && x != Step(p, i) ensures !IsEmpty(mem', at', x) {
      if x == p {
        assert mem'[at'[x]] == t;
      } else {
        assert at[x] != at[p] && at[x] != g;
        assert !IsEmpty(mem, at, x);
      }
    }
  }

  /** Writing an entry into the only table that may be empty leaves none empty. */
  lemma {:induction false} WrittenTight(cr3: nat, mem: Memory, at: Shape, p: Path, i: nat, w: Word)
    requires WellShaped(cr3, at) && p in at && at[p] in mem && WellCounted(mem[at[p]]) && i < ENTRIES && Present(w)
    requires EmptyOnlyAt(mem, at, p)
    ensures Tight(Written(mem, at[p], i, w), at)
  {
    AddEntrySpec(mem[at[p]], i, w);
    var t := AddEntry(mem[at[p]], i, w);
    HasEntry(t, i);
    hide AddEntry, EntryCount, WellCounted, Entry;
    var mem' := Written(mem, at[p], i, w);
    forall x | x in at ensures !IsEmpty(mem', at, x) {
      if x == p {
        assert mem'[at[x]] == t;
      } else {
        assert at[x] != at[p];
        assert !IsEmpty(mem, at, x);
      }
    }
  }

  lemma {:induction false} GrowTight(cr3: nat, kernel: Word, mem: Memory, at: Shape, pool: set<nat>,
                                     flat: map<Path, Word>, p: Path, i: nat, g: nat)
    requires Good(cr3, kernel, mem, at, pool, {}, flat) && EmptyOnlyAt(mem, at, p)
    requires p in at && p.Depth() < 3 && Step(p, i).InUser() && Step(p, i) !in at && g in pool
    ensures at[p] in mem && IsFrame(g) && EmptyOnlyAt(Grown(mem, at[p], i, g), at[Step(p, i) := g], Step(p, i))
  {
    hide EmptyOnlyAt, WellCounted;
    GrownEmpty(cr3, mem, at, p, i, g);
  }

  /** A table with a table below it is not empty. */
  lemma {:induction false} ParentTight(cr3: nat, kernel: Word, mem: Memory, at: Shape, pool: set<nat>,
                                       flat: map<Path, Word>, p: Path, i: nat)
    requires Good(cr3, kernel, mem, at, pool, {}, flat) && EmptyOnlyAt(mem, at, p)
    requires p in at && p.Depth() < 3 && Step(p, i).InUser() && Step(p, i) in at
    ensures Tight(mem, at)
  {
    assert EntryAgrees(mem, at, p, i);
    HasEntry(mem[at[p]], i);
    TightEnough(mem, at, p);
  }

  lemma {:induction false} MapTight(cr3: nat, kernel: Word, mem: Memory, at: Shape, pool: set<nat>,
                                    flat: map<Path, Word>, q: Path, w: Word)
    requires Good(cr3, kernel, mem, at, pool, {}, flat) && IsPage(q) && q.up in at && Present(w)
    requires EmptyOnlyAt(mem, at, q.up)
    ensures at[q.up] in mem && Tight(Written(mem, at[q.up], q.index, w), at)
  {
    hide EmptyOnlyAt, Tight, WellCounted;
    WrittenTight(cr3, mem, at, q.up, q.index, w);
  }

  lemma {:induction false} UnmapTight(cr3: nat, kernel: Word, mem: Memory, at: Shape, pool: set<nat>,
                                      flat: map<Path, Word>, q: Path)
    requires Good(cr3, kernel, mem, at, pool, {}, flat) && IsPage(q) && q.up in at && Tight(mem, at)
    ensures at[q.up] in mem && EmptyOnlyAt(Cleared(mem, at[q.up], q.index), at, q.up)
  {
    hide EmptyOnlyAt, Tight, WellCounted;
    ClearedEmpty(cr3, mem, at, q.up, q.index);
  }

  lemma {:induction false} ShrinkTight(cr3: nat, kernel: Word, mem: Memory, at: Shape, pool: set<nat>, loose: set<nat>,
                                       flat: map<Path, Word>, n: Path)
    requires Good(cr3, kernel, mem, at, pool, loose, flat) && n in at && n.Step? && EmptyOnlyAt(mem, at, n)
    ensures n.up in at && n.index < ENTRIES && at[n.up] in mem
    ensures EmptyOnlyAt(Cleared(mem, at[n.up], n.index), at - {n}, n.up)
  {
    hide EmptyOnlyAt, Tight, WellCounted;
    CutEmpty(cr3, mem, at, n);
  }

  /** In a space without empty tables every table is on the way to a mapped page. */
  lemma {:induction false} EveryTableNeeded(cr3: nat, kernel: Word, mem: Memory, at: Shape, pool: set<nat>,
                                            flat: map<Path, Word>, p: Path) returns (q: Path)
    requires Good(cr3, kernel, mem, at, pool, {}, flat) && Tight(mem, at) && p in at && p != Root
    ensures q in flat && Above(p, q)
    decreases 3 - p.Depth()
  {
    var t := mem[at[p]];
    assert !IsEmpty(mem, at, p);
    EmptyTable(t);
    var j :| 0 <= j < ENTRIES && Entry(t, j).Some?;
    var n := Step(p, j);
    if p.Depth() == 3 {
      assert Leaf(mem, at, n) == Lookup(flat, n);
      q := n;
    } else {
      assert EntryAgrees(mem, at, p, j);
      q := EveryTableNeeded(cr3, kernel, mem, at, pool, flat, n);
      AboveUp(p, n, q);
    }
  }

  lemma {:induction false} AboveUp(p: Path, n: Path, q: Path)
    requires n.Step? && n.up == p && Above(n, q)
    ensures Above(p, q)
    decreases q
  {
    if n != q { AboveUp(p, n, q.up); }
  }

  /** And in every space each table on the way to a mapped page is there. */
  lemma {:induction false} EveryTableThere(cr3: nat, kernel: Word, mem: Memory, at: Shape, pool: set<nat>,
                                           flat: map<Path, Word>, p: Path, q: Path)
    requires Good(cr3, kernel, mem, at, pool, {}, flat) && q in flat && Above(p, q) && p != q
    ensures p in at
  {
    assert Leaf(mem, at, q) == Lookup(flat, q);
    UpwardClosed(cr3, at, p, q.up);
  }

  lemma {:induction false} UpwardClosed(cr3: nat, at: Shape, p: Path, x: Path)
    requires WellShaped(cr3, at) && x in at && Above(p, x)
    ensures p in at
    decreases x
  {
    if p != x { UpwardClosed(cr3, at, p, x.up); }
  }
}
