/** Page-table entries and single page tables. An entry is a 64-bit word; the number of present
    entries of a table hides in bits 52..62 of its entry 0, whatever entry 0 itself maps. */
module PageEntry {
  import BitUtils
  import opened Wrappers

  type Word = w: nat | w < 0x1_0000_0000_0000_0000

  const ENTRIES: nat := 512
  const COUNT_UNIT: nat := 0x10_0000_0000_0000
  const COUNT_LIMIT: nat := 2048

  predicate Present(w: Word) { w % 2 == 1 }

  /** The frame address: the word with everything outside bits 12..51 masked off. */
  function Address(w: Word): nat { w % COUNT_UNIT / 4096 * 4096 }

  function Count(w: Word): nat { w / COUNT_UNIT % COUNT_LIMIT }

  /** The word with its count bits cleared. */
  function NoCount(w: Word): (r: Word) { w - Count(w) * COUNT_UNIT }

  /** The word with its count bits replaced by the low 11 bits of `n`. */
  function WithCount(w: Word, n: int): (r: Word) {
    WithCountFits(w, n);
    NoCount(w) + n % COUNT_LIMIT * COUNT_UNIT
  }

  lemma WithCountFits(w: Word, n: int)
    ensures 0 <= NoCount(w) + n % COUNT_LIMIT * COUNT_UNIT < 0x1_0000_0000_0000_0000
  {
  }

  function ClearPresent(w: Word): (r: Word) { w - w % 2 }

  /** Rewriting the count disturbs nothing else in the word. */
  lemma WithCountSpec(w: Word, n: nat)
    requires n < COUNT_LIMIT
    ensures Count(WithCount(w, n)) == n
    ensures NoCount(WithCount(w, n)) == NoCount(w)
    ensures Present(WithCount(w, n)) == Present(w)
  {
    var top, r := w / COUNT_UNIT / COUNT_LIMIT, w % COUNT_UNIT;
    CountOf(top, Count(w), r);
    CountOf(top, n, r);
  }

  lemma CountOf(top: nat, n: nat, r: nat)
    requires n < COUNT_LIMIT && r < COUNT_UNIT
    ensures ((top * COUNT_LIMIT + n) * COUNT_UNIT + r) / COUNT_UNIT % COUNT_LIMIT == n
    ensures ((top * COUNT_LIMIT + n) * COUNT_UNIT + r) % COUNT_UNIT == r
    ensures ((top * COUNT_LIMIT + n) * COUNT_UNIT + r) % 2 == r % 2
  {
    var q := top * COUNT_LIMIT + n;
    DigitsOf(q, COUNT_UNIT, r);
    DigitsOf(top, COUNT_LIMIT, n);
    EvenPart(q, r);
  }

  lemma {:induction false} DigitsOf(q: nat, unit: nat, r: nat)
    requires r < unit
    ensures (q * unit + r) / unit == q && (q * unit + r) % unit == r
  {
    BitUtils.DivUnique(q * unit + r, unit, q);
  }

  lemma {:induction false} EvenPart(q: nat, r: nat)
    ensures (q * COUNT_UNIT + r) % 2 == r % 2
  {
  }

  /** The address and the present bit do not depend on the count. */
  lemma NoCountSpec(w: Word)
    ensures Address(NoCount(w)) == Address(w)
    ensures Present(NoCount(w)) == Present(w)
    ensures Count(NoCount(w)) == 0 && NoCount(NoCount(w)) == NoCount(w)
  {
    assert NoCount(w) == WithCount(w, 0);
    WithCountSpec(w, 0);
    CountOf(w / COUNT_UNIT / COUNT_LIMIT, 0, w % COUNT_UNIT);
  }

  /** Bit 7, which marks a huge page in an upper table. */
  predicate Huge(w: Word) { w / 128 % 2 == 1 }

  lemma HugeNoCount(w: Word)
    ensures Huge(NoCount(w)) == Huge(w)
  {
    var c := Count(w) * 0x1000_0000_0000;
    assert w == NoCount(w) + 256 * c;
    HighBits(NoCount(w), c);
  }

  lemma HighBits(x: nat, c: nat)
    ensures (x + 256 * c) / 128 % 2 == x / 128 % 2
  {
    assert (x + 256 * c) / 128 == x / 128 + 2 * c;
  }

  lemma ClearPresentSpec(w: Word)
    ensures !Present(ClearPresent(w)) && Count(ClearPresent(w)) == Count(w)
  {
    assert ClearPresent(w) / COUNT_UNIT == w / COUNT_UNIT;
  }

  // ---------------------------------------------------------------------------
  // One table
  // ---------------------------------------------------------------------------

  type Table = t: seq<Word> | |t| == ENTRIES witness seq(ENTRIES, i => 0)

  function EntryCount(t: Table): nat { Count(t[0]) }

  function SetCount(t: Table, n: int): Table { t[0 := WithCount(t[0], n)] }

  /** What the table says about index `i`: nothing, or a word (count bits aside). */
  function Entry(t: Table, i: nat): Option<Word>
    requires i < ENTRIES
  {
    if Present(t[i]) then Some(NoCount(t[i])) else None
  }

  /** `add_entry`: the count is read before and written after the entry, since entry 0 holds it. */
  function AddEntry(t: Table, i: nat, w: Word): Table
    requires i < ENTRIES
  {
    SetCount(t[i := w], EntryCount(t) + if Present(t[i]) then 0 else 1)
  }

  function RemoveEntry(t: Table, i: nat): Table
    requires i < ENTRIES
  {
    if Present(t[i]) then
      var u := t[i := ClearPresent(t[i])];
      SetCount(u, EntryCount(u) - 1)
    else t
  }

  function NumPresent(s: seq<Word>): (n: nat)
    ensures n <= |s|
  {
    if s == [] then 0
    else NumPresent(s[..|s| - 1]) + if Present(s[|s| - 1]) then 1 else 0
  }

  /** The hidden count is the number of present entries. */
  predicate WellCounted(t: Table) { EntryCount(t) == NumPresent(t) }

  lemma {:induction false} NumPresentUpdate(s: seq<Word>, i: nat, w: Word)
    requires i < |s|
    ensures NumPresent(s[i := w]) ==
            NumPresent(s) - (if Present(s[i]) then 1 else 0) + (if Present(w) then 1 else 0)
  {
    var n := |s| - 1;
    if i < n {
      NumPresentUpdate(s[..n], i, w);
      assert s[i := w][..n] == s[..n][i := w];
    } else {
      assert s[i := w][..n] == s[..n];
    }
  }

  lemma {:induction false} NumPresentZero(s: seq<Word>)
    ensures NumPresent(s) == 0 <==> forall i :: 0 <= i < |s| ==> !Present(s[i])
  {
    if s != [] { NumPresentZero(s[..|s| - 1]); }
  }

  lemma SetCountSpec(t: Table, n: nat)
    requires n < COUNT_LIMIT
    ensures EntryCount(SetCount(t, n)) == n
    ensures NumPresent(SetCount(t, n)) == NumPresent(t)
    ensures forall j :: 0 <= j < ENTRIES ==> Entry(SetCount(t, n), j) == Entry(t, j)
  {
    WithCountSpec(t[0], n);
    NumPresentUpdate(t, 0, WithCount(t[0], n));
  }

  /** Adding an entry keeps the count right and changes what the table says at `i` only, also when
      `i` is the entry that holds the count. */
  lemma AddEntrySpec(t: Table, i: nat, w: Word)
    requires WellCounted(t) && i < ENTRIES && Present(w)
    ensures WellCounted(AddEntry(t, i, w))
    ensures forall j :: 0 <= j < ENTRIES ==>
              Entry(AddEntry(t, i, w), j) == if j == i then Some(NoCount(w)) else Entry(t, j)
  {
    NumPresentUpdate(t, i, w);
    SetCountSpec(t[i := w], EntryCount(t) + if Present(t[i]) then 0 else 1);
  }

  lemma RemoveEntrySpec(t: Table, i: nat)
    requires WellCounted(t) && i < ENTRIES
    ensures WellCounted(RemoveEntry(t, i))
    ensures forall j :: 0 <= j < ENTRIES ==>
              Entry(RemoveEntry(t, i), j) == if j == i then None else Entry(t, j)
  {
    if Present(t[i]) {
      ClearPresentSpec(t[i]);
      NumPresentUpdate(t, i, ClearPresent(t[i]));
      var u := t[i := ClearPresent(t[i])];
      assert EntryCount(u) == EntryCount(t);
      assert NumPresent(t) >= 1 by { NumPresentZero(t); }
      SetCountSpec(u, EntryCount(u) - 1);
    }
  }

  /** A table whose count is zero says nothing anywhere. */
  lemma EmptyTable(t: Table)
    requires WellCounted(t)
    ensures EntryCount(t) == 0 <==> forall j :: 0 <= j < ENTRIES ==> Entry(t, j).None?
  {
    NumPresentZero(t);
    assert forall j :: 0 <= j < ENTRIES ==> (Entry(t, j).None? <==> !Present(t[j]));
  }

  function ZeroTable(): Table { seq(ENTRIES, i => 0) }

  lemma ZeroTableSpec()
    ensures WellCounted(ZeroTable())
    ensures forall j :: 0 <= j < ENTRIES ==> Entry(ZeroTable(), j).None?
  {
    NumPresentZero(ZeroTable());
  }
}
