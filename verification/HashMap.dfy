/** The kernel's hash map: linear open addressing with tombstones, doubled when three quarters full. */
module HashMap {
  import opened ProbeTable
  import opened Wrappers

  /** `Panics` is a division by zero. */
  datatype Result<+T> = Ok(value: T) | OutOfMem | Panics

  function Lookup<K, V>(m: map<K, V>, key: K): Option<V> { if key in m then Some(m[key]) else None }

  /** No tombstone comes before the key on its probe path. */
  ghost predicate Direct<K, V>(data: seq<Cell<K, V>>, hash: Hasher<K>, key: K) {
    forall i, j :: 0 <= i < |data| && 0 <= j < |data| && data[i].Occupied? && data[i].key == key
                   && Dist(Start(hash, key, |data|), j, |data|) < Dist(Start(hash, key, |data|), i, |data|) ==>
      data[j].Occupied?
  }

  /** Cells strictly before `i` on the probe path of `key` are occupied by other keys. */
  ghost predicate Passed<K, V>(data: seq<Cell<K, V>>, hash: Hasher<K>, key: K, i: nat)
    requires i < |data|
  {
    var n, a := |data|, Start(hash, key, |data|);
    forall j :: 0 <= j < n && Dist(a, j, n) < Dist(a, i, n) ==> data[j].Occupied? && data[j].key != key
  }

  lemma {:induction false} PassOne<K, V>(data: seq<Cell<K, V>>, hash: Hasher<K>, key: K, i: nat, free: nat)
    requires i < |data| && Passed(data, hash, key, i) && data[i].Occupied? && data[i].key != key
    requires free < |data| && data[free].IsFree()
    ensures var n, a := |data|, Start(hash, key, |data|);
            && Next(i, n) < n && Dist(a, Next(i, n), n) == Dist(a, i, n) + 1 && Passed(data, hash, key, Next(i, n))
  {
    var n, a := |data|, Start(hash, key, |data|);
    NextSpec(a, i, n);
    if Dist(a, free, n) == Dist(a, i, n) { DistInjective(a, free, i, n); }
    forall j | 0 <= j < n && Dist(a, j, n) <= Dist(a, i, n) ensures data[j].Occupied? && data[j].key != key {
      if Dist(a, j, n) == Dist(a, i, n) { DistInjective(a, j, i, n); }
    }
  }

  /** A free cell with occupied cells before it comes before the key's own cell. */
  lemma {:induction false} FreeBeforeKey<K, V>(data: seq<Cell<K, V>>, hash: Hasher<K>, m: map<K, V>, key: K, i: nat)
    requires Represents(data, hash, m) && FirstFree(data, hash, key, i) && key in m
    ensures !Direct(data, hash, key)
  {
    var n, a := |data|, Start(hash, key, |data|);
    assert Has(data, key, m[key]);
    var j :| 0 <= j < n && data[j] == Occupied(key, m[key]);
    if Dist(a, i, n) == Dist(a, j, n) { DistInjective(a, i, j, n); }
    assert Dist(a, i, n) < Dist(a, j, n);
  }

  /** A key found before any free cell is found directly. */
  lemma {:induction false} FoundDirect<K, V>(data: seq<Cell<K, V>>, hash: Hasher<K>, key: K, i: nat)
    requires Unique(data) && i < |data| && Passed(data, hash, key, i) && data[i].Occupied? && data[i].key == key
    ensures Direct(data, hash, key)
  {
    forall k, j | 0 <= k < |data| && 0 <= j < |data| && data[k].Occupied? && data[k].key == key
                  && Dist(Start(hash, key, |data|), j, |data|) < Dist(Start(hash, key, |data|), k, |data|)
      ensures data[j].Occupied?
    {
      assert k == i;
    }
  }

  lemma {:induction false} NoTombstonesDirect<K, V>(data: seq<Cell<K, V>>, hash: Hasher<K>, key: K)
    requires AllReachable(data, hash) && forall i :: 0 <= i < |data| ==> !data[i].Deleted?
    ensures Direct(data, hash, key)
  {
    forall i, j | 0 <= i < |data| && 0 <= j < |data| && data[i].Occupied? && data[i].key == key
                  && Dist(Start(hash, key, |data|), j, |data|) < Dist(Start(hash, key, |data|), i, |data|)
      ensures data[j].Occupied?
    {
      assert Reachable(data, hash, i);
    }
  }

  ghost function KeysOf<K, V>(data: seq<Cell<K, V>>): set<K> {
    set i | 0 <= i < |data| && data[i].Occupied? :: data[i].key
  }

  lemma {:induction false} KeysStep<K, V>(cells: seq<Cell<K, V>>, i: nat)
    requires Unique(cells) && i < |cells| && cells[i].Occupied?
    ensures cells[i].key !in KeysOf(cells[..i])
    ensures KeysOf(cells[..i + 1]) == KeysOf(cells[..i]) + {cells[i].key}
  {
    var a, b := cells[..i], cells[..i + 1];
    assert forall j :: 0 <= j < i ==> a[j] == cells[j] && b[j] == cells[j];
    assert b[i] == cells[i];
    forall k | k in KeysOf(b) ensures k in KeysOf(a) + {cells[i].key} {
      var j :| 0 <= j < |b| && b[j].Occupied? && b[j].key == k;
      if j < i { assert a[j] == b[j]; }
    }
    forall k | k in KeysOf(a) ensures k in KeysOf(b) {
      var j :| 0 <= j < |a| && a[j].Occupied? && a[j].key == k;
      assert b[j] == a[j];
    }
  }

  lemma {:induction false} KeysSkip<K, V>(cells: seq<Cell<K, V>>, i: nat)
    requires i < |cells| && !cells[i].Occupied?
    ensures KeysOf(cells[..i + 1]) == KeysOf(cells[..i])
  {
    var a, b := cells[..i], cells[..i + 1];
    assert forall j :: 0 <= j < i ==> a[j] == cells[j] && b[j] == cells[j];
    forall k | k in KeysOf(b) ensures k in KeysOf(a) {
      var j :| 0 <= j < |b| && b[j].Occupied? && b[j].key == k;
      assert j < i && a[j] == b[j];
    }
    forall k | k in KeysOf(a) ensures k in KeysOf(b) {
      var j :| 0 <= j < |a| && a[j].Occupied? && a[j].key == k;
      assert b[j] == a[j];
    }
  }

  lemma {:induction false} AllKeys<K, V>(cells: seq<Cell<K, V>>, m: map<K, V>)
    requires Holds(cells, m)
    ensures KeysOf(cells) == m.Keys
  {
    forall k | k in m ensures k in KeysOf(cells) {
      assert Has(cells, k, m[k]);
    }
  }

  lemma {:induction false} Parts<K, V>(data: seq<Cell<K, V>>, hash: Hasher<K>, m: map<K, V>)
    requires Represents(data, hash, m)
    ensures Holds(data, m) && Unique(data)
  {
  }

  /** No tombstone that was not there before. */
  ghost predicate KeepsClean<K, V>(before: seq<Cell<K, V>>, after: seq<Cell<K, V>>) {
    |before| == |after| && forall i :: 0 <= i < |after| && after[i].Deleted? ==> before[i].Deleted?
  }

  class HashMap<K(==), V> {
    const hash: Hasher<K>
    var data: seq<Cell<K, V>>
    var len: nat
    /** What the map stands for. */
    ghost var model: map<K, V>

    ghost predicate Valid()
      reads this
    {
      Represents(data, hash, model) && Filled(data) <= len
    }

    constructor (hash: Hasher<K>)
      ensures Valid() && model == map[] && this.hash == hash && data == [] && len == 0
    {
      this.hash := hash;
      data, len, model := [], 0, map[];
    }

    /** An empty table of `n` cells, when there is memory for it. */
    constructor WithCapacity(hash: Hasher<K>, n: nat)
      ensures Valid() && model == map[] && this.hash == hash && len == 0
      ensures |data| == n && forall i :: 0 <= i < n ==> data[i].Empty?
    {
      this.hash := hash;
      data, len, model := seq(n, i => Empty), 0, map[];
      new;
      AllEmpty(data);
    }

    /** Past a load of three quarters, tombstones included. */
    predicate NeedsRehash()
      reads this
    {
      4 * len > 3 * |data|
    }

    /** A table below the load limit has an empty cell, so one without is rehashed by the next insertion. */
    lemma {:induction false} RoomBelowLimit()
      requires Valid() && data != [] && !NeedsRehash()
      ensures exists i :: 0 <= i < |data| && data[i].Empty?
    {
      var i := EmptyCell(data);
      assert data[i].Empty?;
    }

    /** `clear`: the cells go, and what was counted of them stays. */
    method Clear()
      modifies this
      ensures Valid() && model == map[] && data == [] && len == old(len)
    {
      data, model := [], map[];
    }

    /** A table without cells that counts some: it was cleared, and not made by a constructor. */
    predicate Stranded()
      reads this
    {
      data == [] && len > 0
    }

    /** Inserting the key acts as the map update. */
    ghost predicate InsertSafe(key: K)
      reads this
    {
      key !in model || NeedsRehash() || Direct(data, hash, key)
    }

    method GetIndexOfKey(key: K) returns (r: Option<nat>)
      requires Valid()
      ensures r.Some? <==> key in model
      ensures r.Some? ==> r.value < |data| && data[r.value] == Occupied(key, model[key])
    {
      if |data| == 0 { return None; }
      var n := |data|;
      var start := Start(hash, key, n);
      var i := start;
      while true
        invariant 0 <= i < n
        invariant forall j :: 0 <= j < n && Dist(start, j, n) < Dist(start, i, n) ==>
                    !(data[j].Occupied? && data[j].key == key)
        decreases n - Dist(start, i, n)
      {
        if data[i].Empty? {
          EmptyMeansAbsent(key, i);
          return None;
        }
        if data[i].Occupied? && data[i].key == key { return Some(i); }
        NextSpec(start, i, n);
        forall j | 0 <= j < n && Dist(start, j, n) <= Dist(start, i, n)
          ensures !(data[j].Occupied? && data[j].key == key)
        {
          if Dist(start, j, n) == Dist(start, i, n) { DistInjective(start, j, i, n); }
        }
        i := Next(i, n);
        if i == start {
          assert forall j :: 0 <= j < n ==> Dist(start, j, n) <= n - 1;
          assert key in model ==> Has(data, key, model[key]);
          return None;
        }
      }
    }

    /** An empty cell ends the probe path of every key behind it. */
    lemma {:induction false} EmptyMeansAbsent(key: K, i: nat)
      requires Valid() && i < |data| && data[i].Empty?
      requires var n, start := |data|, Start(hash, key, |data|);
               forall j :: 0 <= j < n && Dist(start, j, n) < Dist(start, i, n) ==>
                 !(data[j].Occupied? && data[j].key == key)
      ensures key !in model
    {
      var n, start := |data|, Start(hash, key, |data|);
      forall j | 0 <= j < n && data[j].Occupied? ensures data[j].key != key {
        assert Reachable(data, hash, j);
        if Dist(start, i, n) == Dist(start, j, n) { DistInjective(start, i, j, n); }
      }
      assert key in model ==> Has(data, key, model[key]);
    }

    method Get(key: K) returns (r: Option<V>)
      requires Valid()
      ensures r == Lookup(model, key)
    {
      var i := GetIndexOfKey(key);
      r := if i.Some? then Some(data[i.value].value) else None;
    }

    method Remove(key: K) returns (r: Option<V>)
      requires Valid()
      modifies this
      ensures Valid() && model == old(model) - {key} && r == Lookup(old(model), key)
      ensures len == old(len) && (r.None? ==> data == old(data))
      ensures forall i :: 0 <= i < |old(data)| && old(data)[i].Occupied? && old(data)[i].key == key ==>
                data == old(data)[i := Deleted]
    {
      var i := GetIndexOfKey(key);
      if i.None? { return None; }
      r := Some(data[i.value].value);
      RemoveKey(data, hash, model, i.value, key);
      FilledUpdate(data, i.value, Deleted);
      data := data[i.value := Deleted];
      model := model - {key};
    }

    /** `oom` says whether memory for a larger table is refused when asked for. Twice no cells are no cells, so
        a cleared table has no place for the key. */
    method Insert(key: K, value: V, oom: bool) returns (r: Result<Option<V>>)
      requires Valid()
      modifies this
      ensures r.OutOfMem? <==> oom && (old(NeedsRehash()) || old(data) == [])
      ensures r.Panics? <==> !oom && old(Stranded())
      ensures r.OutOfMem? ==> Valid() && model == old(model)
      ensures r == Ok(None) ==> len > 0
      ensures r.Ok? && old(InsertSafe(key)) ==>
                Valid() && model == old(model)[key := value] && r.value == Lookup(old(model), key)
      ensures r.Ok? && !old(InsertSafe(key)) ==> !Unique(data) && r.value == None
      ensures !old(NeedsRehash()) && old(data) != [] ==> KeepsClean(old(data), data)
      ensures !old(NeedsRehash()) && old(data) != [] ==> len == old(len) + if r == Ok(None) then 1 else 0
      ensures !old(NeedsRehash()) && old(data) != [] && r == Ok(None) ==> Put(old(data), data, hash, key, value)
      decreases if NeedsRehash() then 1 else 0, 1
    {
      var ok := TryRehash(oom);
      if !ok { return OutOfMem; }
      if |data| == 0 { return Panics; }
      if old(NeedsRehash()) { NoTombstonesDirect(data, hash, key); }
      hide Represents, Unique, Direct, Filled, KeepsClean, Put;
      var was := Store(key, value);
      r := Ok(was);
    }

    /** Insertion once there is room. */
    method Store(key: K, value: V) returns (was: Option<V>)
      requires Valid() && Filled(data) < |data|
      modifies this
      ensures (was.None? ==> len == old(len) + 1) && (was.Some? ==> len == old(len))
      ensures key !in old(model) || Direct(old(data), hash, key) ==>
                Valid() && model == old(model)[key := value] && was == Lookup(old(model), key)
      ensures key in old(model) && !Direct(old(data), hash, key) ==> !Unique(data) && was == None
      ensures KeepsClean(old(data), data) && (was.None? ==> Put(old(data), data, hash, key, value))
    {
      hide Represents, Unique, Direct, Filled, FirstFree, Passed;
      var i := FindCell(key);
      if data[i].IsFree() {
        Fill(i, key, value);
        was := None;
      } else {
        var v := Replace(i, key, value);
        was := Some(v);
      }
    }

    /** The cell an insertion writes: the first on the key's probe path that is free or holds the key.
        The probe ends because some cell is free. */
    method FindCell(key: K) returns (i: nat)
      requires Filled(data) < |data|
      ensures i < |data| && Passed(data, hash, key, i)
      ensures data[i].IsFree() || (data[i].Occupied? && data[i].key == key)
      ensures data[i].IsFree() ==> FirstFree(data, hash, key, i)
    {
      ghost var free := EmptyCell(data);
      var n := |data|;
      i := Start(hash, key, n);
      while !data[i].IsFree() && data[i].key != key
        invariant 0 <= i < n && Passed(data, hash, key, i)
        decreases n - Dist(Start(hash, key, n), i, n)
      {
        PassOne(data, hash, key, i, free);
        i := Next(i, n);
      }
    }

    /** Writes over the key's own cell. */
    method Replace(i: nat, key: K, value: V) returns (was: V)
      requires Valid() && i < |data| && Passed(data, hash, key, i) && data[i].Occupied? && data[i].key == key
      modifies this
      ensures data == old(data)[i := Occupied(key, value)] && len == old(len)
      ensures Valid() && key in old(model) && model == old(model)[key := value] && was == old(model)[key]
      ensures Direct(old(data), hash, key)
    {
      FoundDirect(data, hash, key, i);
      ReplaceValue(data, hash, model, i, key, value);
      FilledUpdate(data, i, Occupied(key, value));
      was := data[i].value;
      data := data[i := Occupied(key, value)];
      model := model[key := value];
    }

    /** Fills the first free cell of the probe path. */
    method Fill(i: nat, key: K, value: V)
      requires Valid() && FirstFree(data, hash, key, i)
      modifies this
      ensures data == old(data)[i := Occupied(key, value)] && len == old(len) + 1
      ensures key !in old(model) ==> Valid() && model == old(model)[key := value]
      ensures key in old(model) ==> !Unique(data) && !Direct(old(data), hash, key)
    {
      if key !in model {
        PlaceAbsent(data, hash, model, i, key, value);
        model := model[key := value];
      } else {
        PlacePresent(data, hash, model, i, key, value);
        FreeBeforeKey(data, hash, model, key, i);
      }
      FilledUpdate(data, i, Occupied(key, value));
      data := data[i := Occupied(key, value)];
      len := len + 1;
    }

    /** Afterwards a free cell exists, unless the table was cleared, and after a rehash no tombstone is left. */
    method TryRehash(oom: bool) returns (ok: bool)
      requires Valid()
      modifies this
      ensures ok <==> !(oom && (old(NeedsRehash()) || old(data) == []))
      ensures Valid() && model == old(model)
      ensures ok && !old(Stranded()) ==> Filled(data) < |data|
      ensures ok ==>
                |data| == if old(NeedsRehash()) then 2 * |old(data)| else if old(data) == [] then 1 else |old(data)|
      ensures ok && old(NeedsRehash()) ==> forall i :: 0 <= i < |data| ==> !data[i].Deleted?
      ensures !old(NeedsRehash()) && old(data) != [] ==> data == old(data) && len == old(len)
      decreases if NeedsRehash() then 1 else 0, 0
    {
      ok := true;
      if NeedsRehash() {
        if oom { return false; }
        Rehash(oom);
      } else if |data| == 0 {
        if oom { return false; }
        data := [Empty];
        assert Filled(data) == Filled(data[1..]);
      }
    }

    /** Moves every entry into a table of twice the size. */
    method Rehash(oom: bool)
      requires Valid() && NeedsRehash()
      modifies this
      ensures Valid() && model == old(model) && |data| == 2 * |old(data)| && (data != [] ==> Filled(data) < |data|)
      ensures forall i :: 0 <= i < |data| ==> !data[i].Deleted?
      decreases 0, 3
    {
      hide Moved, Represents, Holds, Unique, Filled, KeysOf;
      var cells := data;
      ghost var m := model;
      Parts(cells, hash, m);
      Reset(2 * |cells|);
      MovedNone(cells, m);
      var i := 0;
      while i < |cells|
        invariant 0 <= i <= |cells|
        invariant Moved(cells, m, i)
      {
        MoveCell(cells, m, i, oom);
        i := i + 1;
      }
      MovedAll(cells, m);
    }

    lemma {:induction false} MovedNone(cells: seq<Cell<K, V>>, m: map<K, V>)
      requires Valid() && |data| == 2 * |cells| && len == 0 && model == map[]
      requires forall i :: 0 <= i < |data| ==> data[i].Empty?
      ensures Moved(cells, m, 0)
    {
      assert KeysOf(cells[..0]) == {};
    }

    lemma {:induction false} MovedAll(cells: seq<Cell<K, V>>, m: map<K, V>)
      requires Moved(cells, m, |cells|) && Holds(cells, m)
      ensures Valid() && model == m && |data| == 2 * |cells| && (data != [] ==> Filled(data) < |data|)
      ensures forall i :: 0 <= i < |data| ==> !data[i].Deleted?
    {
      assert cells[..|cells|] == cells;
      AllKeys(cells, m);
    }

    /** The first `i` cells of the old table have been moved, and nothing else is here. */
    ghost predicate Moved(cells: seq<Cell<K, V>>, m: map<K, V>, i: nat)
      reads this
      requires i <= |cells|
    {
      && Valid() && |data| == 2 * |cells| && len <= i
      && model.Keys == KeysOf(cells[..i])
      && (forall k :: k in model ==> k in m && model[k] == m[k])
      && (forall j :: 0 <= j < |data| ==> !data[j].Deleted?)
    }

    method MoveCell(cells: seq<Cell<K, V>>, ghost m: map<K, V>, i: nat, oom: bool)
      requires Unique(cells) && Holds(cells, m) && i < |cells| && Moved(cells, m, i)
      modifies this
      ensures Moved(cells, m, i + 1)
      decreases 0, 2
    {
      if cells[i].Occupied? {
        KeysStep(cells, i);
        assert cells[i].key in m && m[cells[i].key] == cells[i].value;
        hide Represents, Filled, Direct, KeysOf, Unique, Holds;
        var r := Insert(cells[i].key, cells[i].value, oom);
      } else {
        KeysSkip(cells, i);
      }
    }

    method Reset(n: nat)
      modifies this
      ensures Valid() && |data| == n && len == 0 && model == map[]
      ensures forall i :: 0 <= i < |data| ==> data[i].Empty?
    {
      data, len, model := seq(n, i => Empty), 0, map[];
      AllEmpty(data);
    }
  }

  lemma {:induction false} BehindTombstone<K, V>(data: seq<Cell<K, V>>, hash: Hasher<K>, key: K)
    requires |data| > 1 && Start(hash, key, |data|) == 0
    requires data[0].Deleted? && data[1].Occupied? && data[1].key == key
    ensures !Direct(data, hash, key)
  {
    assert Dist(0, 0, |data|) < Dist(0, 1, |data|);
  }

  /** An insertion that fills cell `i` on the probe path from cell 0. */
  method InsertAt<K(==), V>(h: HashMap<K, V>, i: nat, key: K, value: V)
    requires h.Valid() && i < |h.data| && !h.NeedsRehash() && Start(h.hash, key, |h.data|) == 0 && h.data[i].IsFree()
    requires forall j :: 0 <= j < i ==> h.data[j].Occupied? && h.data[j].key != key
    requires key in h.model ==> !Direct(h.data, h.hash, key)
    modifies h
    ensures h.data == old(h.data)[i := Occupied(key, value)] && h.len == old(h.len) + 1
    ensures key !in old(h.model) ==> h.Valid() && h.model == old(h.model)[key := value]
    ensures key in old(h.model) ==> !Unique(h.data)
  {
    hide Represents, Filled, Direct, Start, Unique;
    ghost var before := h.data;
    FirstFreeFromZero(before, h.hash, key, i);
    hide FirstFree;
    var r := h.Insert(key, value, false);
    PutAt(before, h.data, h.hash, i, key, value);
  }

  /** Three keys that start at the same of four cells, the first one removed and the second inserted again:
      no rehash is due, and the second key is then in two cells. */
  method InsertTwice<K(==), V>(hash: Hasher<K>, a: K, b: K, c: K, u: V, v: V, w: V, x: V) returns (h: HashMap<K, V>)
    requires a != b && a != c && b != c
    requires Start(hash, a, 4) == 0 && Start(hash, b, 4) == 0 && Start(hash, c, 4) == 0
    ensures h.data == [Occupied(b, x), Occupied(b, v), Occupied(c, w), Empty] && h.len == 4
    ensures !Unique(h.data)
  {
    hide Represents, Filled, Direct, FirstFree, Start;
    h := new HashMap<K, V>.WithCapacity(hash, 4);
    InsertAt(h, 0, a, u);
    InsertAt(h, 1, b, v);
    InsertAt(h, 2, c, w);
    assert h.data == [Occupied(a, u), Occupied(b, v), Occupied(c, w), Empty];
    assert h.data[0].key == a;
    var _ := h.Remove(a);
    assert h.data == [Deleted, Occupied(b, v), Occupied(c, w), Empty];
    BehindTombstone(h.data, hash, b);
    InsertAt(h, 0, b, x);
  }

  /** One key and `clear`: a valid table that stands for the empty map and in which every insertion panics. */
  method ClearStrands<K(==), V>(hash: Hasher<K>, key: K, value: V) returns (h: HashMap<K, V>)
    ensures h.Valid() && h.model == map[] && h.Stranded()
  {
    h := new HashMap<K, V>(hash);
    var first := h.Insert(key, value, false);
    h.Clear();
  }
}
