/** The cells of the open-addressing hash map: cyclic probe paths over empty, occupied and deleted
    cells, and the finite map they stand for. */
module ProbeTable {
  datatype Cell<K, V> = Empty | Occupied(key: K, value: V) | Deleted {
    predicate IsFree() { Empty? || Deleted? }
  }

  type Hasher<!K> = K -> nat

  /** How many steps a probe from cell `a` takes to reach cell `b` of `n`, wrapping around. */
  function Dist(a: nat, b: nat, n: nat): nat
    requires a < n && b < n
  {
    if a <= b then b - a else b + n - a
  }

  function Next(i: nat, n: nat): nat
    requires i < n
  {
    (i + 1) % n
  }

  lemma {:induction false} NextSpec(a: nat, i: nat, n: nat)
    requires a < n && i < n
    ensures Next(i, n) == (if i + 1 == n then 0 else i + 1)
    ensures Next(i, n) < n
    ensures Next(i, n) == a || Dist(a, Next(i, n), n) == Dist(a, i, n) + 1
    ensures Next(i, n) == a <==> Dist(a, i, n) == n - 1
  {
    NextIs(i, n);
    hide Next;
  }

  lemma {:induction false} NextIs(i: nat, n: nat)
    requires i < n
    ensures Next(i, n) == if i + 1 == n then 0 else i + 1
  {
    if i + 1 < n { assert (i + 1) / n == 0; }
  }

  lemma {:induction false} DistInjective(a: nat, i: nat, j: nat, n: nat)
    requires a < n && i < n && j < n && Dist(a, i, n) == Dist(a, j, n)
    ensures i == j
  {
  }

  function Start<K>(hash: Hasher<K>, key: K, n: nat): nat
    requires n > 0
  {
    hash(key) % n
  }

  /** Every cell that a probe for the key of cell `i` passes before `i` satisfies: not empty. */
  ghost predicate Reachable<K, V>(data: seq<Cell<K, V>>, hash: Hasher<K>, i: nat)
    requires i < |data| && data[i].Occupied?
  {
    var n, a := |data|, Start(hash, data[i].key, |data|);
    forall j :: 0 <= j < n && Dist(a, j, n) < Dist(a, i, n) ==> !data[j].Empty?
  }

  ghost predicate Unique<K, V>(data: seq<Cell<K, V>>) {
    forall i, j :: 0 <= i < j < |data| && data[i].Occupied? && data[j].Occupied? ==> data[i].key != data[j].key
  }

  ghost predicate Has<K, V>(data: seq<Cell<K, V>>, key: K, value: V) {
    exists i :: 0 <= i < |data| && data[i] == Occupied(key, value)
  }

  /** The cells hold exactly the entries of the map. */
  ghost predicate Holds<K, V>(data: seq<Cell<K, V>>, m: map<K, V>) {
    && (forall i :: 0 <= i < |data| && data[i].Occupied? ==> data[i].key in m && m[data[i].key] == data[i].value)
    && (forall k :: k in m ==> Has(data, k, m[k]))
  }

  ghost predicate AllReachable<K, V>(data: seq<Cell<K, V>>, hash: Hasher<K>) {
    forall i :: 0 <= i < |data| && data[i].Occupied? ==> Reachable(data, hash, i)
  }

  /** The table stands for the map, and every key in it is found by probing. */
  ghost predicate Represents<K, V>(data: seq<Cell<K, V>>, hash: Hasher<K>, m: map<K, V>) {
    Unique(data) && Holds(data, m) && AllReachable(data, hash)
  }

  /** The cells that are not empty, tombstones included. */
  function Filled<K, V>(data: seq<Cell<K, V>>): nat {
    if data == [] then 0 else (if data[0].Empty? then 0 else 1) + Filled(data[1..])
  }

  lemma {:induction false} FilledConcat<K, V>(a: seq<Cell<K, V>>, b: seq<Cell<K, V>>)
    ensures Filled(a + b) == Filled(a) + Filled(b)
  {
    if a == [] {
      assert a + b == b;
    } else {
      FilledConcat(a[1..], b);
      assert (a + b)[1..] == a[1..] + b;
    }
  }

  lemma {:induction false} FilledUpdate<K, V>(data: seq<Cell<K, V>>, i: nat, c: Cell<K, V>)
    requires i < |data|
    ensures Filled(data[i := c]) == Filled(data) - (if data[i].Empty? then 0 else 1) + (if c.Empty? then 0 else 1)
  {
    var a, b := data[..i], data[i + 1..];
    FilledConcat(a + [c], b);
    FilledConcat(a, [c]);
    FilledConcat(a + [data[i]], b);
    FilledConcat(a, [data[i]]);
    assert data == a + [data[i]] + b && data[i := c] == a + [c] + b;
    assert Filled([c]) == (if c.Empty? then 0 else 1) + Filled([c][1..]);
    assert Filled([data[i]]) == (if data[i].Empty? then 0 else 1) + Filled([data[i]][1..]);
  }

  /** A table that is not full has an empty cell. */
  lemma {:induction false} EmptyCell<K, V>(data: seq<Cell<K, V>>) returns (i: nat)
    requires Filled(data) < |data|
    ensures i < |data| && data[i].Empty?
  {
    if data[0].Empty? {
      i := 0;
    } else {
      i := EmptyCell(data[1..]);
      i := i + 1;
    }
  }

  lemma {:induction false} AllEmpty<K, V>(data: seq<Cell<K, V>>)
    requires forall i :: 0 <= i < |data| ==> data[i].Empty?
    ensures Filled(data) == 0
  {
    if data != [] { AllEmpty(data[1..]); }
  }

  // ---------------------------------------------------------------------------
  // Placing and removing
  // ---------------------------------------------------------------------------

  /** Cell `i` is the first free one on the probe path of `key`, and no cell before it holds `key`. */
  ghost predicate FirstFree<K, V>(data: seq<Cell<K, V>>, hash: Hasher<K>, key: K, i: nat) {
    && i < |data| && data[i].IsFree()
    && var n, a := |data|, Start(hash, key, |data|);
       forall j :: 0 <= j < n && Dist(a, j, n) < Dist(a, i, n) ==> data[j].Occupied? && data[j].key != key
  }

  /** Filling a cell, or putting a tombstone in it, leaves the other keys reachable. */
  lemma {:induction false} StillReachable<K, V>(data: seq<Cell<K, V>>, hash: Hasher<K>, i: nat, c: Cell<K, V>, j: nat)
    requires i < |data| && j < |data| && data[j].Occupied? && Reachable(data, hash, j) && !c.Empty?
    requires i == j ==> c.Occupied? && c.key == data[j].key
    ensures Reachable(data[i := c], hash, j)
  {
    hide Start, Dist;
  }

  lemma {:induction false} PlaceAbsent<K, V>(data: seq<Cell<K, V>>, hash: Hasher<K>, m: map<K, V>, i: nat, key: K,
                                             value: V)
    requires Represents(data, hash, m) && FirstFree(data, hash, key, i) && key !in m
    ensures Represents(data[i := Occupied(key, value)], hash, m[key := value])
  {
    var after := data[i := Occupied(key, value)];
    assert Reachable(after, hash, i);
    hide Start, Dist, Reachable;
    assert Unique(after);
    assert after[i] == Occupied(key, value);
    var m' := m[key := value];
    forall k | k in m' ensures Has(after, k, m'[k]) {
      if k != key {
        var j :| 0 <= j < |data| && data[j] == Occupied(k, m[k]);
        assert after[j] == data[j];
      }
    }
    forall j | 0 <= j < |after| && after[j].Occupied? ensures Reachable(after, hash, j) {
      if j != i { StillReachable(data, hash, i, Occupied(key, value), j); }
    }
  }

  /** Writing over a key's own cell changes its value. */
  lemma {:induction false} ReplaceValue<K, V>(data: seq<Cell<K, V>>, hash: Hasher<K>, m: map<K, V>, i: nat, key: K,
                                              value: V)
    requires Represents(data, hash, m) && i < |data| && data[i].Occupied? && data[i].key == key
    ensures Represents(data[i := Occupied(key, value)], hash, m[key := value])
  {
    var after := data[i := Occupied(key, value)];
    hide Start, Dist, Reachable;
    assert after[i] == Occupied(key, value);
    var m' := m[key := value];
    forall k | k in m' ensures Has(after, k, m'[k]) {
      if k != key {
        var j :| 0 <= j < |data| && data[j] == Occupied(k, m[k]);
        assert after[j] == data[j];
      }
    }
    forall j | 0 <= j < |after| && after[j].Occupied? ensures Reachable(after, hash, j) {
      StillReachable(data, hash, i, Occupied(key, value), j);
    }
  }

  /** A tombstone in place of a key's cell removes the key and keeps every other key reachable. */
  lemma {:induction false} RemoveKey<K, V>(data: seq<Cell<K, V>>, hash: Hasher<K>, m: map<K, V>, i: nat, key: K)
    requires Represents(data, hash, m) && i < |data| && data[i].Occupied? && data[i].key == key
    ensures Represents(data[i := Deleted], hash, m - {key})
  {
    var after := data[i := Deleted];
    hide Start, Dist, Reachable;
    forall k | k in m - {key} ensures Has(after, k, m[k]) {
      var j :| 0 <= j < |data| && data[j] == Occupied(k, m[k]);
      assert after[j] == data[j];
    }
    forall j | 0 <= j < |after| && after[j].Occupied? ensures Reachable(after, hash, j) {
      StillReachable(data, hash, i, Deleted, j);
    }
  }

  /** If the first free cell comes before the key's own cell, the key ends up in two cells. */
  lemma {:induction false} PlacePresent<K, V>(data: seq<Cell<K, V>>, hash: Hasher<K>, m: map<K, V>, i: nat, key: K,
                                              value: V)
    requires Represents(data, hash, m) && FirstFree(data, hash, key, i) && key in m
    ensures !Unique(data[i := Occupied(key, value)])
  {
    var j :| 0 <= j < |data| && data[j] == Occupied(key, m[key]);
    var after := data[i := Occupied(key, value)];
    assert i != j && after[j] == data[j] && after[i].Occupied?;
    assert after[i].key == after[j].key;
  }

  /** That free cell is a tombstone, and removing the key afterwards gives back the very table in which
      the key still has its old value. */
  lemma {:induction false} RemovalResurfaces<K, V>(data: seq<Cell<K, V>>, hash: Hasher<K>, m: map<K, V>, i: nat,
                                                   key: K, value: V)
    requires Represents(data, hash, m) && FirstFree(data, hash, key, i) && key in m
    ensures data[i].Deleted? && data[i := Occupied(key, value)][i := Deleted] == data
  {
    var n, a := |data|, Start(hash, key, |data|);
    assert Has(data, key, m[key]);
    var j :| 0 <= j < n && data[j] == Occupied(key, m[key]);
    assert Reachable(data, hash, j);
    if Dist(a, i, n) == Dist(a, j, n) { DistInjective(a, i, j, n); }
  }

  /** `after` is `before` with the key written into the first free cell of its probe path. */
  ghost predicate Put<K, V>(before: seq<Cell<K, V>>, after: seq<Cell<K, V>>, hash: Hasher<K>, key: K, value: V) {
    exists i: nat :: FirstFree(before, hash, key, i) && after == before[i := Occupied(key, value)]
  }

  lemma {:induction false} FirstFreeUnique<K, V>(data: seq<Cell<K, V>>, hash: Hasher<K>, key: K, i: nat, j: nat)
    requires FirstFree(data, hash, key, i) && FirstFree(data, hash, key, j)
    ensures i == j
  {
    var n, a := |data|, Start(hash, key, |data|);
    if Dist(a, i, n) == Dist(a, j, n) { DistInjective(a, i, j, n); }
  }

  lemma {:induction false} PutAt<K, V>(before: seq<Cell<K, V>>, after: seq<Cell<K, V>>, hash: Hasher<K>, i: nat,
                                       key: K, value: V)
    requires Put(before, after, hash, key, value) && FirstFree(before, hash, key, i)
    ensures after == before[i := Occupied(key, value)]
  {
    var j: nat :| FirstFree(before, hash, key, j) && after == before[j := Occupied(key, value)];
    FirstFreeUnique(before, hash, key, i, j);
  }

  /** For a key that starts at cell 0, the probe path is the table from its first cell on. */
  lemma {:induction false} FirstFreeFromZero<K, V>(data: seq<Cell<K, V>>, hash: Hasher<K>, key: K, i: nat)
    requires i < |data| && Start(hash, key, |data|) == 0 && data[i].IsFree()
    requires forall j :: 0 <= j < i ==> data[j].Occupied? && data[j].key != key
    ensures FirstFree(data, hash, key, i)
  {
  }
}
