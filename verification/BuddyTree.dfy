/** The binary tree behind the buddy allocator, without the heap: node numbering, the
    descendant relation, the memory each node stands for, and the status byte that every
    node must hold for a given set of handed-out nodes. */
module BuddyTree {
  import opened BitUtils

  const OCCUPY_RIGHT: bv8 := 1
  const OCCUPY_LEFT: bv8 := 2
  const COAL_RIGHT: bv8 := 4
  const COAL_LEFT: bv8 := 8
  const OCCUPY: bv8 := 16
  const BUSY: bv8 := 19

  datatype Child = Left | Right {
    function Buddy(): Child { if Left? then Right else Left }
  }

  function OccupyBit(c: Child): bv8 { if c.Left? then OCCUPY_LEFT else OCCUPY_RIGHT }
  function CoalBit(c: Child): bv8 { if c.Left? then COAL_LEFT else COAL_RIGHT }

  function ChildType(i: nat): Child
    requires i > 0
  {
    if i % 2 == 0 then Right else Left
  }

  function Parent(i: nat): nat
    requires i > 0
  {
    (i - 1) / 2
  }

  function ChildOf(i: nat, c: Child): nat {
    if c.Left? then 2 * i + 1 else 2 * i + 2
  }

  /** Distance from the root, which the source reads off as the logarithm of `i + 1`. */
  function Level(i: nat): (r: nat) {
    if i == 0 then 0 else 1 + Level(Parent(i))
  }

  lemma {:induction false} LevelIsLog2(i: nat)
    ensures Level(i) == Log2(i + 1)
    ensures Pow2(Level(i)) <= i + 1 < 2 * Pow2(Level(i))
  {
    if i > 0 {
      LevelIsLog2(Parent(i));
      assert (i + 1) / 2 == Parent(i) + 1;
    }
  }

  lemma {:induction false} LevelParent(i: nat)
    requires i > 0
    ensures Level(i) == Level(Parent(i)) + 1
    ensures ChildOf(Parent(i), ChildType(i)) == i
  {
  }

  /** `i` lies in the subtree rooted at `a`. */
  predicate Under(a: nat, i: nat)
    decreases i
  {
    a == i || (i > 0 && Under(a, Parent(i)))
  }

  lemma {:induction false} UnderLe(a: nat, i: nat)
    requires Under(a, i)
    ensures a <= i
    ensures Level(a) <= Level(i)
    ensures a != i ==> a < i && Level(a) < Level(i)
    decreases i
  {
    if a != i { UnderLe(a, Parent(i)); LevelParent(i); }
  }

  lemma {:induction false} UnderTrans(a: nat, b: nat, c: nat)
    requires Under(a, b) && Under(b, c)
    ensures Under(a, c)
    decreases c
  {
    if b != c { UnderTrans(a, b, Parent(c)); }
  }

  /** The ancestors of a node form a chain. */
  lemma {:induction false} UnderChain(a: nat, b: nat, c: nat)
    requires Under(a, c) && Under(b, c)
    ensures Under(a, b) || Under(b, a)
    decreases c
  {
    if a != c && b != c { UnderChain(a, b, Parent(c)); }
  }

  /** A subtree is its root and the two child subtrees, and those are disjoint. */
  lemma {:induction false} UnderSplit(a: nat, i: nat)
    ensures Under(a, i) <==> a == i || Under(2 * a + 1, i) || Under(2 * a + 2, i)
    ensures !(Under(2 * a + 1, i) && Under(2 * a + 2, i))
    ensures !(Under(2 * a + 1, a)) && !(Under(2 * a + 2, a))
    decreases i
  {
    if Under(2 * a + 1, a) { UnderLe(2 * a + 1, a); }
    if Under(2 * a + 2, a) { UnderLe(2 * a + 2, a); }
    if i > 0 {
      UnderSplit(a, Parent(i));
    }
  }

  /** The side of `a` on which its proper descendant `s` lies. */
  function Toward(a: nat, s: nat): Child {
    if Under(2 * a + 1, s) then Left else Right
  }

  lemma {:induction false} TowardChild(c: nat, s: nat)
    requires c > 0 && Under(c, s)
    ensures Toward(Parent(c), s) == ChildType(c)
    ensures Under(Parent(c), s)
  {
    LevelParent(c);
    UnderSplit(Parent(c), s);
  }

  lemma {:induction false} TowardStep(a: nat, s: nat)
    requires Under(a, s) && a != s
    ensures Under(ChildOf(a, Toward(a, s)), s)
    ensures !Under(ChildOf(a, Toward(a, s).Buddy()), s)
  {
    UnderSplit(a, s);
  }

  /** `i` is on the way from `s` up to its ancestor `e`, both included. */
  predicate OnPath(e: nat, s: nat, i: nat) {
    Under(e, i) && Under(i, s)
  }

  /** Climbing one step adds one node to the way. */
  lemma {:induction false} PathStep(c: nat, s: nat, i: nat)
    requires c > 0 && Under(c, s)
    ensures OnPath(Parent(c), s, i) <==> OnPath(c, s, i) || i == Parent(c)
  {
    var p := Parent(c);
    UnderTrans(p, c, s);
    if OnPath(c, s, i) { UnderTrans(p, c, i); }
    if OnPath(p, s, i) {
      UnderChain(c, i, s);
      if Under(i, c) && i != c && i != p {
        UnderLe(p, i);
        UnderLe(i, p);
      }
    }
  }

  /** Between `s` and `e` the way is within the ends' indices and levels. */
  lemma {:induction false} PathBounds(e: nat, s: nat, i: nat)
    requires OnPath(e, s, i)
    ensures e <= i <= s
    ensures Level(e) < Level(i) <==> i != e
  {
    UnderLe(e, i);
    UnderLe(i, s);
  }

  // ---------------------------------------------------------------------------
  // Status bytes
  // ---------------------------------------------------------------------------

  /** Some handed-out node lies in the subtree of `a`. */
  ghost predicate Occupied(live: set<nat>, a: nat) {
    exists j :: j in live && Under(a, j)
  }

  ghost function SideBit(live: set<nat>, a: nat, c: Child): bv8 {
    if Occupied(live, ChildOf(a, c)) then OccupyBit(c) else 0
  }

  /** The byte of node `a` when exactly the nodes in `live` are handed out. */
  ghost function Status(live: set<nat>, a: nat): bv8 {
    if a in live then BUSY else SideBit(live, a, Left) | SideBit(live, a, Right)
  }

  lemma {:induction false} OccupiedSplit(live: set<nat>, a: nat)
    ensures Occupied(live, a) <==>
            a in live || Occupied(live, ChildOf(a, Left)) || Occupied(live, ChildOf(a, Right))
  {
    assert Under(a, a);
    forall j | j in live
      ensures Under(a, j) <==> a == j || Under(2 * a + 1, j) || Under(2 * a + 2, j)
    {
      UnderSplit(a, j);
    }
  }

  lemma {:induction false} StatusZero(live: set<nat>, a: nat)
    ensures Status(live, a) == 0 <==> !Occupied(live, a)
    ensures Status(live, a) & BUSY == 0 <==> !Occupied(live, a)
    ensures Status(live, a) & OCCUPY != 0 <==> a in live
  {
    OccupiedSplit(live, a);
  }

  lemma {:induction false} NoCoalescing(live: set<nat>, a: nat)
    ensures Status(live, a) & COAL_LEFT == 0 && Status(live, a) & COAL_RIGHT == 0
  {
  }

  /** Reading a byte back: busy exactly when handed out, side bits exactly when that side is in
      use, and no coalescing bit. */
  lemma {:induction false} StatusMeaning(live: set<nat>, a: nat)
    ensures Status(live, a) == 19 <==> a in live
    ensures a !in live ==> (Status(live, a) & 2 == 2 <==> Occupied(live, 2 * a + 1))
    ensures a !in live ==> (Status(live, a) & 1 == 1 <==> Occupied(live, 2 * a + 2))
    ensures Status(live, a) & 12 == 0
  {
    assert ChildOf(a, Left) == 2 * a + 1 && ChildOf(a, Right) == 2 * a + 2;
    NoCoalescing(live, a);
  }

  /** Handing out `s` changes no byte outside its ancestors. */
  lemma {:induction false} StatusOffPath(live: set<nat>, s: nat, i: nat)
    requires !Under(i, s)
    ensures Status(live + {s}, i) == Status(live, i)
    ensures Status(live - {s}, i) == Status(live, i)
  {
    assert Under(i, i);
    UnderSplit(i, s);
    OccupiedOff(live, s, ChildOf(i, Left));
    OccupiedOff(live, s, ChildOf(i, Right));
  }

  lemma {:induction false} OccupiedOff(live: set<nat>, s: nat, a: nat)
    requires !Under(a, s)
    ensures Occupied(live + {s}, a) == Occupied(live, a)
    ensures Occupied(live - {s}, a) == Occupied(live, a)
  {
    if Occupied(live, a) {
      var j :| j in live && Under(a, j);
      assert j in live + {s} && j in live - {s};
    }
  }

  /** Handing out `s` sets exactly the bit on the side of `s` in each free ancestor. */
  lemma {:induction false} StatusMark(live: set<nat>, s: nat, c: nat)
    requires c > 0 && Under(c, s) && Parent(c) !in live && Parent(c) != s
    ensures Status(live + {s}, Parent(c)) ==
            (Status(live, Parent(c)) & !CoalBit(ChildType(c))) | OccupyBit(ChildType(c))
  {
    var p := Parent(c);
    TowardChild(c, s);
    TowardStep(p, s);
    LevelParent(c);
    var b := ChildOf(p, ChildType(c).Buddy());
    OccupiedOff(live, s, b);
    assert s in live + {s} && Under(c, s);
  }

  /** Taking back `s` clears exactly the bit on the side of `s` once that side is empty. */
  lemma {:induction false} StatusUnmark(live: set<nat>, s: nat, c: nat)
    requires c > 0 && Under(c, s) && Parent(c) !in live && s in live
    requires !Occupied(live - {s}, c)
    ensures Status(live - {s}, Parent(c)) == Status(live, Parent(c)) & !OccupyBit(ChildType(c))
    ensures Status(live, Parent(c)) & OccupyBit(ChildType(c).Buddy()) == 0 ==>
            !Occupied(live - {s}, Parent(c))
    ensures Status(live, Parent(c)) & OccupyBit(ChildType(c).Buddy()) != 0 ==>
            Occupied(live - {s}, Parent(c))
  {
    var p := Parent(c);
    TowardChild(c, s);
    UnderLe(c, s);
    TowardStep(p, s);
    LevelParent(c);
    var b := ChildOf(p, ChildType(c).Buddy());
    OccupiedOff(live, s, b);
    assert Occupied(live, c);
    OccupiedSplit(live - {s}, p);
  }

  /** While another block remains below `c`, the ancestors of `c` keep their bytes. */
  lemma {:induction false} StatusKept(live: set<nat>, s: nat, c: nat, i: nat)
    requires s in live && Under(c, s) && Under(i, c) && i != c && i !in live
    requires Occupied(live - {s}, c)
    ensures Status(live - {s}, i) == Status(live, i)
  {
    UnderTrans(i, c, s);
    TowardStep(i, c);
    var d := ChildOf(i, Toward(i, c));
    var j :| j in live - {s} && Under(c, j);
    UnderTrans(d, c, j);
    UnderTrans(d, c, s);
    assert Occupied(live - {s}, d) && Occupied(live, d);
    UnderSplit(i, s);
    OccupiedOff(live, s, ChildOf(i, Toward(i, c).Buddy()));
  }

  // ---------------------------------------------------------------------------
  // Which nodes a subtree holds at one level, and the memory a node stands for
  // ---------------------------------------------------------------------------

  /** At `d` levels below `f`, the subtree of `f` is one interval of indices. */
  lemma {:induction false} UnderInterval(f: nat, j: nat, d: nat)
    requires Level(j) == Level(f) + d
    ensures Under(f, j) <==> Pow2(d) * (f + 1) <= j + 1 < Pow2(d) * (f + 2)
    decreases d
  {
    if d == 0 {
      if Under(f, j) && f != j { UnderLe(f, j); }
    } else {
      UnderInterval(f, Parent(j), d - 1);
      HalveInterval(Pow2(d - 1), f + 1, j + 1);
      HalveInterval(Pow2(d - 1), f + 2, j + 1);
      assert Parent(j) + 1 == (j + 1) / 2;
    }
  }

  lemma {:induction false} HalveInterval(w: nat, k: nat, x: nat)
    ensures 2 * w * k <= x <==> w * k <= x / 2
  {
    var p := w * k;
    assert 2 * w * k == 2 * p;
  }

  /** First of the depth-`depth` slots that node `n` stands for, counted from the first slot. */
  function FirstSlot(depth: nat, n: nat): int
    requires Level(n) <= depth
  {
    Pow2(depth - Level(n)) * (n + 1) - Pow2(depth)
  }

  function SlotCount(depth: nat, n: nat): nat
    requires Level(n) <= depth
  {
    Pow2(depth - Level(n))
  }

  /** Every node's slots lie inside the root's. */
  lemma {:induction false} SlotsInRange(depth: nat, n: nat)
    requires Level(n) <= depth
    ensures 0 <= FirstSlot(depth, n)
    ensures FirstSlot(depth, n) + SlotCount(depth, n) <= Pow2(depth)
    ensures FirstSlot(depth, n) == SlotCount(depth, n) * (n + 1 - Pow2(Level(n)))
  {
    var l := Level(n);
    var w, p := Pow2(depth - l), Pow2(l);
    assert Pow2(depth) == w * p by { Pow2Sum(depth - l, l); }
    assert p <= n + 1 < 2 * p by { LevelIsLog2(n); }
    SlotArithmetic(w, p, n);
  }

  lemma {:induction false} SlotArithmetic(w: nat, p: nat, n: nat)
    requires p <= n + 1 < 2 * p
    ensures w * p <= w * (n + 1)
    ensures w * (n + 1) + w <= 2 * (w * p)
    ensures w * (n + 1) - w * p == w * (n + 1 - p)
  {
    MulMono(p, n + 1, w);
    MulMono(n + 2, 2 * p, w);
  }

  /** Nesting of nodes is nesting of their slots, and unrelated nodes share no slot. */
  lemma {:induction false} SlotsNestOrSeparate(depth: nat, a: nat, n: nat)
    requires Level(a) <= Level(n) <= depth
    ensures Under(a, n) ==>
              FirstSlot(depth, a) <= FirstSlot(depth, n) &&
              FirstSlot(depth, n) + SlotCount(depth, n) <= FirstSlot(depth, a) + SlotCount(depth, a)
    ensures !Under(a, n) ==>
              FirstSlot(depth, n) + SlotCount(depth, n) <= FirstSlot(depth, a) ||
              FirstSlot(depth, a) + SlotCount(depth, a) <= FirstSlot(depth, n)
  {
    var d := Level(n) - Level(a);
    UnderInterval(a, n, d);
    Pow2Sum(d, depth - Level(n));
    ScaleInterval(Pow2(d), Pow2(depth - Level(n)), a, n);
  }

  lemma {:induction false} ScaleInterval(p: nat, w: nat, a: nat, n: nat)
    ensures p * (a + 1) <= n + 1 < p * (a + 2) ==>
              (p * w) * (a + 1) <= w * (n + 1) && w * (n + 1) + w <= (p * w) * (a + 1) + p * w
    ensures !(p * (a + 1) <= n + 1 < p * (a + 2)) ==>
              w * (n + 1) + w <= (p * w) * (a + 1) || (p * w) * (a + 1) + p * w <= w * (n + 1)
  {
    ScaleEnds(p, w, a);
    ScaleRange(p * (a + 1), p, w, n + 1);
  }

  lemma {:induction false} ScaleEnds(p: nat, w: nat, a: nat)
    ensures p * (a + 2) == p * (a + 1) + p && (p * w) * (a + 1) == p * (a + 1) * w
  {
  }

  lemma {:induction false} ScaleRange(lo: nat, p: nat, w: nat, m: nat)
    ensures lo <= m < lo + p ==> lo * w <= w * m && w * m + w <= lo * w + p * w
    ensures m < lo ==> w * m + w <= lo * w
    ensures lo + p <= m ==> lo * w + p * w <= w * m
  {
    assert (lo + p) * w == lo * w + p * w && (m + 1) * w == w * m + w && m * w == w * m;
    if lo <= m { MulMono(lo, m, w); }
    if m < lo + p { MulMono(m + 1, lo + p, w); } else { MulMono(lo + p, m, w); }
    if m < lo { MulMono(m + 1, lo, w); }
  }

  /** No handed-out node contains another. */
  ghost predicate Antichain(live: set<nat>) {
    forall x, y :: x in live && y in live && Under(x, y) ==> x == y
  }

  /** Node `n` is an ancestor or a descendant of a handed-out node. */
  ghost predicate Overlaps(live: set<nat>, n: nat) {
    exists x :: x in live && (Under(x, n) || Under(n, x))
  }

  /** Any two handed-out nodes stand for disjoint memory. */
  lemma {:induction false} LiveDisjoint(depth: nat, live: set<nat>, x: nat, y: nat)
    requires Antichain(live) && x in live && y in live && x != y
    requires Level(x) <= depth && Level(y) <= depth
    ensures FirstSlot(depth, x) + SlotCount(depth, x) <= FirstSlot(depth, y) ||
            FirstSlot(depth, y) + SlotCount(depth, y) <= FirstSlot(depth, x)
  {
    if Level(x) <= Level(y) {
      SlotsNestOrSeparate(depth, x, y);
    } else {
      SlotsNestOrSeparate(depth, y, x);
    }
  }

  /** A node shares memory with a handed-out node exactly when the two are related in the tree. */
  lemma {:induction false} OverlapsIffSharesSlot(depth: nat, live: set<nat>, n: nat)
    requires Level(n) <= depth && forall x :: x in live ==> Level(x) <= depth
    ensures Overlaps(live, n) <==>
            exists x :: x in live && FirstSlot(depth, x) < FirstSlot(depth, n) + SlotCount(depth, n)
                                  && FirstSlot(depth, n) < FirstSlot(depth, x) + SlotCount(depth, x)
  {
    forall x | x in live
      ensures (Under(x, n) || Under(n, x)) <==>
              FirstSlot(depth, x) < FirstSlot(depth, n) + SlotCount(depth, n) &&
              FirstSlot(depth, n) < FirstSlot(depth, x) + SlotCount(depth, x)
    {
      if Level(x) <= Level(n) {
        SlotsNestOrSeparate(depth, x, n);
        if Under(n, x) { UnderLe(n, x); }
      } else {
        SlotsNestOrSeparate(depth, n, x);
        if Under(x, n) { UnderLe(x, n); }
      }
    }
  }

  // ---------------------------------------------------------------------------
  // How much of a subtree is handed out
  // ---------------------------------------------------------------------------

  /** Slots handed out in the subtree of `a`, which reaches `h` levels below `a`. */
  ghost function UsedSlots(h: nat, live: set<nat>, a: nat): (r: nat)
    ensures r <= Pow2(h)
  {
    if a in live then Pow2(h)
    else if h == 0 then 0
    else UsedSlots(h - 1, live, 2 * a + 1) + UsedSlots(h - 1, live, 2 * a + 2)
  }

  lemma {:induction false} UsedOff(h: nat, live: set<nat>, s: nat, a: nat)
    requires !Under(a, s)
    ensures UsedSlots(h, live + {s}, a) == UsedSlots(h, live, a)
  {
    assert a != s && !Under(2 * a + 1, s) && !Under(2 * a + 2, s) by { UnderSplit(a, s); }
    if h > 0 {
      UsedOff(h - 1, live, s, 2 * a + 1);
      UsedOff(h - 1, live, s, 2 * a + 2);
    }
  }

  lemma {:induction false} UsedEmpty(h: nat, live: set<nat>, a: nat)
    requires !Occupied(live, a)
    ensures UsedSlots(h, live, a) == 0
  {
    assert a !in live && !Occupied(live, 2 * a + 1) && !Occupied(live, 2 * a + 2) by {
      OccupiedSplit(live, a);
    }
    if h > 0 {
      UsedEmpty(h - 1, live, 2 * a + 1);
      UsedEmpty(h - 1, live, 2 * a + 2);
    }
  }

  lemma {:induction false} UsedUnfold(h: nat, live: set<nat>, a: nat, c: Child)
    requires a !in live && h > 0
    ensures UsedSlots(h, live, a) ==
            UsedSlots(h - 1, live, ChildOf(a, c)) + UsedSlots(h - 1, live, ChildOf(a, c.Buddy()))
  {
  }

  /** Handing out a node that overlaps nothing adds exactly its own `2^k` slots. */
  lemma {:induction false} UsedAdd(h: nat, live: set<nat>, s: nat, a: nat, k: nat)
    requires Under(a, s) && Level(s) + k == Level(a) + h && !Overlaps(live, s)
    ensures UsedSlots(h, live + {s}, a) == UsedSlots(h, live, a) + Pow2(k)
    decreases h
  {
    assert a !in live;
    if a == s {
      assert !Occupied(live, s) by { if Occupied(live, s) { assert Overlaps(live, s); } }
      UsedEmpty(h, live, s);
    } else {
      assert h > 0 by { UnderLe(a, s); }
      var near := ChildOf(a, Toward(a, s));
      var far := ChildOf(a, Toward(a, s).Buddy());
      TowardStep(a, s);
      assert Level(near) == Level(a) + 1 by { LevelParent(near); }
      UsedAdd(h - 1, live, s, near, k);
      UsedOff(h - 1, live, s, far);
      UsedAddStep(h, live, s, a, k, Toward(a, s));
    }
  }

  lemma {:induction false} UsedAddStep(h: nat, live: set<nat>, s: nat, a: nat, k: nat, c: Child)
    requires a !in live && a != s && h > 0
    requires UsedSlots(h - 1, live + {s}, ChildOf(a, c)) == UsedSlots(h - 1, live, ChildOf(a, c)) + Pow2(k)
    requires UsedSlots(h - 1, live + {s}, ChildOf(a, c.Buddy())) == UsedSlots(h - 1, live, ChildOf(a, c.Buddy()))
    ensures UsedSlots(h, live + {s}, a) == UsedSlots(h, live, a) + Pow2(k)
  {
    UsedUnfold(h, live, a, c);
    UsedUnfold(h, live + {s}, a, c);
  }

  lemma {:induction false} UsedAddRoot(depth: nat, live: set<nat>, s: nat)
    requires Level(s) <= depth && !Overlaps(live, s)
    ensures UsedSlots(depth, live + {s}, 0) == UsedSlots(depth, live, 0) + SlotCount(depth, s)
  {
    UnderRoot(s);
    assert Level(0) == 0;
    UsedAdd(depth, live, s, 0, depth - Level(s));
  }

  /** Sum of the slots of a set of nodes. */
  ghost function TotalSlots(depth: nat, live: set<nat>): nat
    requires forall x :: x in live ==> Level(x) <= depth
  {
    if live == {} then 0
    else var x :| x in live; SlotCount(depth, x) + TotalSlots(depth, live - {x})
  }

  /** For handed-out nodes that contain each other nowhere, the recursive count over the tree
      is the plain sum of their sizes. */
  lemma {:induction false} UsedIsTotal(depth: nat, live: set<nat>)
    requires Antichain(live) && forall x :: x in live ==> Level(x) <= depth
    ensures UsedSlots(depth, live, 0) == TotalSlots(depth, live)
  {
    if live == {} {
      UsedEmpty(depth, live, 0);
    } else {
      var x :| x in live && TotalSlots(depth, live) == SlotCount(depth, x) + TotalSlots(depth, live - {x});
      var rest := live - {x};
      UsedIsTotal(depth, rest);
      assert rest + {x} == live;
      UsedAddRoot(depth, rest, x);
    }
  }

  lemma {:induction false} UnderRoot(i: nat)
    ensures Under(0, i)
    decreases i
  {
    if i > 0 { UnderRoot(Parent(i)); }
  }
}
