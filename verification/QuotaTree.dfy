/** The tree of allocators that share out memory quota: who answers for whom when allocators die, and
    what every live allocator's used size must cover. */
module QuotaTree {
  import opened Wrappers

  datatype Inner = Inner(parent: Option<nat>, alive: bool, max: nat, prealloc: nat, used: nat) {
    function Total(): nat { used + prealloc }
  }

  /** Node 0 is the root and is alive; every other node's parent comes before it. */
  ghost predicate Shape(nodes: seq<Inner>) {
    && |nodes| > 0 && nodes[0].parent.None? && nodes[0].alive
    && forall i :: 0 < i < |nodes| ==> nodes[i].parent.Some? && nodes[i].parent.value < i
  }

  /** The nearest live allocator at or above a node. */
  ghost function Home(nodes: seq<Inner>, n: nat): (h: nat)
    requires Shape(nodes) && n < |nodes|
    ensures h <= n && nodes[h].alive
    decreases n
  {
    if nodes[n].alive then n else Home(nodes, nodes[n].parent.value)
  }

  /** The nearest live allocator above a node. */
  ghost function Up(nodes: seq<Inner>, n: nat): (u: nat)
    requires Shape(nodes) && 0 < n < |nodes|
    ensures u < n && nodes[u].alive
  {
    Home(nodes, nodes[n].parent.value)
  }

  /** What node `x` puts on live node `n`: the bytes allocated through `x` if `n` answers for `x`, and
      all that `x` took from `n` if `n` is the nearest live node above it. */
  ghost function Share(nodes: seq<Inner>, owed: seq<nat>, x: nat, n: nat): nat
    requires Shape(nodes) && |owed| == |nodes| && x < |nodes|
  {
    (if Home(nodes, x) == n then owed[x] else 0) +
    (if x > 0 && nodes[x].alive && Up(nodes, x) == n then nodes[x].Total() else 0)
  }

  ghost function Shares(nodes: seq<Inner>, owed: seq<nat>, n: nat, k: nat): nat
    requires Shape(nodes) && |owed| == |nodes| && k <= |nodes|
  {
    if k == 0 then 0 else Shares(nodes, owed, n, k - 1) + Share(nodes, owed, k - 1, n)
  }

  /** Direct allocations and the totals of the nearest live descendants. */
  ghost function Need(nodes: seq<Inner>, owed: seq<nat>, n: nat): nat
    requires Shape(nodes) && |owed| == |nodes|
  {
    Shares(nodes, owed, n, |nodes|)
  }

  ghost predicate NodeOk(nodes: seq<Inner>, owed: seq<nat>, n: nat)
    requires Shape(nodes) && |owed| == |nodes| && n < |nodes|
  {
    && Need(nodes, owed, n) <= nodes[n].used
    && nodes[n].Total() <= nodes[n].max
    && (n == 0 ==> nodes[n].Total() == nodes[n].max)
  }

  ghost predicate Inv(nodes: seq<Inner>, owed: seq<nat>) {
    && Shape(nodes) && |owed| == |nodes|
    && forall n :: 0 <= n < |nodes| && nodes[n].alive ==> NodeOk(nodes, owed, n)
  }

  /** What a live node counts as used beyond what anybody still answers for. */
  ghost function Slack(nodes: seq<Inner>, owed: seq<nat>, n: nat): int
    requires Shape(nodes) && |owed| == |nodes| && n < |nodes|
  {
    nodes[n].used - Need(nodes, owed, n)
  }

  /** No live node gained or lost quota that nobody answers for. */
  ghost predicate SameSlack(a: seq<Inner>, owed: seq<nat>, b: seq<Inner>, owed': seq<nat>) {
    && Shape(a) && Shape(b) && |owed| == |a| == |b| == |owed'|
    && forall m :: 0 <= m < |a| ==> a[m].alive == b[m].alive && (a[m].alive ==> Slack(a, owed, m) == Slack(b, owed', m))
  }

  lemma {:induction false} SlackTrans(a: seq<Inner>, oa: seq<nat>, b: seq<Inner>, ob: seq<nat>, c: seq<Inner>,
                                      oc: seq<nat>)
    requires SameSlack(a, oa, b, ob) && SameSlack(b, ob, c, oc)
    ensures SameSlack(a, oa, c, oc)
  {
    hide Slack;
  }

  // ---------------------------------------------------------------------------
  // Comparing two trees
  // ---------------------------------------------------------------------------

  /** The two trees agree on who answers for whom. */
  ghost predicate SameHomes(a: seq<Inner>, b: seq<Inner>)
    requires Shape(a) && Shape(b)
  {
    && |a| == |b|
    && forall x :: 0 <= x < |a| ==>
         Home(a, x) == Home(b, x) && a[x].alive == b[x].alive && (x > 0 ==> Up(a, x) == Up(b, x))
  }

  ghost predicate SameLinks(a: seq<Inner>, b: seq<Inner>) {
    && |a| == |b|
    && forall x :: 0 <= x < |a| ==>
         a[x].parent == b[x].parent && a[x].alive == b[x].alive && a[x].max == b[x].max
  }

  ghost predicate SameQuotas(a: seq<Inner>, b: seq<Inner>) {
    && |a| == |b|
    && forall x :: 0 <= x < |a| ==>
         && a[x].alive == b[x].alive && a[x].max == b[x].max
         && a[x].prealloc == b[x].prealloc && a[x].used == b[x].used
  }

  lemma {:induction false} HomeSame(a: seq<Inner>, b: seq<Inner>, x: nat)
    requires Shape(a) && SameLinks(a, b) && x < |a|
    ensures Shape(b) && Home(a, x) == Home(b, x)
    decreases x
  {
    if !a[x].alive { HomeSame(a, b, a[x].parent.value); }
  }

  lemma {:induction false} LinksHomes(a: seq<Inner>, b: seq<Inner>)
    requires Shape(a) && SameLinks(a, b)
    ensures Shape(b) && SameHomes(a, b)
  {
    forall x | 0 <= x < |a| ensures Home(a, x) == Home(b, x) { HomeSame(a, b, x); }
    forall x | 0 < x < |a| ensures Up(a, x) == Up(b, x) { HomeSame(a, b, a[x].parent.value); }
  }

  /** Pointing a node at its parent's parent when the parent is dead changes nobody's home. */
  lemma {:induction false} SkipHome(a: seq<Inner>, n: nat, x: nat)
    requires Shape(a) && 0 < n < |a| && !a[a[n].parent.value].alive && x < |a|
    ensures var b := a[n := a[n].(parent := a[a[n].parent.value].parent)];
            Shape(b) && Home(b, x) == Home(a, x)
    decreases x
  {
    var b := a[n := a[n].(parent := a[a[n].parent.value].parent)];
    if !a[x].alive {
      SkipHome(a, n, a[x].parent.value);
      if x == n { SkipHome(a, n, b[n].parent.value); }
    }
  }

  lemma {:induction false} SkipHomes(a: seq<Inner>, n: nat)
    requires Shape(a) && 0 < n < |a| && !a[a[n].parent.value].alive
    ensures var b := a[n := a[n].(parent := a[a[n].parent.value].parent)];
            Shape(b) && SameHomes(a, b) && SameQuotas(a, b)
  {
    var b := a[n := a[n].(parent := a[a[n].parent.value].parent)];
    SkipHome(a, n, 0);
    forall x | 0 <= x < |a| ensures Home(a, x) == Home(b, x) { SkipHome(a, n, x); }
    forall x | 0 < x < |a| ensures Up(a, x) == Up(b, x) {
      SkipHome(a, n, a[x].parent.value);
      if x == n { SkipHome(a, n, b[n].parent.value); }
    }
  }

  /** Shares that differ only at `x0`, by `d`, add up to needs that differ by `d`. */
  lemma {:induction false} SharesDiffer(a: seq<Inner>, owed: seq<nat>, b: seq<Inner>, owed': seq<nat>, n: nat, k: nat,
                                        x0: nat, d: int)
    requires Shape(a) && Shape(b) && |owed| == |a| == |b| == |owed'| && k <= |a| && x0 < |a|
    requires forall x :: 0 <= x < |a| && x != x0 ==> Share(a, owed, x, n) == Share(b, owed', x, n)
    requires Share(b, owed', x0, n) == Share(a, owed, x0, n) + d
    ensures Shares(b, owed', n, k) == Shares(a, owed, n, k) + if x0 < k then d else 0
  {
    hide Share;
    if k > 0 { SharesDiffer(a, owed, b, owed', n, k - 1, x0, d); }
  }

  /** One share is at most the need. */
  lemma {:induction false} ShareAtMost(nodes: seq<Inner>, owed: seq<nat>, n: nat, k: nat, x: nat)
    requires Shape(nodes) && |owed| == |nodes| && x < k <= |nodes|
    ensures Share(nodes, owed, x, n) <= Shares(nodes, owed, n, k)
  {
    hide Share;
    if x < k - 1 { ShareAtMost(nodes, owed, n, k - 1, x); }
  }

  /** By how much more node `x` puts on `m`. */
  ghost function Change(a: seq<Inner>, owed: seq<nat>, b: seq<Inner>, owed': seq<nat>, m: nat, x: nat): int
    requires Shape(a) && |owed| == |a| == |b| == |owed'| && x < |a|
  {
    var direct: int := if Home(a, x) == m then owed'[x] as int - owed[x] as int else 0;
    var total: int := if x > 0 && a[x].alive && Up(a, x) == m then b[x].Total() as int - a[x].Total() as int else 0;
    direct + total
  }

  /** When homes stay and only node `x0` changes what it puts on others, needs change by that. */
  lemma {:induction false} NeedChange(a: seq<Inner>, owed: seq<nat>, b: seq<Inner>, owed': seq<nat>, m: nat, x0: nat)
    requires Shape(a) && Shape(b) && |owed| == |a| == |b| == |owed'| && x0 < |a| && SameHomes(a, b)
    requires forall x :: 0 <= x < |a| && x != x0 ==> owed[x] == owed'[x] && a[x].Total() == b[x].Total()
    ensures Need(b, owed', m) == Need(a, owed, m) + Change(a, owed, b, owed', m, x0)
  {
    hide Home, Up, Shares;
    SharesDiffer(a, owed, b, owed', m, |a|, x0, Change(a, owed, b, owed', m, x0));
  }

  /** Nothing but quotas and links matter: re-linking dead nodes keeps the invariant. */
  lemma {:induction false} RelinkInv(a: seq<Inner>, b: seq<Inner>, owed: seq<nat>)
    requires Inv(a, owed) && Shape(b) && SameHomes(a, b) && SameQuotas(a, b)
    ensures Inv(b, owed) && SameSlack(a, owed, b, owed)
  {
    hide Home, Up, Need;
    forall n | 0 <= n < |b| && b[n].alive ensures NodeOk(b, owed, n) && Slack(a, owed, n) == Slack(b, owed, n) {
      assert NodeOk(a, owed, n);
      NeedChange(a, owed, b, owed, n, 0);
    }
  }

  /** If one node changes what it puts on others and every live node's used size follows, the invariant
      and the slack of every live node stay. */
  lemma {:induction false} OneChange(a: seq<Inner>, owed: seq<nat>, b: seq<Inner>, owed': seq<nat>, x0: nat)
    requires Inv(a, owed) && SameLinks(a, b) && |owed'| == |a| && x0 < |a|
    requires forall x :: 0 <= x < |a| && x != x0 ==> owed[x] == owed'[x] && a[x].Total() == b[x].Total()
    requires forall m :: 0 <= m < |a| && a[m].alive ==>
               && b[m].used == a[m].used + Change(a, owed, b, owed', m, x0)
               && b[m].Total() <= b[m].max && (m == 0 ==> b[m].Total() == b[m].max)
    ensures Inv(b, owed') && SameSlack(a, owed, b, owed')
  {
    LinksHomes(a, b);
    hide Home, Up, Need, SameHomes, Change;
    forall m | 0 <= m < |a| && b[m].alive ensures NodeOk(b, owed', m) && Slack(a, owed, m) == Slack(b, owed', m) {
      assert NodeOk(a, owed, m);
      NeedChange(a, owed, b, owed', m, x0);
    }
  }

  // ---------------------------------------------------------------------------
  // The three quota movements
  // ---------------------------------------------------------------------------

  /** `bytes` move from the reserve of the nearest live node above `n` into the reserve of `n`. */
  ghost function Moved(nodes: seq<Inner>, p: nat, n: nat, bytes: nat): seq<Inner>
    requires p < |nodes| && n < |nodes| && bytes <= nodes[p].prealloc
  {
    var taken := nodes[p := nodes[p].(prealloc := nodes[p].prealloc - bytes, used := nodes[p].used + bytes)];
    taken[n := taken[n].(prealloc := taken[n].prealloc + bytes)]
  }

  lemma {:induction false} MoveInv(nodes: seq<Inner>, owed: seq<nat>, p: nat, n: nat, bytes: nat)
    requires Inv(nodes, owed) && 0 < n < |nodes| && nodes[n].alive && p == Up(nodes, n)
    requires bytes <= nodes[p].prealloc && nodes[n].Total() + bytes <= nodes[n].max
    ensures Inv(Moved(nodes, p, n, bytes), owed) && SameSlack(nodes, owed, Moved(nodes, p, n, bytes), owed)
  {
    UpBelow(nodes, n);
    hide Home, Up, Need;
    var after := Moved(nodes, p, n, bytes);
    assert forall m :: 0 <= m < |nodes| && nodes[m].alive ==> NodeOk(nodes, owed, m);
    OneChange(nodes, owed, after, owed, n);
  }

  /** Bytes handed out through `x` by the node that answers for it. */
  ghost function Charged(nodes: seq<Inner>, n: nat, bytes: nat): seq<Inner>
    requires n < |nodes| && bytes <= nodes[n].prealloc
  {
    nodes[n := nodes[n].(prealloc := nodes[n].prealloc - bytes, used := nodes[n].used + bytes)]
  }

  lemma {:induction false} ChargeInv(nodes: seq<Inner>, owed: seq<nat>, x: nat, bytes: nat)
    requires Inv(nodes, owed) && x < |nodes| && bytes <= nodes[Home(nodes, x)].prealloc
    ensures Inv(Charged(nodes, Home(nodes, x), bytes), owed[x := owed[x] + bytes])
    ensures SameSlack(nodes, owed, Charged(nodes, Home(nodes, x), bytes), owed[x := owed[x] + bytes])
  {
    hide Home, Up, Need;
    var n := Home(nodes, x);
    assert forall m :: 0 <= m < |nodes| && nodes[m].alive ==> NodeOk(nodes, owed, m);
    OneChange(nodes, owed, Charged(nodes, n, bytes), owed[x := owed[x] + bytes], x);
  }

  ghost function Refunded(nodes: seq<Inner>, n: nat, bytes: nat): seq<Inner>
    requires n < |nodes| && bytes <= nodes[n].used
  {
    nodes[n := nodes[n].(prealloc := nodes[n].prealloc + bytes, used := nodes[n].used - bytes)]
  }

  lemma {:induction false} OwedCovered(nodes: seq<Inner>, owed: seq<nat>, x: nat)
    requires Inv(nodes, owed) && x < |nodes|
    ensures owed[x] <= nodes[Home(nodes, x)].used
  {
    var n := Home(nodes, x);
    assert NodeOk(nodes, owed, n);
    ShareAtMost(nodes, owed, n, |nodes|, x);
  }

  /** Live node `n` counts `d` more as used that nobody answers for, and no other live node does. */
  ghost predicate SlackMoved(a: seq<Inner>, owed: seq<nat>, b: seq<Inner>, owed': seq<nat>, n: nat, d: int) {
    && Shape(a) && Shape(b) && |owed| == |a| == |b| == |owed'|
    && forall m :: 0 <= m < |a| ==>
         && a[m].alive == b[m].alive
         && (a[m].alive ==> Slack(b, owed', m) == Slack(a, owed, m) + if m == n then d else 0)
  }

  /** If what was charged and what is refunded differ, the difference becomes slack of the node that answers,
      and the invariant stays exactly if that slack does not become negative. */
  lemma {:induction false} RefundOther(nodes: seq<Inner>, owed: seq<nat>, x: nat, charge: nat, bytes: nat)
    requires Inv(nodes, owed) && x < |nodes| && charge <= owed[x] && bytes <= nodes[Home(nodes, x)].used
    ensures var n := Home(nodes, x);
            var after, owed' := Refunded(nodes, n, bytes), owed[x := owed[x] - charge];
            && SlackMoved(nodes, owed, after, owed', n, charge - bytes)
            && (Inv(after, owed') <==> Slack(nodes, owed, n) + charge - bytes >= 0)
  {
    var n := Home(nodes, x);
    var after, owed' := Refunded(nodes, n, bytes), owed[x := owed[x] - charge];
    LinksHomes(nodes, after);
    hide Home, NodeOk, Slack, SameHomes;
    forall m | 0 <= m < |nodes| && nodes[m].alive
      ensures Slack(after, owed', m) == Slack(nodes, owed, m) + if m == n then charge - bytes else 0
      ensures NodeOk(after, owed', m) <==> m != n || Slack(nodes, owed, n) + charge - bytes >= 0
    {
      RefundAt(nodes, owed, x, charge, bytes, m);
    }
  }

  lemma {:induction false} RefundAt(nodes: seq<Inner>, owed: seq<nat>, x: nat, charge: nat, bytes: nat, m: nat)
    requires Inv(nodes, owed) && x < |nodes| && charge <= owed[x] && bytes <= nodes[Home(nodes, x)].used
    requires m < |nodes| && nodes[m].alive
    ensures var n := Home(nodes, x);
            var after, owed' := Refunded(nodes, n, bytes), owed[x := owed[x] - charge];
            && Shape(after) && Slack(after, owed', m) == Slack(nodes, owed, m) + (if m == n then charge - bytes else 0)
            && (NodeOk(after, owed', m) <==> m != n || Slack(nodes, owed, n) + charge - bytes >= 0)
  {
    var n := Home(nodes, x);
    var after, owed' := Refunded(nodes, n, bytes), owed[x := owed[x] - charge];
    LinksHomes(nodes, after);
    assert NodeOk(nodes, owed, m);
    hide Home, Up, Need, SameHomes;
    NeedChange(nodes, owed, after, owed', m, x);
  }

  /** Bytes given back are covered by the used size of the node that answers for them. */
  lemma {:induction false} RefundInv(nodes: seq<Inner>, owed: seq<nat>, x: nat, bytes: nat)
    requires Inv(nodes, owed) && x < |nodes| && bytes <= owed[x]
    ensures bytes <= nodes[Home(nodes, x)].used
    ensures Inv(Refunded(nodes, Home(nodes, x), bytes), owed[x := owed[x] - bytes])
    ensures SameSlack(nodes, owed, Refunded(nodes, Home(nodes, x), bytes), owed[x := owed[x] - bytes])
  {
    OwedCovered(nodes, owed, x);
    hide Home, Up, Need;
    var n := Home(nodes, x);
    assert forall m :: 0 <= m < |nodes| && nodes[m].alive ==> NodeOk(nodes, owed, m);
    OneChange(nodes, owed, Refunded(nodes, n, bytes), owed[x := owed[x] - bytes], x);
  }

  // ---------------------------------------------------------------------------
  // The death of an allocator
  // ---------------------------------------------------------------------------

  ghost function Killed(nodes: seq<Inner>, n: nat): seq<Inner>
    requires n < |nodes|
  {
    nodes[n := nodes[n].(alive := false)]
  }

  /** Whoever `n` answered for is now answered for by the nearest live node above `n`. */
  lemma {:induction false} KilledHome(nodes: seq<Inner>, n: nat, x: nat)
    requires Shape(nodes) && 0 < n < |nodes| && nodes[n].alive && x < |nodes|
    ensures Shape(Killed(nodes, n))
    ensures Home(Killed(nodes, n), x) == if Home(nodes, x) == n then Up(nodes, n) else Home(nodes, x)
    decreases x
  {
    if x > 0 { KilledHome(nodes, n, nodes[x].parent.value); }
  }

  /** What is put on the node above is what was put on it and on `n`, less the total of `n`. */
  lemma {:induction false} KilledShare(nodes: seq<Inner>, owed: seq<nat>, n: nat, m: nat, x: nat)
    requires Shape(nodes) && 0 < n < |nodes| && nodes[n].alive && |owed| == |nodes| && m < |nodes| && m != n
    requires x < |nodes|
    ensures Shape(Killed(nodes, n))
    ensures Share(Killed(nodes, n), owed, x, m) ==
            Share(nodes, owed, x, m) +
            if m != Up(nodes, n) then 0 else Share(nodes, owed, x, n) - if x == n then nodes[n].Total() else 0
  {
    KilledHome(nodes, n, x);
    if x > 0 { KilledHome(nodes, n, nodes[x].parent.value); }
    if x == n { UpBelow(nodes, n); }
    hide Home;
  }

  lemma {:induction false} UpBelow(nodes: seq<Inner>, n: nat)
    requires Shape(nodes) && 0 < n < |nodes| && nodes[n].alive
    ensures Home(nodes, n) == n && Up(nodes, n) < n
  {
  }

  lemma {:induction false} KilledShares(nodes: seq<Inner>, owed: seq<nat>, n: nat, m: nat, k: nat)
    requires Shape(nodes) && 0 < n < |nodes| && nodes[n].alive && |owed| == |nodes| && m < |nodes| && m != n
    requires k <= |nodes|
    ensures Shape(Killed(nodes, n))
    ensures Shares(Killed(nodes, n), owed, m, k) ==
            Shares(nodes, owed, m, k) +
            if m != Up(nodes, n) then 0 else Shares(nodes, owed, n, k) - if n < k then nodes[n].Total() else 0
  {
    KilledHome(nodes, n, 0);
    if k > 0 {
      KilledShares(nodes, owed, n, m, k - 1);
      hide Share, Home, Up;
      KilledShare(nodes, owed, n, m, k - 1);
    }
  }

  /** An allocator other than the root can die at any time. Its reserve and what it counted too much are
      from then on counted too much by the live node above it, and by nobody else. */
  lemma {:induction false} KillInv(nodes: seq<Inner>, owed: seq<nat>, n: nat)
    requires Inv(nodes, owed) && 0 < n < |nodes| && nodes[n].alive
    ensures Inv(Killed(nodes, n), owed)
    ensures forall m :: 0 <= m < |nodes| && m != n && nodes[m].alive ==>
              Slack(Killed(nodes, n), owed, m) ==
              Slack(nodes, owed, m) + if m == Up(nodes, n) then Slack(nodes, owed, n) + nodes[n].prealloc else 0
  {
    KilledHome(nodes, n, 0);
    assert NodeOk(nodes, owed, n);
    hide Shares, Share, Home, Up;
    var after := Killed(nodes, n);
    forall m | 0 <= m < |after| && after[m].alive ensures NodeOk(after, owed, m) {
      assert NodeOk(nodes, owed, m);
      KilledShares(nodes, owed, n, m, |nodes|);
    }
    forall m | 0 <= m < |nodes| && m != n && nodes[m].alive
      ensures Slack(after, owed, m) ==
              Slack(nodes, owed, m) + if m == Up(nodes, n) then Slack(nodes, owed, n) + nodes[n].prealloc else 0
    {
      KilledShares(nodes, owed, n, m, |nodes|);
    }
  }

  /** A tree in which nothing has been handed out yet. */
  ghost predicate Fresh(nodes: seq<Inner>) {
    && Shape(nodes) && nodes[0].used == 0 && nodes[0].prealloc == nodes[0].max
    && forall i :: 0 < i < |nodes| ==> nodes[i].used == 0 && nodes[i].prealloc == 0
  }

  lemma {:induction false} FreshInv(nodes: seq<Inner>)
    requires Fresh(nodes)
    ensures Inv(nodes, seq(|nodes|, i => 0))
  {
    var owed: seq<nat> := seq(|nodes|, i => 0);
    forall n | 0 <= n < |nodes| && nodes[n].alive ensures NodeOk(nodes, owed, n) {
      FreshShares(nodes, owed, n, |nodes|);
    }
  }

  lemma {:induction false} FreshShares(nodes: seq<Inner>, owed: seq<nat>, n: nat, k: nat)
    requires Fresh(nodes) && |owed| == |nodes| && (forall i :: 0 <= i < |owed| ==> owed[i] == 0) && k <= |nodes|
    ensures Shares(nodes, owed, n, k) == 0
  {
    if k > 0 { FreshShares(nodes, owed, n, k - 1); }
  }
}
