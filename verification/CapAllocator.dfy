/** Allocating and releasing bytes in the tree of allocators, preallocating from the nearest live parent
    when an allocator's reserve is too small. */
module CapAllocator {
  import opened BitUtils
  import opened QuotaTree
  import opened Wrappers

  datatype Result = Ok | OutOfMem | Unknown

  const PREALLOC_RECURSE_DEPTH: nat := 8

  /** `x` is `n` or a live node above it. */
  ghost predicate OnChain(nodes: seq<Inner>, n: nat, x: nat)
    requires Shape(nodes) && n < |nodes|
    decreases n
  {
    x == n || (n > 0 && OnChain(nodes, Up(nodes, n), x))
  }

  ghost predicate SameQuota(a: Inner, b: Inner) { a.prealloc == b.prealloc && a.used == b.used }

  /** How preallocating ends: each level needs room under its own limit, the root has nothing to ask. */
  ghost function Outcome(nodes: seq<Inner>, n: nat, bytes: nat, depth: nat): Result
    requires Shape(nodes) && n < |nodes| && depth > 0
    decreases n
  {
    if depth == 1 then Unknown
    else if nodes[n].Total() + bytes > nodes[n].max || n == 0 then OutOfMem
    else
      var p := Up(nodes, n);
      if bytes <= nodes[p].prealloc then Ok
      else Outcome(nodes, p, AlignUp(bytes - nodes[p].prealloc, PAGE_SIZE), depth - 1)
  }

  /** The quotas after preallocating: each level that lacks reserve first gets whole pages from the one
      above, then gives the bytes. */
  ghost function After(nodes: seq<Inner>, n: nat, bytes: nat, depth: nat): (b: seq<Inner>)
    requires Shape(nodes) && n < |nodes| && depth > 0 && Outcome(nodes, n, bytes, depth) == Ok
    ensures |b| == |nodes| && b[n].prealloc == nodes[n].prealloc + bytes && b[n].used == nodes[n].used
    ensures forall x :: n < x < |nodes| ==> b[x] == nodes[x]
    decreases n
  {
    var p := Up(nodes, n);
    if bytes <= nodes[p].prealloc then Moved(nodes, p, n, bytes)
    else
      var more := AlignUp(bytes - nodes[p].prealloc, PAGE_SIZE);
      AlignUpSpec(bytes - nodes[p].prealloc, PAGE_SIZE);
      Moved(After(nodes, p, more, depth - 1), p, n, bytes)
  }

  ghost predicate EqualQuotas(a: seq<Inner>, b: seq<Inner>) {
    |a| == |b| && forall x :: 0 <= x < |a| ==> SameQuota(a[x], b[x])
  }

  lemma {:induction false} MovedEqual(a: seq<Inner>, b: seq<Inner>, p: nat, n: nat, bytes: nat)
    requires EqualQuotas(a, b) && p < |a| && n < |a| && bytes <= a[p].prealloc
    ensures |a| == |b| && bytes <= b[p].prealloc && EqualQuotas(Moved(a, p, n, bytes), Moved(b, p, n, bytes))
  {
  }

  lemma {:induction false} AfterUnfold(a: seq<Inner>, n: nat, bytes: nat, depth: nat, more: nat)
    requires Shape(a) && n < |a| && depth > 0 && Outcome(a, n, bytes, depth) == Ok
    ensures 0 < n && depth > 1 && Up(a, n) < n
    ensures var p := Up(a, n);
            && (bytes <= a[p].prealloc ==> After(a, n, bytes, depth) == Moved(a, p, n, bytes))
            && (bytes > a[p].prealloc && more == AlignUp(bytes - a[p].prealloc, PAGE_SIZE) ==>
                  && Outcome(a, p, more, depth - 1) == Ok
                  && var mid := After(a, p, more, depth - 1);
                     |mid| == |a| && bytes <= mid[p].prealloc && After(a, n, bytes, depth) == Moved(mid, p, n, bytes))
  {
    var p := Up(a, n);
    if bytes > a[p].prealloc { AlignUpSpec(bytes - a[p].prealloc, PAGE_SIZE); }
    hide AlignUp, Home;
  }

  /** These quotas too depend on homes and quotas only. */
  lemma {:induction false} AfterSame(a: seq<Inner>, b: seq<Inner>, n: nat, bytes: nat, depth: nat)
    requires Shape(a) && Shape(b) && SameHomes(a, b) && SameQuotas(a, b) && n < |a| && depth > 0
    requires Outcome(a, n, bytes, depth) == Ok
    ensures |a| == |b| && Outcome(b, n, bytes, depth) == Ok
    ensures EqualQuotas(After(a, n, bytes, depth), After(b, n, bytes, depth))
    decreases n
  {
    assert EqualQuotas(a, b);
    hide Home, Up, AlignUp, SameHomes, SameQuotas, After, Outcome, EqualQuotas, Moved;
    OutcomeSame(a, b, n, bytes, depth);
    SameAt(a, b, n);
    AfterUnfold(a, n, bytes, depth, 0);
    var p := Up(a, n);
    SameAt(a, b, p);
    if bytes > a[p].prealloc {
      var more := AlignUp(bytes - a[p].prealloc, PAGE_SIZE);
      AfterUnfold(a, n, bytes, depth, more);
      AfterUnfold(b, n, bytes, depth, more);
      AfterSame(a, b, p, more, depth - 1);
      MovedEqual(After(a, p, more, depth - 1), After(b, p, more, depth - 1), p, n, bytes);
    } else {
      AfterUnfold(b, n, bytes, depth, 0);
      MovedEqual(a, b, p, n, bytes);
    }
  }

  ghost function AllocOutcome(nodes: seq<Inner>, n: nat, bytes: nat): Result
    requires Shape(nodes) && n < |nodes|
  {
    if bytes <= nodes[n].prealloc then Ok
    else Outcome(nodes, n, AlignUp(bytes - nodes[n].prealloc, PAGE_SIZE), PREALLOC_RECURSE_DEPTH)
  }

  // ---------------------------------------------------------------------------
  // When preallocating through several levels succeeds
  // ---------------------------------------------------------------------------

  /** A request for `bytes` at `n` that is handed up through the nodes of `path`: each of them has room
      under its limit for its entry of `asks`, and the one above lacks the reserve to give it and so asks
      for the least number of whole pages that makes up the difference. */
  ghost predicate HandedUp(nodes: seq<Inner>, n: nat, bytes: nat, path: seq<nat>, asks: seq<nat>)
    requires Shape(nodes)
  {
    && 0 < |path| == |asks| && path[0] == n && asks[0] == bytes
    && (forall i :: 0 <= i < |path| ==> path[i] < |nodes|)
    && (forall i :: 0 <= i < |path| - 1 ==> Hands(nodes, path[i], asks[i], path[i + 1], asks[i + 1]))
  }

  ghost predicate Hands(nodes: seq<Inner>, n: nat, bytes: nat, p: nat, more: nat)
    requires Shape(nodes) && n < |nodes| && p < |nodes|
  {
    && Room(nodes, n, bytes) && p == Up(nodes, n) && nodes[p].prealloc < bytes
    && more % 4096 == 0 && nodes[p].prealloc + more - 4096 < bytes <= nodes[p].prealloc + more
  }

  ghost predicate Room(nodes: seq<Inner>, n: nat, bytes: nat)
    requires n < |nodes|
  {
    n > 0 && nodes[n].used + nodes[n].prealloc + bytes <= nodes[n].max
  }

  /** What the last node of `path` answers: fewer than `depth` nodes were asked, and it is full or the
      root, or the node above has the reserve. */
  ghost predicate Answered(nodes: seq<Inner>, path: seq<nat>, asks: seq<nat>, depth: nat, r: Result)
    requires Shape(nodes) && 0 < |path| == |asks| && path[|path| - 1] < |nodes|
  {
    var n, bytes := path[|path| - 1], asks[|asks| - 1];
    if |path| == depth then r == Unknown
    else
      && |path| < depth
      && (r == OutOfMem <==> !Room(nodes, n, bytes))
      && (r == Ok <==> Room(nodes, n, bytes) && bytes <= nodes[Up(nodes, n)].prealloc)
      && r != Unknown
  }

  lemma {:induction false} PagesUnique(x: nat, a: nat)
    requires a % 4096 == 0 && a - 4096 < x <= a
    ensures a == AlignUp(x, PAGE_SIZE)
  {
    AlignUpSpec(x, PAGE_SIZE);
  }

  lemma {:induction false} HandedUpTail(nodes: seq<Inner>, n: nat, bytes: nat, path: seq<nat>, asks: seq<nat>)
    requires Shape(nodes) && HandedUp(nodes, n, bytes, path, asks) && |path| > 1
    ensures HandedUp(nodes, path[1], asks[1], path[1..], asks[1..])
    ensures n < |nodes| && path[1] < |nodes| && Hands(nodes, n, bytes, path[1], asks[1])
  {
    hide Hands, Shape;
  }

  /** Whichever way a request is handed up, the answer where it stops is how preallocating ends. */
  lemma {:induction false} HandedUpDecides(nodes: seq<Inner>, n: nat, bytes: nat, depth: nat, path: seq<nat>,
                                           asks: seq<nat>, r: Result)
    requires Shape(nodes) && HandedUp(nodes, n, bytes, path, asks) && Answered(nodes, path, asks, depth, r)
    ensures n < |nodes| && depth > 0 && Outcome(nodes, n, bytes, depth) == r
    decreases |path|
  {
    if |path| > 1 {
      HandedUpTail(nodes, n, bytes, path, asks);
      PagesUnique(bytes - nodes[path[1]].prealloc, asks[1]);
      HandedUpDecides(nodes, path[1], asks[1], depth - 1, path[1..], asks[1..], r);
    } else {
      HandedUpOne(nodes, n, bytes, path, asks);
    }
  }

  lemma {:induction false} HandedUpOne(nodes: seq<Inner>, n: nat, bytes: nat, path: seq<nat>, asks: seq<nat>)
    requires Shape(nodes) && |path| == 1 == |asks|
    ensures HandedUp(nodes, n, bytes, path, asks) <==> n < |nodes| && path == [n] && asks == [bytes]
  {
  }

  /** Every request is handed up to some node that answers it. */
  lemma {:induction false} HandUp(nodes: seq<Inner>, n: nat, bytes: nat, depth: nat)
    returns (path: seq<nat>, asks: seq<nat>)
    requires Shape(nodes) && n < |nodes| && depth > 0
    ensures HandedUp(nodes, n, bytes, path, asks)
    ensures Answered(nodes, path, asks, depth, Outcome(nodes, n, bytes, depth))
    decreases n
  {
    if depth > 1 && Room(nodes, n, bytes) && nodes[Up(nodes, n)].prealloc < bytes {
      var p := Up(nodes, n);
      var more := AlignUp(bytes - nodes[p].prealloc, PAGE_SIZE);
      AlignUpSpec(bytes - nodes[p].prealloc, PAGE_SIZE);
      var rest, moreAsks := HandUp(nodes, p, more, depth - 1);
      path, asks := [n] + rest, [bytes] + moreAsks;
    } else {
      path, asks := [n], [bytes];
    }
  }

  /** Allocating succeeds exactly when the reserve has the bytes, or when the whole pages that are missing
      are handed up through at most seven nodes, all with room, to one below a sufficient reserve; it runs
      out of memory exactly when one of the first seven is full or the root, and gives up exactly when the
      request gets to an eighth node. */
  lemma {:induction false} AllocOutcomeSpec(nodes: seq<Inner>, n: nat, bytes: nat, r: Result)
    requires Shape(nodes) && n < |nodes| && nodes[n].prealloc < bytes
    ensures AllocOutcome(nodes, n, bytes) == r <==>
            exists path, asks, more: nat ::
              && more % 4096 == 0 && nodes[n].prealloc + more - 4096 < bytes <= nodes[n].prealloc + more
              && HandedUp(nodes, n, more, path, asks) && Answered(nodes, path, asks, 8, r)
  {
    hide Outcome, Answered;
    var pages := AlignUp(bytes - nodes[n].prealloc, PAGE_SIZE);
    AlignUpSpec(bytes - nodes[n].prealloc, PAGE_SIZE);
    if AllocOutcome(nodes, n, bytes) == r {
      var path, asks := HandUp(nodes, n, pages, 8);
    }
    forall path, asks, more: nat |
      && more % 4096 == 0 && nodes[n].prealloc + more - 4096 < bytes <= nodes[n].prealloc + more
      && HandedUp(nodes, n, more, path, asks) && Answered(nodes, path, asks, 8, r)
      ensures AllocOutcome(nodes, n, bytes) == r
    {
      PagesUnique(bytes - nodes[n].prealloc, more);
      HandedUpDecides(nodes, n, more, 8, path, asks, r);
    }
  }

  lemma {:induction false} SameAt(a: seq<Inner>, b: seq<Inner>, x: nat)
    requires Shape(a) && Shape(b) && SameHomes(a, b) && SameQuotas(a, b) && x < |a|
    ensures |a| == |b| && SameQuota(a[x], b[x]) && a[x].max == b[x].max
    ensures x > 0 ==> Up(a, x) < x && Up(a, x) == Up(b, x)
  {
  }

  /** The outcome depends on homes and quotas only. */
  lemma {:induction false} OutcomeSame(a: seq<Inner>, b: seq<Inner>, n: nat, bytes: nat, depth: nat)
    requires Shape(a) && Shape(b) && SameHomes(a, b) && SameQuotas(a, b) && n < |a| && depth > 0
    ensures Outcome(a, n, bytes, depth) == Outcome(b, n, bytes, depth)
    decreases n
  {
    hide Home, Up, AlignUp, SameHomes, SameQuotas;
    SameAt(a, b, n);
    if depth > 1 && n > 0 {
      var p := Up(a, n);
      SameAt(a, b, p);
      if bytes > a[p].prealloc {
        OutcomeSame(a, b, p, AlignUp(bytes - a[p].prealloc, PAGE_SIZE), depth - 1);
      }
    }
  }

  lemma {:induction false} ChainSame(a: seq<Inner>, b: seq<Inner>, n: nat, x: nat)
    requires Shape(a) && Shape(b) && SameHomes(a, b) && n < |a|
    ensures OnChain(a, n, x) == OnChain(b, n, x)
    decreases n
  {
    if n > 0 { ChainSame(a, b, Up(a, n), x); }
  }

  lemma {:induction false} HomesTrans(a: seq<Inner>, b: seq<Inner>, c: seq<Inner>)
    requires Shape(a) && Shape(b) && Shape(c) && SameHomes(a, b) && SameHomes(b, c)
    ensures SameHomes(a, c)
  {
    hide Home, Up;
  }

  /** `b` is `a` with some dead nodes cut out of paths. */
  ghost predicate Relinked(a: seq<Inner>, b: seq<Inner>) {
    Shape(a) && Shape(b) && SameHomes(a, b) && SameQuotas(a, b)
  }

  lemma {:induction false} RelinkedSelf(a: seq<Inner>)
    requires Shape(a)
    ensures Relinked(a, a)
  {
    LinksHomes(a, a);
  }

  lemma {:induction false} RelinkedSkip(a: seq<Inner>, b: seq<Inner>, n: nat)
    requires Relinked(a, b) && 0 < n < |b| && !b[b[n].parent.value].alive
    ensures Relinked(a, b[n := b[n].(parent := b[b[n].parent.value].parent)])
  {
    SkipHomes(b, n);
    HomesTrans(a, b, b[n := b[n].(parent := b[b[n].parent.value].parent)]);
  }

  lemma {:induction false} RelinkedTrans(a: seq<Inner>, b: seq<Inner>, c: seq<Inner>)
    requires Relinked(a, b) && Relinked(b, c)
    ensures Relinked(a, c)
  {
    HomesTrans(a, b, c);
  }

  lemma {:induction false} LiveParentIsUp(a: seq<Inner>, b: seq<Inner>, n: nat)
    requires Relinked(a, b) && 0 < n < |b| && b[b[n].parent.value].alive
    ensures b[n].parent.value == Up(a, n)
  {
    assert Up(b, n) == b[n].parent.value;
  }

  /** `b` is `a` with `bytes` more in the reserve of `n`; otherwise only live nodes above `n` may have
      changed, and nobody's home has. */
  ghost predicate Grown(a: seq<Inner>, b: seq<Inner>, n: nat, bytes: nat) {
    && Shape(a) && Shape(b) && SameHomes(a, b) && n < |a|
    && (forall x :: 0 <= x < |a| ==> a[x].max == b[x].max)
    && (forall x :: 0 <= x < |a| && !OnChain(a, n, x) ==> SameQuota(a[x], b[x]))
    && b[n].prealloc == a[n].prealloc + bytes && b[n].used == a[n].used
  }

  lemma {:induction false} ChainBelow(a: seq<Inner>, n: nat, x: nat)
    requires Shape(a) && n < |a| && OnChain(a, n, x)
    ensures x <= n
    decreases n
  {
    if x != n { ChainBelow(a, Up(a, n), x); }
  }

  /** Growing the reserve of the node above leaves node `n` as it was. */
  lemma {:induction false} ParentGrown(a: seq<Inner>, b: seq<Inner>, c: seq<Inner>, n: nat, more: nat)
    requires Relinked(a, b) && 0 < n < |a| && (b == c || Grown(b, c, Up(a, n), more))
    ensures Shape(c) && SameHomes(a, c) && |c| == |a| && Up(c, n) == Up(a, n)
    ensures c[n].alive == a[n].alive && c[n].max == a[n].max && SameQuota(a[n], c[n])
    ensures forall x :: 0 <= x < |a| && !OnChain(a, n, x) ==> SameQuota(a[x], c[x])
    ensures forall x :: 0 <= x < |a| ==> a[x].max == c[x].max
  {
    var p := Up(a, n);
    if b != c {
      HomesTrans(a, b, c);
      if OnChain(b, p, n) { ChainBelow(b, p, n); }
      hide Home, Up;
      forall x | 0 <= x < |a| && !OnChain(a, n, x) ensures SameQuota(a[x], c[x]) {
        ChainSame(a, b, p, x);
      }
    }
  }

  lemma {:induction false} MovedGrown(a: seq<Inner>, c: seq<Inner>, n: nat, bytes: nat)
    requires Shape(a) && Shape(c) && SameHomes(a, c) && 0 < n < |a| && SameQuota(a[n], c[n])
    requires forall x :: 0 <= x < |a| && !OnChain(a, n, x) ==> SameQuota(a[x], c[x])
    requires forall x :: 0 <= x < |a| ==> a[x].max == c[x].max
    requires bytes <= c[Up(a, n)].prealloc
    ensures Grown(a, Moved(c, Up(a, n), n, bytes), n, bytes)
  {
    hide Home, Up, SameHomes;
    UpOnChain(a, n);
    SameLength(a, c);
    hide OnChain;
    var p := Up(a, n);
    var d := Moved(c, p, n, bytes);
    assert SameLinks(c, d);
    LinksHomes(c, d);
    HomesTrans(a, c, d);
  }

  lemma {:induction false} SameLength(a: seq<Inner>, b: seq<Inner>)
    requires Shape(a) && Shape(b) && SameHomes(a, b)
    ensures |a| == |b|
  {
  }

  lemma {:induction false} UpOnChain(a: seq<Inner>, n: nat)
    requires Shape(a) && 0 < n < |a|
    ensures Up(a, n) < n && OnChain(a, n, Up(a, n)) && OnChain(a, n, n)
  {
  }

  /** The last step of preallocating, after the node above has grown its own reserve if it had to. */
  lemma {:induction false} StepUp(a: seq<Inner>, b: seq<Inner>, c: seq<Inner>, n: nat, more: nat, bytes: nat)
    requires Relinked(a, b) && 0 < n < |a| && a[n].alive && a[n].Total() + bytes <= a[n].max
    requires || (b == c && bytes <= a[Up(a, n)].prealloc)
             || (bytes <= a[Up(a, n)].prealloc + more && Grown(b, c, Up(a, n), more))
    ensures Shape(c) && |c| == |a| && c[n].alive && Up(c, n) == Up(a, n) && bytes <= c[Up(a, n)].prealloc
    ensures c[n].Total() + bytes <= c[n].max
    ensures Grown(a, Moved(c, Up(a, n), n, bytes), n, bytes)
  {
    ParentGrown(a, b, c, n, more);
    assert SameQuota(a[Up(a, n)], b[Up(a, n)]);
    hide Home, Up, OnChain, SameHomes;
    MovedGrown(a, c, n, bytes);
  }

  lemma {:induction false} RelinkedOutcome(a: seq<Inner>, b: seq<Inner>, n: nat, bytes: nat, depth: nat)
    requires Relinked(a, b) && n < |a| && depth > 0
    ensures n < |b| && Shape(a) && Shape(b) && Outcome(a, n, bytes, depth) == Outcome(b, n, bytes, depth)
  {
    OutcomeSame(a, b, n, bytes, depth);
  }

  lemma {:induction false} RelinkedAllocOutcome(a: seq<Inner>, b: seq<Inner>, n: nat, bytes: nat)
    requires Relinked(a, b) && n < |a|
    ensures n < |b| && Shape(a) && Shape(b) && AllocOutcome(a, n, bytes) == AllocOutcome(b, n, bytes)
  {
    if bytes > a[n].prealloc {
      OutcomeSame(a, b, n, AlignUp(bytes - a[n].prealloc, PAGE_SIZE), PREALLOC_RECURSE_DEPTH);
    }
  }

  lemma {:induction false} GrownHome(a: seq<Inner>, b: seq<Inner>, n: nat, bytes: nat, x: nat)
    requires Grown(a, b, n, bytes) && x < |a|
    ensures |a| == |b| && Shape(a) && Shape(b) && Home(b, x) == Home(a, x)
  {
  }

  lemma {:induction false} RelinkedHome(a: seq<Inner>, b: seq<Inner>, x: nat)
    requires Relinked(a, b) && x < |a|
    ensures Shape(a) && Shape(b) && |a| == |b| && Home(a, x) == Home(b, x)
  {
  }

  lemma {:induction false} RelinkedAt(a: seq<Inner>, b: seq<Inner>, x: nat)
    requires Relinked(a, b) && x < |a|
    ensures |a| == |b| && SameQuota(a[x], b[x]) && a[x].alive == b[x].alive && a[x].max == b[x].max
    ensures Shape(a) && Shape(b)
  {
  }

  /** The quotas after allocating bytes in `n`. */
  ghost function AfterAlloc(nodes: seq<Inner>, n: nat, bytes: nat): (b: seq<Inner>)
    requires Shape(nodes) && n < |nodes| && AllocOutcome(nodes, n, bytes) == Ok
    ensures |b| == |nodes| && b[n].used == nodes[n].used + bytes
  {
    if bytes <= nodes[n].prealloc then Charged(nodes, n, bytes)
    else
      var more := AlignUp(bytes - nodes[n].prealloc, PAGE_SIZE);
      AlignUpSpec(bytes - nodes[n].prealloc, PAGE_SIZE);
      Charged(After(nodes, n, more, PREALLOC_RECURSE_DEPTH), n, bytes)
  }

  /** The quotas after memory was refused for bytes allocated in `n` and the charge was taken back. */
  ghost function AfterRefusal(nodes: seq<Inner>, n: nat, bytes: nat): seq<Inner>
    requires Shape(nodes) && n < |nodes| && AllocOutcome(nodes, n, bytes) == Ok
  {
    Refunded(AfterAlloc(nodes, n, bytes), n, bytes)
  }

  /** A refusal leaves every quota as it was exactly when the reserve of `n` sufficed. */
  lemma {:induction false} RefusalKeeps(nodes: seq<Inner>, n: nat, bytes: nat)
    requires Shape(nodes) && n < |nodes| && AllocOutcome(nodes, n, bytes) == Ok
    ensures EqualQuotas(nodes, AfterRefusal(nodes, n, bytes)) <==> bytes <= nodes[n].prealloc
  {
    if bytes > nodes[n].prealloc {
      AlignUpSpec(bytes - nodes[n].prealloc, PAGE_SIZE);
      hide AlignUp, Outcome;
      var more := AlignUp(bytes - nodes[n].prealloc, PAGE_SIZE);
      assert AfterRefusal(nodes, n, bytes)[n].prealloc == nodes[n].prealloc + more;
      assert !SameQuota(nodes[n], AfterRefusal(nodes, n, bytes)[n]);
    }
  }

  /** A fresh root with two pages, and a child that may use one and has none yet. */
  ghost predicate FreshPair(t: seq<Inner>) {
    t == [Inner(None, true, 2 * PAGE_SIZE, 2 * PAGE_SIZE, 0), Inner(Some(0), true, PAGE_SIZE, 0, 0)]
  }

  /** When memory is refused for a page of the child, the page of quota stays with the child. */
  lemma {:induction false} RefusalMoves(t: seq<Inner>)
    requires FreshPair(t)
    ensures Fresh(t) && AllocOutcome(t, 1, PAGE_SIZE) == Ok
    ensures AfterRefusal(t, 1, PAGE_SIZE) ==
            [Inner(None, true, 2 * PAGE_SIZE, PAGE_SIZE, PAGE_SIZE), Inner(Some(0), true, PAGE_SIZE, PAGE_SIZE, 0)]
  {
    AlignUpSpec(PAGE_SIZE, PAGE_SIZE);
    PairAsks(t, PAGE_SIZE, PREALLOC_RECURSE_DEPTH);
    hide Outcome, After, AlignUp, Up, Home;
    MultiplesApart(PAGE_SIZE, 2 * PAGE_SIZE, PAGE_SIZE);
    assert AlignUp(PAGE_SIZE, PAGE_SIZE) == PAGE_SIZE;
  }

  /** If the child then dies, the root counts a page as used although no page was ever handed out. */
  lemma {:induction false} DeadReserve(t: seq<Inner>, owed: seq<nat>)
    requires FreshPair(t) && owed == [0, 0]
    ensures Shape(t) && AllocOutcome(t, 1, PAGE_SIZE) == Ok
    ensures var u := AfterRefusal(t, 1, PAGE_SIZE);
            && Inv(u, owed) && Slack(u, owed, 0) == 0
            && Inv(Killed(u, 1), owed) && Slack(Killed(u, 1), owed, 0) == PAGE_SIZE
  {
    RefusalMoves(t);
    hide AllocOutcome, AfterRefusal;
    assert owed == seq(|t|, i => 0);
    FreshInv(t);
    FreshShares(t, owed, 0, 2);
    FreshShares(t, owed, 1, 2);
    PairUp(t);
    hide Shares, Share, Up, Home;
    MoveInv(t, owed, 0, 1, PAGE_SIZE);
    var u := Moved(t, 0, 1, PAGE_SIZE);
    assert u == AfterRefusal(t, 1, PAGE_SIZE);
    PairUp(u);
    KillInv(u, owed, 1);
  }

  lemma {:induction false} PairUp(t: seq<Inner>)
    requires |t| == 2 && Shape(t)
    ensures Up(t, 1) == 0
  {
    assert Home(t, 0) == 0 && t[1].parent.value == 0;
  }

  lemma {:induction false} PairAsks(t: seq<Inner>, bytes: nat, depth: nat)
    requires |t| == 2 && Shape(t) && depth > 1 && t[1].Total() + bytes <= t[1].max && bytes <= t[0].prealloc
    ensures Outcome(t, 1, bytes, depth) == Ok && After(t, 1, bytes, depth) == Moved(t, 0, 1, bytes)
  {
    assert Home(t, 0) == 0 && t[1].parent.value == 0;
  }

  /** Allocating depends on homes and quotas only. */
  lemma {:induction false} AfterAllocSame(a: seq<Inner>, b: seq<Inner>, n: nat, bytes: nat)
    requires Relinked(a, b) && n < |a| && AllocOutcome(a, n, bytes) == Ok
    ensures Shape(a) && Shape(b) && |a| == |b| && AllocOutcome(b, n, bytes) == Ok
    ensures EqualQuotas(AfterAlloc(a, n, bytes), AfterAlloc(b, n, bytes))
  {
    RelinkedAllocOutcome(a, b, n, bytes);
    assert EqualQuotas(a, b);
    hide AlignUp, Home, Up, EqualQuotas, After, Outcome, AfterAlloc, AllocOutcome, SameHomes;
    if bytes <= a[n].prealloc {
      ChargedEqual(a, b, n, bytes);
      AfterAllocIs(a, n, bytes, 0, 8);
      AfterAllocIs(b, n, bytes, 0, 8);
    } else {
      var more, depth := AlignUp(bytes - a[n].prealloc, PAGE_SIZE), PREALLOC_RECURSE_DEPTH;
      AfterAllocIs(a, n, bytes, more, depth);
      AfterAllocIs(b, n, bytes, more, depth);
      AfterSame(a, b, n, more, depth);
      ChargedEqual(After(a, n, more, depth), After(b, n, more, depth), n, bytes);
    }
  }

  lemma {:induction false} AfterAllocIs(a: seq<Inner>, n: nat, bytes: nat, more: nat, depth: nat)
    requires Shape(a) && n < |a| && AllocOutcome(a, n, bytes) == Ok && depth == PREALLOC_RECURSE_DEPTH
    requires bytes > a[n].prealloc ==> more == AlignUp(bytes - a[n].prealloc, PAGE_SIZE)
    ensures bytes <= a[n].prealloc ==> AfterAlloc(a, n, bytes) == Charged(a, n, bytes)
    ensures bytes > a[n].prealloc ==>
              && Outcome(a, n, more, depth) == Ok && |After(a, n, more, depth)| == |a|
              && bytes <= After(a, n, more, depth)[n].prealloc
              && AfterAlloc(a, n, bytes) == Charged(After(a, n, more, depth), n, bytes)
  {
    hide Outcome, After, Home, Up;
    if bytes > a[n].prealloc { AlignUpSpec(bytes - a[n].prealloc, PAGE_SIZE); }
    hide AlignUp;
  }

  lemma {:induction false} RefundedEqual(a: seq<Inner>, b: seq<Inner>, n: nat, bytes: nat)
    requires EqualQuotas(a, b) && n < |a| && bytes <= a[n].used
    ensures |a| == |b| && bytes <= b[n].used && EqualQuotas(Refunded(a, n, bytes), Refunded(b, n, bytes))
  {
  }

  /** Equal quotas can be exchanged. */
  lemma {:induction false} EqualBoth(a: seq<Inner>, b: seq<Inner>, c: seq<Inner>)
    requires EqualQuotas(b, c)
    ensures EqualQuotas(a, b) <==> EqualQuotas(a, c)
  {
    if EqualQuotas(a, c) {
      forall x | 0 <= x < |a| ensures SameQuota(a[x], b[x]) { assert SameQuota(a[x], c[x]) && SameQuota(b[x], c[x]); }
    }
  }

  lemma {:induction false} RelinkedEqual(a: seq<Inner>, b: seq<Inner>)
    requires Relinked(a, b)
    ensures EqualQuotas(a, b)
  {
  }

  lemma {:induction false} EqualSelf(a: seq<Inner>)
    ensures EqualQuotas(a, a)
  {
  }

  lemma {:induction false} ChargedEqual(a: seq<Inner>, b: seq<Inner>, n: nat, bytes: nat)
    requires EqualQuotas(a, b) && n < |a| && bytes <= a[n].prealloc
    ensures |a| == |b| && bytes <= b[n].prealloc && EqualQuotas(Charged(a, n, bytes), Charged(b, n, bytes))
  {
  }

  lemma {:induction false} SlackSelf(a: seq<Inner>, owed: seq<nat>)
    requires Shape(a) && |owed| == |a|
    ensures SameSlack(a, owed, a, owed)
  {
  }

  lemma {:induction false} EqualTrans(a: seq<Inner>, b: seq<Inner>, c: seq<Inner>)
    requires EqualQuotas(a, b) && EqualQuotas(b, c)
    ensures EqualQuotas(a, c)
  {
  }

  /** The quotas after the last step, given those after the step of the node above. */
  lemma {:induction false} AfterStep(a: seq<Inner>, b: seq<Inner>, c: seq<Inner>, n: nat, more: nat, bytes: nat,
                                     depth: nat)
    requires Relinked(a, b) && n < |a| && depth > 1 && Outcome(a, n, bytes, depth) == Ok && 0 < n
    requires bytes <= a[Up(a, n)].prealloc ==> b == c
    requires bytes > a[Up(a, n)].prealloc ==>
               && more == AlignUp(bytes - a[Up(a, n)].prealloc, PAGE_SIZE) && Up(a, n) < |b|
               && Outcome(b, Up(a, n), more, depth - 1) == Ok && EqualQuotas(After(b, Up(a, n), more, depth - 1), c)
    ensures Up(a, n) < |c| && |c| == |a| && bytes <= c[Up(a, n)].prealloc
    ensures EqualQuotas(After(a, n, bytes, depth), Moved(c, Up(a, n), n, bytes))
  {
    assert EqualQuotas(a, b);
    AfterUnfold(a, n, bytes, depth, more);
    var p := Up(a, n);
    hide Home, Up, AlignUp, After, Outcome, Moved;
    if bytes <= a[p].prealloc {
      MovedEqual(a, c, p, n, bytes);
    } else {
      AfterSame(a, b, p, more, depth - 1);
      EqualTrans(After(a, p, more, depth - 1), After(b, p, more, depth - 1), c);
      MovedEqual(After(a, p, more, depth - 1), c, p, n, bytes);
    }
  }

  lemma {:induction false} SlackAt(a: seq<Inner>, oa: seq<nat>, b: seq<Inner>, ob: seq<nat>, n: nat)
    requires SameSlack(a, oa, b, ob) && n < |a| && a[n].alive
    ensures Slack(a, oa, n) == Slack(b, ob, n)
  {
    hide Slack;
  }

  lemma {:induction false} SlackNotNegative(nodes: seq<Inner>, owed: seq<nat>, n: nat)
    requires Inv(nodes, owed) && n < |nodes| && nodes[n].alive
    ensures Slack(nodes, owed, n) >= 0
  {
    assert NodeOk(nodes, owed, n);
    hide Need;
  }

  lemma {:induction false} MovedAfterSame(a: seq<Inner>, oa: seq<nat>, b: seq<Inner>, ob: seq<nat>, c: seq<Inner>,
                                          oc: seq<nat>, n: nat, d: int)
    requires SameSlack(a, oa, b, ob) && SlackMoved(b, ob, c, oc, n, d)
    ensures SlackMoved(a, oa, c, oc, n, d)
  {
    hide Slack;
  }

  lemma {:induction false} RelinkedUsed(a: seq<Inner>, b: seq<Inner>, n: nat)
    requires Relinked(a, b) && n < |a|
    ensures |a| == |b| && a[n].used == b[n].used && a[n].alive == b[n].alive
  {
    hide Home, Up;
  }

  class AllocatorTree {
    var nodes: seq<Inner>
    /** Bytes allocated through each node and not yet released. */
    ghost var owed: seq<nat>

    ghost predicate Valid()
      reads this
    {
      Inv(nodes, owed)
    }

    constructor (nodes: seq<Inner>)
      requires Fresh(nodes)
      ensures Valid() && this.nodes == nodes && owed == seq(|nodes|, i => 0)
    {
      this.nodes := nodes;
      owed := seq(|nodes|, i => 0);
      FreshInv(nodes);
    }

    /** The nearest live allocator above a node; dead ones on the way are cut out of the path. */
    method GetParent(n: nat) returns (p: Option<nat>)
      requires Valid() && n < |nodes|
      modifies this`nodes
      ensures Valid() && Relinked(old(nodes), nodes) && SameSlack(old(nodes), owed, nodes, owed)
      ensures p.None? <==> n == 0
      ensures p.Some? ==> p.value == Up(old(nodes), n) && nodes[n].parent == p
    {
      ghost var before := nodes;
      RelinkedSelf(nodes);
      while true
        invariant Relinked(before, nodes) && |nodes| == |before|
        decreases if nodes[n].parent.Some? then nodes[n].parent.value + 1 else 0
      {
        p := nodes[n].parent;
        if p.None? || nodes[p.value].alive {
          if p.Some? { LiveParentIsUp(before, nodes, n); }
          RelinkInv(before, nodes, owed);
          return;
        }
        RelinkedSkip(before, nodes, n);
        nodes := nodes[n := nodes[n].(parent := nodes[p.value].parent)];
      }
    }

    /** Moves quota from the nearest live parent, which first asks its own parent if it must. */
    method PreallocInner(n: nat, bytes: nat, depth: nat) returns (r: Result, left: nat)
      requires Valid() && n < |nodes| && nodes[n].alive && depth > 0
      modifies this`nodes
      ensures Valid() && r == Outcome(old(nodes), n, bytes, depth)
      ensures r == Ok ==> Grown(old(nodes), nodes, n, bytes) && EqualQuotas(After(old(nodes), n, bytes, depth), nodes)
      ensures r != Ok ==> Relinked(old(nodes), nodes)
      ensures SameSlack(old(nodes), owed, nodes, owed)
      decreases n
    {
      hide NodeOk, SameHomes, SameQuotas, Grown, OnChain, AlignUp, After, EqualQuotas, SameSlack;
      RelinkedSelf(nodes);
      SlackSelf(nodes, owed);
      left := depth - 1;
      if left == 0 { return Unknown, left; }
      if nodes[n].used + nodes[n].prealloc + bytes > nodes[n].max { return OutOfMem, left; }
      var parent := GetParent(n);
      if parent.None? { return OutOfMem, left; }
      var p := parent.value;
      ghost var linked, grew := nodes, 0;
      RelinkedAt(old(nodes), linked, p);
      hide Home, Up;
      if bytes > nodes[p].prealloc {
        var more := AlignUp(bytes - nodes[p].prealloc, PAGE_SIZE);
        AlignUpSpec(bytes - nodes[p].prealloc, PAGE_SIZE);
        RelinkedOutcome(old(nodes), linked, p, more, left);
        r, left := PreallocInner(p, more, left);
        SlackTrans(old(nodes), owed, linked, owed, nodes, owed);
        if r != Ok {
          RelinkedTrans(old(nodes), linked, nodes);
          return;
        }
        grew := more;
      }
      r := Ok;
      StepUp(old(nodes), linked, nodes, n, grew, bytes);
      AfterStep(old(nodes), linked, nodes, n, grew, bytes, depth);
      ghost var mid := nodes;
      Move(p, n, bytes);
      SlackTrans(old(nodes), owed, mid, owed, nodes, owed);
    }

    method Move(p: nat, n: nat, bytes: nat)
      requires Valid() && 0 < n < |nodes| && nodes[n].alive && p == Up(nodes, n)
      requires bytes <= nodes[p].prealloc && nodes[n].Total() + bytes <= nodes[n].max
      modifies this`nodes
      ensures Valid() && nodes == Moved(old(nodes), p, n, bytes) && SameSlack(old(nodes), owed, nodes, owed)
    {
      MoveInv(nodes, owed, p, n, bytes);
      nodes := nodes[p := nodes[p].(prealloc := nodes[p].prealloc - bytes, used := nodes[p].used + bytes)];
      nodes := nodes[n := nodes[n].(prealloc := nodes[n].prealloc + bytes)];
    }

    /** Marks bytes as allocated in live node `n` on behalf of node `x`, for which `n` answers. A failure
        changes no quota anywhere. */
    method AllocBytes(n: nat, bytes: nat, ghost x: nat) returns (r: Result)
      requires Valid() && x < |nodes| && n == Home(nodes, x)
      modifies this
      ensures Valid() && r == AllocOutcome(old(nodes), n, bytes)
      ensures r != Ok ==> Relinked(old(nodes), nodes) && owed == old(owed)
      ensures r == Ok ==> owed == old(owed)[x := old(owed)[x] + bytes]
      ensures r == Ok ==> EqualQuotas(AfterAlloc(old(nodes), n, bytes), nodes) && Home(nodes, x) == n
      ensures SameSlack(old(nodes), old(owed), nodes, owed)
    {
      hide NodeOk, SameHomes, SameQuotas, OnChain, AlignUp, Outcome, After, EqualQuotas, SameSlack;
      RelinkedSelf(nodes);
      SlackSelf(nodes, owed);
      EqualSelf(nodes);
      if bytes > nodes[n].prealloc {
        var more := AlignUp(bytes - nodes[n].prealloc, PAGE_SIZE);
        AlignUpSpec(bytes - nodes[n].prealloc, PAGE_SIZE);
        var left;
        r, left := PreallocInner(n, more, PREALLOC_RECURSE_DEPTH);
        if r != Ok { return; }
        GrownHome(old(nodes), nodes, n, more, x);
      }
      r := Ok;
      hide Home;
      ghost var mid := nodes;
      ghost var was := old(nodes);
      var more := if bytes > was[n].prealloc then AlignUp(bytes - was[n].prealloc, PAGE_SIZE) else 0;
      ChargedEqual(if more > 0 then After(was, n, more, PREALLOC_RECURSE_DEPTH) else was, mid, n, bytes);
      Charge(n, bytes, x);
      SlackTrans(old(nodes), old(owed), mid, old(owed), nodes, owed);
    }

    method Charge(n: nat, bytes: nat, ghost x: nat)
      requires Valid() && x < |nodes| && n == Home(nodes, x) && bytes <= nodes[n].prealloc
      modifies this
      ensures Valid() && nodes == Charged(old(nodes), n, bytes) && owed == old(owed)[x := old(owed)[x] + bytes]
      ensures SameSlack(old(nodes), old(owed), nodes, owed) && Home(nodes, x) == n
    {
      ChargeInv(nodes, owed, x, bytes);
      HomeSame(nodes, Charged(nodes, n, bytes), x);
      nodes := nodes[n := nodes[n].(prealloc := nodes[n].prealloc - bytes, used := nodes[n].used + bytes)];
      owed := owed[x := owed[x] + bytes];
    }

    /** Gives bytes allocated on behalf of `x` back to live node `n`; the source's assertion that the node
        has that many in use holds. */
    method DeallocBytes(n: nat, bytes: nat, ghost x: nat)
      requires Valid() && x < |nodes| && n == Home(nodes, x) && bytes <= owed[x]
      modifies this
      ensures bytes <= old(nodes)[n].used
      ensures Valid() && nodes == Refunded(old(nodes), n, bytes) && owed == old(owed)[x := old(owed)[x] - bytes]
      ensures SameSlack(old(nodes), old(owed), nodes, owed)
    {
      RefundInv(nodes, owed, x, bytes);
      assert nodes[n].used >= bytes;
      nodes := nodes[n := nodes[n].(prealloc := nodes[n].prealloc + bytes, used := nodes[n].used - bytes)];
      owed := owed[x := owed[x] - bytes];
    }

    /** `with_inner`: the node a wrapper's allocator currently resolves to. */
    method Resolve(w: nat) returns (n: nat)
      requires Valid() && w < |nodes|
      modifies this`nodes
      ensures Valid() && Relinked(old(nodes), nodes) && n == Home(old(nodes), w) && n < |nodes| && Home(nodes, w) == n
      ensures SameSlack(old(nodes), owed, nodes, owed)
    {
      if nodes[w].alive {
        RelinkedSelf(nodes);
        SlackSelf(nodes, owed);
        return w;
      }
      var p := GetParent(w);
      n := p.value;
    }

    /** `alloc_bytes` through a wrapper. */
    method ChargeThrough(w: nat, bytes: nat) returns (ok: bool)
      requires Valid() && w < |nodes|
      modifies this
      ensures Valid() && ok == (AllocOutcome(old(nodes), Home(old(nodes), w), bytes) == Ok)
      ensures owed == if ok then old(owed)[w := old(owed)[w] + bytes] else old(owed)
      ensures SameSlack(old(nodes), old(owed), nodes, owed) && (!ok ==> Relinked(old(nodes), nodes))
    {
      hide NodeOk, SameHomes, SameQuotas, Outcome, AllocOutcome, AfterAlloc, EqualQuotas, SameSlack, Relinked;
      hide Inv, Home;
      var n := Resolve(w);
      ghost var linked := nodes;
      RelinkedAllocOutcome(old(nodes), linked, n, bytes);
      var r := AllocBytes(n, bytes, w);
      SlackTrans(old(nodes), old(owed), linked, old(owed), nodes, owed);
      if r != Ok { RelinkedTrans(old(nodes), linked, nodes); }
      ok := r == Ok;
    }

    /** `dealloc_bytes` through a wrapper, where `charge` was charged for what is released: the source's
        assertion, here `false`, fails if the node has less in use. */
    method RefundThrough(w: nat, bytes: nat, ghost x: nat, ghost charge: nat) returns (ok: bool)
      requires Valid() && w < |nodes| && x < |nodes| && Home(nodes, x) == Home(nodes, w) && charge <= owed[x]
      modifies this
      ensures ok <==> bytes <= old(nodes)[Home(old(nodes), w)].used
      ensures !ok ==> Valid() && Relinked(old(nodes), nodes) && owed == old(owed)
      ensures ok ==>
                && owed == old(owed)[x := old(owed)[x] - charge]
                && SlackMoved(old(nodes), old(owed), nodes, owed, Home(old(nodes), w), charge - bytes)
                && (Valid() <==> Slack(old(nodes), old(owed), Home(old(nodes), w)) + charge - bytes >= 0)
      ensures bytes <= charge ==> ok && Valid()
    {
      hide NodeOk, SameQuotas, SameHomes, SameSlack, Slack;
      var n := Resolve(w);
      RelinkedHome(old(nodes), nodes, x);
      RelinkedUsed(old(nodes), nodes, n);
      OwedCovered(nodes, owed, x);
      hide Home, Relinked;
      if nodes[n].used < bytes { return false; }
      ghost var linked := nodes;
      SlackAt(old(nodes), old(owed), linked, owed, n);
      RefundOther(linked, owed, x, charge, bytes);
      nodes := nodes[n := nodes[n].(prealloc := nodes[n].prealloc + bytes, used := nodes[n].used - bytes)];
      owed := owed[x := owed[x] - charge];
      MovedAfterSame(old(nodes), old(owed), linked, old(owed), nodes, owed, n, charge - bytes);
      SlackNotNegative(linked, old(owed), n);
      ok := true;
    }

    /** Allocates pages through a wrapper: charges the size, then asks for the memory, which may be
        refused, and then takes the charge back. A refused quota changes no quota anywhere; refused memory
        leaves every quota as it was exactly when the reserve sufficed. */
    method PageAlloc(w: nat, size: nat, memory: bool) returns (ok: bool)
      requires Valid() && w < |nodes|
      modifies this
      ensures Valid() && ok == (memory && AllocOutcome(old(nodes), Home(old(nodes), w), size) == Ok)
      ensures owed == if ok then old(owed)[w := old(owed)[w] + size] else old(owed)
      ensures var n := Home(old(nodes), w);
              if AllocOutcome(old(nodes), n, size) != Ok then Relinked(old(nodes), nodes)
              else if memory then EqualQuotas(AfterAlloc(old(nodes), n, size), nodes)
              else
                && EqualQuotas(AfterRefusal(old(nodes), n, size), nodes)
                && (EqualQuotas(old(nodes), nodes) <==> size <= old(nodes)[n].prealloc)
      ensures SameSlack(old(nodes), old(owed), nodes, owed)
    {
      hide NodeOk, SameHomes, SameQuotas, OnChain, AlignUp, Outcome, AllocOutcome, AfterAlloc, EqualQuotas, SameSlack,
           AfterRefusal, Relinked, Inv, Home;
      var n := Resolve(w);
      ghost var was, linked := old(nodes), nodes;
      RelinkedAllocOutcome(was, linked, n, size);
      var r := AllocBytes(n, size, w);
      SlackTrans(was, old(owed), linked, old(owed), nodes, owed);
      if r != Ok {
        RelinkedTrans(was, linked, nodes);
        return false;
      }
      AfterAllocSame(was, linked, n, size);
      EqualTrans(AfterAlloc(was, n, size), AfterAlloc(linked, n, size), nodes);
      if !memory {
        TakeBack(w, n, size, was, old(owed));
        return false;
      }
      ok := true;
    }

    /** Takes a charge back for which memory was refused. */
    method TakeBack(w: nat, n: nat, size: nat, ghost nodes0: seq<Inner>, ghost owed0: seq<nat>)
      requires Valid() && w < |nodes| == |owed0| && owed == owed0[w := owed0[w] + size] && n == Home(nodes, w)
      requires SameSlack(nodes0, owed0, nodes, owed)
      requires Shape(nodes0) && |nodes0| == |nodes| && AllocOutcome(nodes0, n, size) == Ok
      requires EqualQuotas(AfterAlloc(nodes0, n, size), nodes)
      modifies this
      ensures Valid() && owed == owed0 && SameSlack(nodes0, owed0, nodes, owed)
      ensures EqualQuotas(AfterRefusal(nodes0, n, size), nodes)
      ensures EqualQuotas(nodes0, nodes) <==> size <= nodes0[n].prealloc
    {
      hide NodeOk, SameHomes, SameQuotas, SameSlack, AllocOutcome, EqualQuotas;
      ghost var before := nodes;
      var m := Resolve(w);
      ghost var linked := nodes;
      SlackTrans(nodes0, owed0, before, owed, linked, owed);
      RelinkedEqual(before, linked);
      EqualTrans(AfterAlloc(nodes0, n, size), before, linked);
      RefundedEqual(AfterAlloc(nodes0, n, size), linked, n, size);
      hide Home, AfterAlloc;
      ghost var charged := owed;
      DeallocBytes(m, size, w);
      SlackTrans(nodes0, owed0, linked, charged, nodes, owed);
      RefusalKeeps(nodes0, n, size);
      EqualBoth(nodes0, AfterRefusal(nodes0, n, size), nodes);
    }

    /** Releases pages through a wrapper that resolves to the same node as the one they were charged to: the
        quota goes back to the reserve of the nearest live allocator. */
    method PageDealloc(w: nat, size: nat, ghost x: nat)
      requires Valid() && w < |nodes| && x < |nodes| && Home(nodes, x) == Home(nodes, w) && size <= owed[x]
      modifies this
      ensures Valid() && owed == old(owed)[x := old(owed)[x] - size] && SameSlack(old(nodes), old(owed), nodes, owed)
      ensures size <= old(nodes)[Home(old(nodes), w)].used
      ensures EqualQuotas(Refunded(old(nodes), Home(old(nodes), w), size), nodes)
    {
      hide NodeOk, SameQuotas, SameHomes, SameSlack, EqualQuotas;
      OwedCovered(nodes, owed, x);
      var n := Resolve(w);
      RelinkedHome(old(nodes), nodes, x);
      hide Home;
      ghost var linked := nodes;
      RelinkedEqual(old(nodes), linked);
      RefundedEqual(old(nodes), linked, n, size);
      DeallocBytes(n, size, x);
      SlackTrans(old(nodes), old(owed), linked, old(owed), nodes, owed);
    }

    method KillAllocator(n: nat)
      requires Valid() && 0 < n < |nodes|
      modifies this`nodes
      ensures Valid() && nodes == Killed(old(nodes), n)
      ensures old(nodes)[n].alive ==> forall m :: 0 <= m < |nodes| && m != n && nodes[m].alive ==>
                Slack(nodes, owed, m) ==
                Slack(old(nodes), owed, m) +
                if m == Up(old(nodes), n) then Slack(old(nodes), owed, n) + old(nodes)[n].prealloc else 0
    {
      if nodes[n].alive { KillInv(nodes, owed, n); } else { assert Killed(nodes, n) == nodes; }
      hide NodeOk;
      nodes := nodes[n := nodes[n].(alive := false)];
    }
  }
}
