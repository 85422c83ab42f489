/** One zone of the kernel heap: an address-ordered list of free nodes, split from the end on
    allocation and merged with both neighbours on release. */
module HeapZone {
  import opened BitUtils
  import opened Wrappers

  /** 1 << log2_up(size of a list node, 24 bytes). */
  const CHUNK: nat := 32
  /** The zone's own header, 80 bytes, rounded up to a chunk. */
  const INITIAL_CHUNK: nat := 96

  datatype Node = Node(addr: nat, size: nat) {
    function End(): nat { addr + size }
  }

  datatype ResizeResult = Shrink(addr: nat) | Remove(addr: nat) | NoCapacity

  function Max(a: nat, b: nat): nat { if a < b then b else a }

  /** `Node::resize`: where a block of `size` bytes comes off the end of a node. */
  function Resize(n: Node, size: nat, align: nat): ResizeResult
    requires align > 0
  {
    if size > n.size then NoCapacity
    else
      var naddr := AlignDown(n.addr + (n.size - size), Max(align, CHUNK));
      if naddr < n.addr then NoCapacity
      else if naddr - n.addr >= CHUNK then Shrink(naddr) else Remove(naddr)
  }

  function Sum(nodes: seq<Node>): nat {
    if nodes == [] then 0 else nodes[0].size + Sum(nodes[1..])
  }

  lemma {:induction false} SumConcat(a: seq<Node>, b: seq<Node>)
    ensures Sum(a + b) == Sum(a) + Sum(b)
  {
    if a == [] {
      assert a + b == b;
    } else {
      SumConcat(a[1..], b);
      assert (a + b)[1..] == a[1..] + b;
    }
  }

  lemma {:induction false} SumAround(a: seq<Node>, n: Node, b: seq<Node>)
    ensures Sum(a + [n] + b) == Sum(a) + n.size + Sum(b)
  {
    SumConcat(a + [n], b);
    SumConcat(a, [n]);
    assert Sum([n]) == n.size + Sum([n][1..]);
  }

  lemma {:induction false} SumAt(nodes: seq<Node>, k: nat)
    requires k < |nodes|
    ensures Sum(nodes) == Sum(nodes[..k]) + nodes[k].size + Sum(nodes[k + 1..])
  {
    SumAround(nodes[..k], nodes[k], nodes[k + 1..]);
    assert nodes == nodes[..k] + [nodes[k]] + nodes[k + 1..];
  }

  /** Free nodes are chunk-multiples inside the zone, in address order, and never touch. */
  ghost predicate Ordered(nodes: seq<Node>, lo: nat, hi: nat) {
    && (forall k :: 0 <= k < |nodes| ==> Placed(nodes[k], lo, hi))
    && (forall j, k :: 0 <= j < k < |nodes| ==> nodes[j].End() < nodes[k].addr)
  }

  ghost predicate Placed(n: Node, lo: nat, hi: nat) {
    n.addr % CHUNK == 0 && n.size % CHUNK == 0 && n.size > 0 && lo <= n.addr && n.End() <= hi
  }

  predicate Apart(a: Node, b: Node) { a.End() <= b.addr || b.End() <= a.addr }

  ghost predicate Holds(n: Node, x: nat) { n.addr <= x < n.End() }

  ghost predicate InFree(nodes: seq<Node>, x: nat) {
    exists k :: 0 <= k < |nodes| && Holds(nodes[k], x)
  }

  ghost predicate InLive(live: set<Node>, x: nat) {
    exists b :: b in live && Holds(b, x)
  }

  /** Live blocks lie in the zone, overlap neither each other nor a free node, and together with the
      free nodes leave no byte over. */
  ghost predicate Tiles(nodes: seq<Node>, live: set<Node>, lo: nat, hi: nat) {
    && (forall b :: b in live ==> Placed(b, lo, hi))
    && (forall a, b :: a in live && b in live && a != b ==> Apart(a, b))
    && (forall b, k :: b in live && 0 <= k < |nodes| ==> Apart(b, nodes[k]))
    && (forall x :: lo <= x < hi ==> InFree(nodes, x) || InLive(live, x))
  }

  // ---------------------------------------------------------------------------
  // Where a block comes from
  // ---------------------------------------------------------------------------

  predicate IsAlign(align: nat) { align > 0 && AlignOf(align) == align }

  /** The larger of the alignment and a chunk is a multiple of both. */
  lemma {:induction false} MaxAlign(align: nat)
    requires IsAlign(align)
    ensures Max(align, CHUNK) % CHUNK == 0 && Max(align, CHUNK) % align == 0
  {
    PowerOfTwo(align);
    var e := Log2(align);
    assert Pow2(5) == 32;
    if e >= 5 {
      Pow2Mono(5, e);
      ModOfMultiple(1, Pow2(e));
      DividesSmaller(Pow2(e), 5, e);
    } else {
      Pow2Mono(e, 5);
      ModOfMultiple(1, Pow2(5));
      DividesSmaller(Pow2(5), e, 5);
    }
  }

  /** A block taken off a free node: aligned, long enough, a chunk-multiple reaching to the node's
      end; and when less than a chunk would be left, nothing is. */
  lemma {:induction false} ResizeSpec(n: Node, size: nat, align: nat, lo: nat, hi: nat)
    requires IsAlign(align) && size > 0 && Placed(n, lo, hi)
    ensures Resize(n, size, align).NoCapacity? <==> !Fits(n, size, align)
    ensures Fits(n, size, align) ==>
              var addr := BlockAddr(n, size, align);
              && n.addr <= addr && addr + size <= n.End()
              && addr % align == 0 && addr % CHUNK == 0 && (addr - n.addr) % CHUNK == 0 && (n.End() - addr) % CHUNK == 0
              && Resize(n, size, align) == if addr > n.addr then Shrink(addr) else Remove(addr)
  {
    assert align > 0;
    hide AlignDown, IsAlign;
    if Fits(n, size, align) {
      var addr := BlockAddr(n, size, align);
      BlockAligned(n.addr + (n.size - size), align);
      EndAligned(n, lo, hi);
      ChunkSteps(n.addr, addr, n.End());
    }
  }

  lemma {:induction false} BlockAligned(x: nat, align: nat)
    requires IsAlign(align)
    ensures var addr := AlignDown(x, Max(align, CHUNK)); addr <= x && addr % align == 0 && addr % CHUNK == 0
  {
    var a := Max(align, CHUNK);
    var addr := AlignDown(x, a);
    assert addr <= x && addr % a == 0 by { AlignDownSpec(x, a); }
    assert a % CHUNK == 0 && a % align == 0 by { MaxAlign(align); }
    hide AlignDown;
    MultipleOfFactor(addr, a, align);
    MultipleOfFactor(addr, a, CHUNK);
  }

  lemma {:induction false} EndAligned(n: Node, lo: nat, hi: nat)
    requires Placed(n, lo, hi)
    ensures n.End() % CHUNK == 0
  {
  }

  lemma {:induction false} ChunkSteps(a: nat, b: nat, c: nat)
    requires a % CHUNK == 0 && b % CHUNK == 0 && c % CHUNK == 0 && a <= b <= c
    ensures (b - a) % CHUNK == 0 && (c - b) % CHUNK == 0
    ensures b > a ==> b - a >= CHUNK
  {
  }

  lemma {:induction false} MultipleOfFactor(x: nat, a: nat, d: nat)
    requires d > 0 && a > 0 && x % a == 0 && a % d == 0
    ensures x % d == 0
  {
    var c := a / d;
    assert a == c * d;
    assert c > 0;
    FactorDivides(x, c, d);
  }

  /** The address `Resize` computes. */
  function BlockAddr(n: Node, size: nat, align: nat): nat
    requires align > 0 && size <= n.size
  {
    AlignDown(n.addr + (n.size - size), Max(align, CHUNK))
  }

  predicate Fits(n: Node, size: nat, align: nat)
    requires align > 0
  {
    size <= n.size && n.addr <= BlockAddr(n, size, align)
  }

  /** `get_allocation`: the length a release recomputes from address and layout. */
  function RecomputedLength(addr: nat, size: nat, align: nat): Option<nat>
    requires align > 0
  {
    if AlignOf(addr) < CHUNK then None else Some(AlignUp(size, Max(CHUNK, align)))
  }

  /** The recomputed length against the length handed out, for a block that comes off a node ending at
      `end`: with the rest `r` of that end and the bytes handed out over the size asked for, it is short by
      `r` if there are at least `r` such bytes, and otherwise reaches to the next multiple past the end. */
  lemma {:induction false} LengthExact(end: nat, size: nat, a: nat)
    requires 0 < size <= end && a > 0
    ensures var len, r := end - AlignDown(end - size, a), end % a;
            AlignUp(size, a) == if r <= len - size then len - r else len + (a - r)
  {
    var down, up, r := AlignDown(end - size, a), AlignUp(size, a), end % a;
    AlignDownSpec(end - size, a);
    AlignUpSpec(size, a);
    SumOfMultiples(down, up, a);
    var f := end - r;
    assert f == end / a * a;
    ModOfMultiple(end / a, a);
    hide AlignUp, AlignDown;
    var g := if r <= end - down - size then f else f + a;
    SumOfMultiples(f, a, a);
    if down + up < g { MultiplesApart(down + up, g, a); }
    if g < down + up { MultiplesApart(g, down + up, a); }
  }

  /** The recomputed length is the length handed out exactly when the node's end was aligned to the
      larger of chunk and alignment. */
  lemma {:induction false} LengthAgrees(end: nat, size: nat, a: nat)
    requires 0 < size <= end && a > 0
    ensures end - AlignDown(end - size, a) == AlignUp(size, a) <==> end % a == 0
  {
    LengthExact(end, size, a);
    AlignDownSpec(end - size, a);
    hide AlignUp, AlignDown;
  }

  lemma {:induction false} SumOfMultiples(x: nat, y: nat, d: nat)
    requires d > 0 && x % d == 0 && y % d == 0
    ensures (x + y) % d == 0
  {
    var p, q := x / d, y / d;
    assert x + y == (p + q) * d;
    ModOfMultiple(p + q, d);
  }

  // ---------------------------------------------------------------------------
  // The list after an allocation and after a release
  // ---------------------------------------------------------------------------

  /** Node `k` cut back to end at `addr`, or removed if nothing is left. */
  function CutAt(nodes: seq<Node>, k: nat, addr: nat): seq<Node>
    requires k < |nodes| && nodes[k].addr <= addr
  {
    if addr > nodes[k].addr then nodes[k := Node(nodes[k].addr, addr - nodes[k].addr)]
    else nodes[..k] + nodes[k + 1..]
  }

  /** The old node that node `j` of the shortened list is, or is the front part of. */
  ghost function Origin(nodes: seq<Node>, k: nat, addr: nat, j: nat): nat
    requires k < |nodes| && nodes[k].addr <= addr < nodes[k].End()
  {
    if addr > nodes[k].addr || j < k then j else j + 1
  }

  lemma {:induction false} CutNode(nodes: seq<Node>, k: nat, addr: nat, j: nat)
    requires k < |nodes| && nodes[k].addr <= addr < nodes[k].End() && j < |CutAt(nodes, k, addr)|
    ensures var i := Origin(nodes, k, addr, j);
            && i < |nodes|
            && CutAt(nodes, k, addr)[j] == if i == k then Node(nodes[k].addr, addr - nodes[k].addr) else nodes[i]
    ensures Origin(nodes, k, addr, j) == k ==> addr > nodes[k].addr
  {
  }

  lemma {:induction false} CutOrdered(nodes: seq<Node>, lo: nat, hi: nat, k: nat, addr: nat)
    requires Ordered(nodes, lo, hi) && k < |nodes| && nodes[k].addr <= addr < nodes[k].End()
    requires (addr - nodes[k].addr) % CHUNK == 0
    ensures Ordered(CutAt(nodes, k, addr), lo, hi)
  {
    var after := CutAt(nodes, k, addr);
    hide CutAt, Placed;
    forall j | 0 <= j < |after| ensures Placed(after[j], lo, hi) {
      CutNode(nodes, k, addr, j);
      CutPlaced(nodes[k], addr, lo, hi);
    }
    forall i, j | 0 <= i < j < |after| ensures after[i].End() < after[j].addr {
      CutNode(nodes, k, addr, i);
      CutNode(nodes, k, addr, j);
      assert nodes[Origin(nodes, k, addr, i)].End() < nodes[Origin(nodes, k, addr, j)].addr;
    }
  }

  lemma {:induction false} CutPlaced(n: Node, addr: nat, lo: nat, hi: nat)
    requires Placed(n, lo, hi) && n.addr <= addr < n.End() && (addr - n.addr) % CHUNK == 0
    ensures addr > n.addr ==> Placed(Node(n.addr, addr - n.addr), lo, hi)
  {
  }

  lemma {:induction false} CutSum(nodes: seq<Node>, k: nat, addr: nat)
    requires k < |nodes| && nodes[k].addr <= addr < nodes[k].End()
    ensures Sum(CutAt(nodes, k, addr)) == Sum(nodes) - (nodes[k].End() - addr)
  {
    var after := CutAt(nodes, k, addr);
    SumAt(nodes, k);
    if addr > nodes[k].addr {
      SumAround(nodes[..k], after[k], nodes[k + 1..]);
      assert after == nodes[..k] + [after[k]] + nodes[k + 1..];
    } else {
      SumConcat(nodes[..k], nodes[k + 1..]);
    }
  }

  /** The end of node `k`, from `addr` on, becomes a live block. */
  lemma {:induction false} CutTiles(nodes: seq<Node>, live: set<Node>, lo: nat, hi: nat, k: nat, addr: nat)
    requires Ordered(nodes, lo, hi) && Tiles(nodes, live, lo, hi)
    requires k < |nodes| && nodes[k].addr <= addr < nodes[k].End()
    requires addr % CHUNK == 0 && (nodes[k].End() - addr) % CHUNK == 0
    ensures var b := Node(addr, nodes[k].End() - addr);
            b !in live && Tiles(CutAt(nodes, k, addr), live + {b}, lo, hi)
  {
    var b := Node(addr, nodes[k].End() - addr);
    var after := CutAt(nodes, k, addr);
    assert !Apart(b, nodes[k]);
    forall x | lo <= x < hi ensures InFree(after, x) || InLive(live + {b}, x) {
      CutCovers(nodes, live, k, addr, x);
    }
    hide CutAt, InFree, InLive;
    forall c | c in live ensures Apart(c, b) { assert Apart(c, nodes[k]); }
    forall c, j | c in live + {b} && 0 <= j < |after| ensures Apart(c, after[j]) {
      CutNode(nodes, k, addr, j);
      var i := Origin(nodes, k, addr, j);
      if c in live {
        assert Apart(c, nodes[i]);
      } else if i < k {
        assert nodes[i].End() < nodes[k].addr;
      } else if i > k {
        assert nodes[k].End() < nodes[i].addr;
      }
    }
  }

  lemma {:induction false} CutCovers(nodes: seq<Node>, live: set<Node>, k: nat, addr: nat, x: nat)
    requires k < |nodes| && nodes[k].addr <= addr < nodes[k].End()
    requires InFree(nodes, x) || InLive(live, x)
    ensures InFree(CutAt(nodes, k, addr), x) || InLive(live + {Node(addr, nodes[k].End() - addr)}, x)
  {
    var b := Node(addr, nodes[k].End() - addr);
    var after := CutAt(nodes, k, addr);
    if InLive(live, x) {
      var c :| c in live && Holds(c, x);
      assert c in live + {b};
    } else {
      var j :| 0 <= j < |nodes| && Holds(nodes[j], x);
      if j != k {
        var i := if addr > nodes[k].addr || j < k then j else j - 1;
        assert after[i] == nodes[j];
      } else if x < addr {
        assert Holds(after[k], x);
      } else {
        assert b in live + {b} && Holds(b, x);
      }
    }
  }

  /** `i` is where a block starting at `addr` belongs among the nodes. */
  ghost predicate IsGap(nodes: seq<Node>, addr: nat, i: nat) {
    && i <= |nodes|
    && (forall j :: 0 <= j < i ==> nodes[j].addr <= addr)
    && (forall j :: i <= j < |nodes| ==> addr < nodes[j].addr)
  }

  predicate JoinsPrev(nodes: seq<Node>, i: nat, b: Node)
    requires i <= |nodes|
  {
    i > 0 && nodes[i - 1].End() == b.addr
  }

  predicate JoinsNext(nodes: seq<Node>, i: nat, b: Node)
    requires i <= |nodes|
  {
    i < |nodes| && b.End() == nodes[i].addr
  }

  /** The node a released block ends up in. */
  function Joined(nodes: seq<Node>, i: nat, b: Node): (m: Node)
    requires i <= |nodes|
  {
    var addr := if JoinsPrev(nodes, i, b) then nodes[i - 1].addr else b.addr;
    var front := if JoinsPrev(nodes, i, b) then nodes[i - 1].size else 0;
    Node(addr, front + b.size + if JoinsNext(nodes, i, b) then nodes[i].size else 0)
  }

  /** The list with the block put back and merged with the neighbours it touches. */
  function Released(nodes: seq<Node>, i: nat, b: Node): seq<Node>
    requires i <= |nodes|
  {
    nodes[..if JoinsPrev(nodes, i, b) then i - 1 else i] + [Joined(nodes, i, b)] +
    nodes[if JoinsNext(nodes, i, b) then i + 1 else i..]
  }

  lemma {:induction false} ReleasedSum(nodes: seq<Node>, i: nat, b: Node)
    requires i <= |nodes|
    ensures Sum(Released(nodes, i, b)) == Sum(nodes) + b.size
  {
    var p := if JoinsPrev(nodes, i, b) then i - 1 else i;
    var q := if JoinsNext(nodes, i, b) then i + 1 else i;
    SumAround(nodes[..p], Joined(nodes, i, b), nodes[q..]);
    SumConcat(nodes[..i], nodes[i..]);
    assert nodes == nodes[..i] + nodes[i..];
    if p < i {
      SumConcat(nodes[..p], [nodes[p]]);
      assert nodes[..i] == nodes[..p] + [nodes[p]];
      assert Sum([nodes[p]]) == nodes[p].size + Sum([nodes[p]][1..]);
    }
    if q > i { assert nodes[i..][1..] == nodes[q..]; }
  }

  /** Before the gap every node ends at or before the block, after it every node starts at or after. */
  lemma {:induction false} GapSpec(nodes: seq<Node>, live: set<Node>, lo: nat, hi: nat, i: nat, b: Node)
    requires Ordered(nodes, lo, hi) && Tiles(nodes, live, lo, hi) && b in live && IsGap(nodes, b.addr, i)
    ensures forall j :: 0 <= j < i ==> nodes[j].End() <= b.addr
    ensures forall j :: i <= j < |nodes| ==> b.End() <= nodes[j].addr
  {
    forall j | 0 <= j < |nodes| ensures if j < i then nodes[j].End() <= b.addr else b.End() <= nodes[j].addr {
      assert Apart(b, nodes[j]) && Placed(nodes[j], lo, hi) && Placed(b, lo, hi);
    }
  }

  /** The merged node fits strictly between what stays before and what stays after it. */
  lemma {:induction false} JoinedSpec(nodes: seq<Node>, live: set<Node>, lo: nat, hi: nat, i: nat, b: Node)
    requires Ordered(nodes, lo, hi) && Tiles(nodes, live, lo, hi) && b in live && IsGap(nodes, b.addr, i)
    ensures Placed(Joined(nodes, i, b), lo, hi)
    ensures forall j :: 0 <= j < (if JoinsPrev(nodes, i, b) then i - 1 else i) ==>
              nodes[j].End() < Joined(nodes, i, b).addr
    ensures forall j :: (if JoinsNext(nodes, i, b) then i + 1 else i) <= j < |nodes| ==>
              Joined(nodes, i, b).End() < nodes[j].addr
  {
    GapSpec(nodes, live, lo, hi, i, b);
    assert Placed(b, lo, hi);
    if i > 0 { assert Placed(nodes[i - 1], lo, hi); }
    if i < |nodes| { assert Placed(nodes[i], lo, hi); }
    forall j | 0 <= j < i && i > 0 ensures j < i - 1 ==> nodes[j].End() < nodes[i - 1].addr {}
  }

  lemma {:induction false} ReleasedOrdered(nodes: seq<Node>, live: set<Node>, lo: nat, hi: nat, i: nat, b: Node)
    requires Ordered(nodes, lo, hi) && Tiles(nodes, live, lo, hi) && b in live && IsGap(nodes, b.addr, i)
    ensures Ordered(Released(nodes, i, b), lo, hi)
  {
    JoinedSpec(nodes, live, lo, hi, i, b);
    Splice(nodes, lo, hi, if JoinsPrev(nodes, i, b) then i - 1 else i, if JoinsNext(nodes, i, b) then i + 1 else i,
           Joined(nodes, i, b));
  }

  lemma {:induction false} Splice(nodes: seq<Node>, lo: nat, hi: nat, p: nat, q: nat, m: Node)
    requires Ordered(nodes, lo, hi) && p <= q <= |nodes| && Placed(m, lo, hi)
    requires forall j :: 0 <= j < p ==> nodes[j].End() < m.addr
    requires forall j :: q <= j < |nodes| ==> m.End() < nodes[j].addr
    ensures Ordered(nodes[..p] + [m] + nodes[q..], lo, hi)
  {
    var after := nodes[..p] + [m] + nodes[q..];
    hide Placed;
    assert forall j :: 0 <= j < p ==> after[j] == nodes[j];
    assert after[p] == m;
    assert forall j :: p < j < |after| ==> after[j] == nodes[j - p - 1 + q];
    forall i, j | 0 <= i < j < |after| ensures after[i].End() < after[j].addr {
      if i < p < j {
        assert nodes[i].End() < m.addr <= m.End() < nodes[j - p - 1 + q].addr;
      }
    }
  }

  lemma {:induction false} ReleasedTiles(nodes: seq<Node>, live: set<Node>, lo: nat, hi: nat, i: nat, b: Node)
    requires Ordered(nodes, lo, hi) && Tiles(nodes, live, lo, hi) && b in live && IsGap(nodes, b.addr, i)
    ensures Tiles(Released(nodes, i, b), live - {b}, lo, hi)
  {
    GapSpec(nodes, live, lo, hi, i, b);
    var after := Released(nodes, i, b);
    var p := if JoinsPrev(nodes, i, b) then i - 1 else i;
    var q := if JoinsNext(nodes, i, b) then i + 1 else i;
    forall x | lo <= x < hi ensures InFree(after, x) || InLive(live - {b}, x) {
      ReleasedCovers(nodes, live, i, b, x);
    }
    hide InFree, InLive;
    forall c, j | c in live - {b} && 0 <= j < |after| ensures Apart(c, after[j]) {
      if j < p { assert after[j] == nodes[j]; }
      else if j > p { assert after[j] == nodes[j - p - 1 + q]; }
      else { JoinedApart(nodes, live, lo, hi, i, b, c); }
    }
  }

  lemma {:induction false} JoinedApart(nodes: seq<Node>, live: set<Node>, lo: nat, hi: nat, i: nat, b: Node, c: Node)
    requires Ordered(nodes, lo, hi) && Tiles(nodes, live, lo, hi) && b in live && c in live && b != c && i <= |nodes|
    ensures Apart(c, Joined(nodes, i, b))
  {
    assert Apart(b, c) && Placed(b, lo, hi) && Placed(c, lo, hi);
    if i > 0 { assert Apart(c, nodes[i - 1]); }
    if i < |nodes| { assert Apart(c, nodes[i]); }
  }

  lemma {:induction false} ReleasedCovers(nodes: seq<Node>, live: set<Node>, i: nat, b: Node, x: nat)
    requires i <= |nodes| && (InFree(nodes, x) || InLive(live, x))
    ensures InFree(Released(nodes, i, b), x) || InLive(live - {b}, x)
  {
    var after := Released(nodes, i, b);
    var p := if JoinsPrev(nodes, i, b) then i - 1 else i;
    var q := if JoinsNext(nodes, i, b) then i + 1 else i;
    assert after[p] == Joined(nodes, i, b);
    if InLive(live, x) {
      var c :| c in live && Holds(c, x);
      if c == b { assert Holds(after[p], x); } else { assert c in live - {b}; }
    } else {
      var j :| 0 <= j < |nodes| && Holds(nodes[j], x);
      if j < p { assert after[j] == nodes[j]; }
      else if j >= q { assert after[j - q + p + 1] == nodes[j]; }
      else { assert Holds(after[p], x); }
    }
  }

  /** Releasing more than a block leaves no tiling: the byte after it was taken, or free already, or past the
      end. */
  lemma {:induction false} LongBreaks(nodes: seq<Node>, live: set<Node>, lo: nat, hi: nat, i: nat, b: Node, len: nat)
    requires Ordered(nodes, lo, hi) && Tiles(nodes, live, lo, hi) && b in live && IsGap(nodes, b.addr, i)
    requires len > b.size
    ensures var after := Released(nodes, i, Node(b.addr, len));
            !(Ordered(after, lo, hi) && Tiles(after, live - {b}, lo, hi))
  {
    var long, x := Node(b.addr, len), b.End();
    var after := Released(nodes, i, long);
    var k := if JoinsPrev(nodes, i, long) then i - 1 else i;
    assert after[k] == Joined(nodes, i, long) && Holds(after[k], x) && after[k].End() > x;
    GapSpec(nodes, live, lo, hi, i, b);
    assert Placed(b, lo, hi);
    if x < hi {
      if InLive(live, x) {
        var c :| c in live && Holds(c, x);
        assert c in live - {b} && !Apart(c, after[k]);
      } else {
        var j :| 0 <= j < |nodes| && Holds(nodes[j], x);
        assert j == i && nodes[i].addr == x && after[k + 1] == nodes[i];
      }
    }
  }

  /** A live block may be counted as two. */
  lemma {:induction false} SplitTiles(nodes: seq<Node>, live: set<Node>, lo: nat, hi: nat, b: Node, len: nat)
    requires Tiles(nodes, live, lo, hi) && b in live && 0 < len < b.size && len % CHUNK == 0
    ensures var front, rest := Node(b.addr, len), Node(b.addr + len, b.size - len);
            && front !in live && rest !in live && front != rest
            && Tiles(nodes, live - {b} + {front} + {rest}, lo, hi)
  {
    var front, rest := Node(b.addr, len), Node(b.addr + len, b.size - len);
    var after := live - {b} + {front} + {rest};
    hide InFree, InLive, Placed;
    SplitPlaced(b, len, lo, hi);
    assert !Apart(front, b) && !Apart(rest, b);
    forall c | c in live && c != b ensures SplitApart(c, front, rest) { assert Apart(c, b); }
    forall k | 0 <= k < |nodes| ensures SplitApart(nodes[k], front, rest) { assert Apart(b, nodes[k]); }
    forall x | lo <= x < hi ensures InFree(nodes, x) || InLive(after, x) {
      if InLive(live, x) { SplitCovers(live, b, len, x); }
    }
  }

  ghost predicate SplitApart(c: Node, front: Node, rest: Node) {
    Apart(c, front) && Apart(c, rest) && Apart(front, c) && Apart(rest, c)
  }

  lemma {:induction false} SplitPlaced(b: Node, len: nat, lo: nat, hi: nat)
    requires Placed(b, lo, hi) && 0 < len < b.size && len % CHUNK == 0
    ensures Placed(Node(b.addr, len), lo, hi) && Placed(Node(b.addr + len, b.size - len), lo, hi)
  {
  }

  lemma {:induction false} SplitCovers(live: set<Node>, b: Node, len: nat, x: nat)
    requires InLive(live, x) && b in live && 0 < len < b.size
    ensures InLive(live - {b} + {Node(b.addr, len)} + {Node(b.addr + len, b.size - len)}, x)
  {
    var front, rest := Node(b.addr, len), Node(b.addr + len, b.size - len);
    var c :| c in live && Holds(c, x);
    var d := if c != b then c else if x < rest.addr then front else rest;
    assert d in live - {b} + {front} + {rest} && Holds(d, x);
  }

  /** Block `b` came off the end of node `k`, the first that could give one. */
  ghost predicate Took(before: seq<Node>, after: seq<Node>, k: nat, size: nat, align: nat, b: Node)
    requires align > 0
  {
    && k < |before| && Fits(before[k], size, align)
    && (forall j :: 0 <= j < k ==> !Fits(before[j], size, align))
    && b.addr == BlockAddr(before[k], size, align) && b.End() == before[k].End()
    && after == CutAt(before, k, b.addr)
  }
}
