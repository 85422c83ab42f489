/** How the processor translates an address through four levels of tables (section 4.5 of the Intel SDM,
    Volume 3A): which bits of the address index which table, where the address of a frame is in an entry, and
    which bits along the way allow writing, user access and execution or choose the memory type. */
module Processor {
  import opened BitUtils
  import opened PageEntry
  import opened Wrappers

  /** What a translation allows; the last three choose the memory type. */
  datatype Access = Access(frame: nat, write: bool, user: bool, exec: bool, pwt: bool, pcd: bool, pat: bool)

  const NO_EXEC: nat := 0x8000_0000_0000_0000

  predicate Set(w: Word, unit: nat)
    requires unit > 0
  {
    w / unit % 2 == 1
  }

  function FrameOf(w: Word): nat { w / 4096 % 0x100_0000_0000 * 4096 }

  /** What the entry for a page says. */
  function PageAccess(w: Word): Access {
    Access(FrameOf(w), Set(w, 2), Set(w, 4), !Set(w, NO_EXEC), Set(w, 8), Set(w, 16), Set(w, 128))
  }

  /** Bits 39 to 47, 30 to 38, 21 to 29 and 12 to 20. */
  function AddressBits(addr: nat): (r: seq<nat>)
    ensures |r| == 4 && forall k :: 0 <= k < 4 ==> r[k] < 512
  {
    [addr / 0x80_0000_0000 % 512, addr / 0x4000_0000 % 512, addr / 0x20_0000 % 512, addr / 0x1000 % 512]
  }

  /** From table `f` down the given indices. Above the last level bit 7 would map a larger page, of which there
      are none here. */
  function Translate(mem: map<nat, Table>, f: nat, idx: seq<nat>): Option<Access>
    requires idx != [] && forall k :: 0 <= k < |idx| ==> idx[k] < 512
    decreases |idx|
  {
    if f !in mem then None
    else
      var w := mem[f][idx[0]];
      if !Set(w, 1) then None
      else if |idx| == 1 then Some(PageAccess(w))
      else if Set(w, 128) then None
      else
        match Translate(mem, FrameOf(w), idx[1..])
        case None => None
        case Some(a) =>
          Some(a.(write := a.write && Set(w, 2), user := a.user && Set(w, 4), exec := a.exec && !Set(w, NO_EXEC)))
  }

  // ---------------------------------------------------------------------------
  // The bits that hold the count are not looked at
  // ---------------------------------------------------------------------------

  lemma {:induction false} AboveUnit(x: nat, m: nat, unit: nat)
    requires unit > 0
    ensures (x + m * (2 * unit)) / unit % 2 == x / unit % 2
  {
    AboveParts(x / unit, x % unit, m, unit);
    assert x == x / unit * unit + x % unit;
  }

  lemma {:induction false} AboveParts(q: nat, r: nat, m: nat, unit: nat)
    requires r < unit
    ensures (q * unit + r + m * (2 * unit)) / unit % 2 == q % 2
  {
    Regroup(q, m, unit, r);
    DivOf(q + 2 * m, unit, r);
    EvenMore(q, m);
  }

  lemma {:induction false} Regroup(q: nat, m: nat, unit: nat, r: nat)
    ensures q * unit + r + m * (2 * unit) == (q + 2 * m) * unit + r
  {
  }

  lemma {:induction false} EvenMore(q: nat, m: nat)
    ensures (q + 2 * m) % 2 == q % 2
  {
  }

  lemma {:induction false} DivOf(q: nat, d: nat, r: nat)
    requires r < d
    ensures (q * d + r) / d == q
  {
    assert (q + 1) * d == q * d + d;
    DivUnique(q * d + r, d, q);
  }

  /** A word is its top bit, its count and the rest. */
  lemma {:induction false} Parts(w: Word) returns (top: nat, low: nat)
    ensures low < COUNT_UNIT && w == top * NO_EXEC + Count(w) * COUNT_UNIT + low && NoCount(w) == top * NO_EXEC + low
    ensures top <= 1
  {
    top, low := w / COUNT_UNIT / COUNT_LIMIT, w % COUNT_UNIT;
    assert w == w / COUNT_UNIT * COUNT_UNIT + low;
    assert w / COUNT_UNIT == top * COUNT_LIMIT + Count(w);
  }

  lemma {:induction false} TopBit(top: nat, low: nat)
    requires top <= 1 && low < NO_EXEC
    ensures (top * NO_EXEC + low) / NO_EXEC % 2 == top
  {
    DivOf(top, NO_EXEC, low);
  }

  lemma {:induction false} FrameBits(top: nat, n: nat, low: nat)
    requires low < COUNT_UNIT
    ensures (top * NO_EXEC + n * COUNT_UNIT + low) / 4096 % 0x100_0000_0000 * 4096 == low / 4096 * 4096
  {
    var q, k := top * COUNT_LIMIT + n, low / 4096;
    var x := top * NO_EXEC + n * COUNT_UNIT + low;
    assert x == (q * 0x100_0000_0000 + k) * 4096 + low % 4096;
    DivOf(q * 0x100_0000_0000 + k, 4096, low % 4096);
    DivOf(q, 0x100_0000_0000, k);
  }

  /** What the processor reads of an entry does not depend on the count hidden in it. */
  lemma {:induction false} CountIgnored(w: Word)
    ensures PageAccess(w) == PageAccess(NoCount(w)) && Set(w, 1) == Present(NoCount(w))
    ensures FrameOf(w) == Address(w) && Set(w, 128) == Huge(w)
  {
    FrameIgnored(w);
    TopIgnored(w);
    CountFlags(NoCount(w), Count(w));
    assert w == NoCount(w) + Count(w) * COUNT_UNIT && NoCount(w) / 1 == NoCount(w);
    hide FrameOf, Address, NoCount, Count;
  }

  lemma {:induction false} FrameIgnored(w: Word)
    ensures FrameOf(w) == FrameOf(NoCount(w)) == Address(w)
  {
    var top, low := Parts(w);
    FrameBits(top, Count(w), low);
    FrameBits(top, 0, low);
    LowPart(top, Count(w), low);
    hide Count, NoCount;
  }

  lemma {:induction false} LowPart(top: nat, n: nat, low: nat)
    requires low < COUNT_UNIT
    ensures (top * NO_EXEC + n * COUNT_UNIT + low) % COUNT_UNIT == low
  {
    var q := top * COUNT_LIMIT + n;
    assert top * NO_EXEC + n * COUNT_UNIT + low == q * COUNT_UNIT + low;
    DivOf(q, COUNT_UNIT, low);
  }

  lemma {:induction false} TopIgnored(w: Word)
    ensures Set(w, NO_EXEC) == Set(NoCount(w), NO_EXEC)
  {
    var top, low := Parts(w);
    TopBit(top, Count(w) * COUNT_UNIT + low);
    TopBit(top, low);
    hide NoCount;
  }

  lemma {:induction false} CountFlags(x: nat, n: nat)
    ensures var w := x + n * COUNT_UNIT;
            && w / 1 % 2 == x / 1 % 2 && w / 2 % 2 == x / 2 % 2 && w / 4 % 2 == x / 4 % 2
            && w / 8 % 2 == x / 8 % 2 && w / 16 % 2 == x / 16 % 2 && w / 128 % 2 == x / 128 % 2
  {
    AboveUnit(x, n * 0x8_0000_0000_0000, 1);
    AboveUnit(x, n * 0x4_0000_0000_0000, 2);
    AboveUnit(x, n * 0x2_0000_0000_0000, 4);
    AboveUnit(x, n * 0x1_0000_0000_0000, 8);
    AboveUnit(x, n * 0x8000_0000_0000, 16);
    AboveUnit(x, n * 0x1000_0000_0000, 128);
  }

  /** A word made of a frame, flags below bit 12 and the top bit. */
  lemma {:induction false} WordOf(f: nat, flags: nat, top: nat)
    requires f % 4096 == 0 && f < COUNT_UNIT && flags < 4096 && top <= 1
    ensures var w := f + flags + top * NO_EXEC;
            && w < 0x1_0000_0000_0000_0000 && FrameOf(w) == f && (Set(w, NO_EXEC) <==> top == 1)
            && (Set(w, 1) <==> flags % 2 == 1) && (Set(w, 2) <==> flags / 2 % 2 == 1)
            && (Set(w, 4) <==> flags / 4 % 2 == 1) && (Set(w, 8) <==> flags / 8 % 2 == 1)
            && (Set(w, 16) <==> flags / 16 % 2 == 1) && (Set(w, 128) <==> flags / 128 % 2 == 1)
  {
    var k, w := f / 4096, f + flags + top * NO_EXEC;
    assert f + flags < COUNT_UNIT;
    FrameBits(top, 0, f + flags);
    TopBit(top, f + flags);
    FlagBits(k, flags, top);
  }

  lemma {:induction false} FlagBits(k: nat, flags: nat, top: nat)
    ensures var w := 4096 * k + flags + top * NO_EXEC;
            && w % 2 == flags % 2 && w / 2 % 2 == flags / 2 % 2 && w / 4 % 2 == flags / 4 % 2
            && w / 8 % 2 == flags / 8 % 2 && w / 16 % 2 == flags / 16 % 2 && w / 128 % 2 == flags / 128 % 2
  {
    AboveUnit(flags, 2048 * k + top * 0x4000_0000_0000_0000, 1);
    AboveUnit(flags, 1024 * k + top * 0x2000_0000_0000_0000, 2);
    AboveUnit(flags, 512 * k + top * 0x1000_0000_0000_0000, 4);
    AboveUnit(flags, 256 * k + top * 0x800_0000_0000_0000, 8);
    AboveUnit(flags, 128 * k + top * 0x400_0000_0000_0000, 16);
    AboveUnit(flags, 16 * k + top * 0x80_0000_0000_0000, 128);
  }
}
