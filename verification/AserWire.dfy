/** The aser format in numbers, as one byte after another on the wire, independent of how it is printed. */
module AserWire {
  import opened Aser
  import opened AserBytes
  import opened AserMessage
  import opened AserRoundTrip

  /** Digit `i` of a number in base 256, the lowest first; of a negative one in two's complement. */
  function Digit(n: int, i: nat): Byte
    decreases i
  {
    if i == 0 then n % 256 else Digit(n / 256, i - 1)
  }

  /** The bytes are the lowest digits of the number, the lowest first. */
  ghost predicate Little(s: seq<Byte>, n: int) { forall i :: 0 <= i < |s| ==> s[i] == Digit(n, i) }

  /** Each integer kind has its number and its width in bytes. */
  function KindNumber(kind: IntKind): (nat, nat) {
    match kind
    case I8 => (3, 1) case I16 => (4, 2) case I32 => (5, 4) case I64 => (6, 8) case I128 => (7, 16)
    case U8 => (8, 1) case U16 => (9, 2) case U32 => (10, 4) case U64 => (11, 8) case U128 => (12, 16)
  }

  /** A number byte and a number of `width` bytes. */
  ghost predicate Tagged(s: seq<Byte>, tag: nat, n: int, width: nat) {
    |s| == 1 + width && s[0] == tag && Little(s[1..], n)
  }

  /** A run of bytes: a number byte by the size of its length, the length, and the bytes. */
  ghost predicate Run(s: seq<Byte>, first: nat, t: seq<Byte>) {
    if |t| < 0x100 then RunOf(s, first, 1, t)
    else if |t| < 0x1_0000 then RunOf(s, first + 1, 2, t)
    else if |t| < 0x1_0000_0000 then RunOf(s, first + 2, 4, t)
    else RunOf(s, first + 3, 8, t)
  }

  ghost predicate RunOf(s: seq<Byte>, tag: nat, width: nat, t: seq<Byte>) {
    |s| == 1 + width + |t| && Tagged(s[..1 + width], tag, |t|, width) && s[1 + width..] == t
  }

  /** The bytes of `d` on the wire when `k` capabilities came before it. */
  ghost predicate Wire(d: Data, k: nat, s: seq<Byte>)
    requires Wf(d) && Encodable(d)
    decreases d, 1
  {
    match d
    case DUnit => s == [0]
    case DBool(b) => s == [if b then 1 else 2]
    case DInt(kind, n) =>
      var (tag, width) := KindNumber(kind);
      Tagged(s, tag, n, width)
    case DF32(bits) => Tagged(s, 13, bits, 4)
    case DF64(bits) => Tagged(s, 14, bits, 8)
    case DChar(c) => Tagged(s, 15, c, 4)
    case DStr(t) => Run(s, 16, t)
    case DText(t) => RunOf(s, 19, 8, t)
    case DBytes(t) => Run(s, 20, t)
    case DNewtype(e) => s != [] && s[0] == 24 && Wire(e, k, s[1..])
    case DSome(e) => s != [] && s[0] == 25 && Wire(e, k, s[1..])
    case DUnitVariant(idx) => Tagged(s, 30, idx, 4)
    case DNewtypeVariant(idx, e) =>
      if idx == 2987132124 then Tagged(s, 32, k, 2)
      else |s| >= 5 && Tagged(s[..5], 31, idx, 4) && !IsCap(d) && Wire(e, k, s[5..])
    case DSeq(es) => |s| >= 2 && s[0] == 26 && s[|s| - 1] == 27 && WireAll(es, k, s[1..|s| - 1])
    case DMap(es) => |s| >= 2 && s[0] == 28 && s[|s| - 1] == 29 && WireAll(es, k, s[1..|s| - 1])
    case DTupleVariant(idx, es) =>
      && |s| >= 7 && Tagged(s[..5], 31, idx, 4) && s[5] == 26 && s[|s| - 1] == 27
      && WireAll(es, k, s[6..|s| - 1])
    case DStructVariant(idx, es) =>
      && |s| >= 7 && Tagged(s[..5], 31, idx, 4) && s[5] == 28 && s[|s| - 1] == 29
      && WireAll(es, k, s[6..|s| - 1])
  }

  /** One after the other. */
  ghost predicate WireAll(es: seq<Data>, k: nat, s: seq<Byte>)
    requires WfAll(es) && EncodableAll(es)
    decreases es, 0
  {
    if es == [] then s == []
    else exists m :: 0 <= m <= |s| && Wire(es[0], k, s[..m]) && WireAll(es[1..], k + |Caps(es[0])|, s[m..])
  }

  /** A message: how many capabilities, their ids, bytes 255 up to the room asked for, and the data. */
  ghost predicate WireMessage(d: Data, n: nat, s: seq<Byte>)
    requires Wf(d) && Encodable(d) && |Caps(d)| <= n
  {
    var ids := Caps(d);
    && |s| >= 8 + 8 * n && Little(s[..8], |ids|)
    && (forall i :: 0 <= i < |ids| ==> Little(s[8 + 8 * i..16 + 8 * i], ids[i]))
    && (forall j :: 8 + 8 * |ids| <= j < 8 + 8 * n ==> s[j] == 255)
    && Wire(d, 0, s[8 + 8 * n..])
  }

  // ---------------------------------------------------------------------------
  // What is printed is that
  // ---------------------------------------------------------------------------

  lemma {:induction false} LeLittle(n: nat, w: nat)
    ensures Little(Le(n, w), n)
    decreases w
  {
    if w > 0 {
      LeLittle(n / 256, w - 1);
      var s := Le(n, w);
      forall i | 0 <= i < w ensures s[i] == Digit(n, i) {
        if i > 0 { assert s[i] == Le(n / 256, w - 1)[i - 1]; }
      }
    }
  }

  lemma {:induction false} TaggedLe(tag: Byte, n: nat, w: nat)
    ensures Tagged([tag] + Le(n, w), tag, n, w)
  {
    LeLittle(n, w);
    assert ([tag] + Le(n, w))[1..] == Le(n, w);
  }

  lemma {:induction false} RunLe(tag: Byte, w: nat, t: seq<Byte>)
    ensures RunOf([tag] + Le(|t|, w) + t, tag, w, t)
  {
    TaggedLe(tag, |t|, w);
    var s := [tag] + Le(|t|, w) + t;
    assert s[..1 + w] == [tag] + Le(|t|, w) && s[1 + w..] == t;
  }

  lemma {:induction false} SizedRun(first: Byte, t: seq<Byte>)
    requires first <= 252
    ensures Run(Sized(first, t), first, t)
  {
    hide Le, Little, RunOf;
    RunLe(first, 1, t);
    if first <= 252 { RunLe(first + 1, 2, t); RunLe(first + 2, 4, t); RunLe(first + 3, 8, t); }
  }

  /** Adding what does not fit leaves the digits that do. */
  lemma {:induction false} DigitWraps(n: int, w: nat, i: nat)
    requires i < w
    ensures Digit(n + Bound(w), i) == Digit(n, i)
    decreases i
  {
    assert Bound(w) == 256 * Bound(w - 1);
    NextDigit(n, Bound(w - 1));
    if i > 0 { DigitWraps(n / 256, w - 1, i - 1); }
  }

  lemma {:induction false} NextDigit(n: int, b: nat)
    ensures (n + 256 * b) % 256 == n % 256 && (n + 256 * b) / 256 == n / 256 + b
  {
  }

  lemma {:induction false} IntWire(kind: IntKind, n: int, k: nat)
    requires kind.Holds(n)
    ensures Wire(DInt(kind, n), k, Enc(DInt(kind, n), k))
  {
    var w, b, s := kind.Width(), kind.ToBits(n), Enc(DInt(kind, n), k);
    hide Le, Bound, Digit, Tagged;
    KindIs(kind);
    IntDigits(kind, n);
    TaggedLe(kind.Tag(), b, w);
    SameDigits(s, kind.Tag(), b, n, w);
  }

  lemma {:induction false} KindIs(kind: IntKind)
    ensures KindNumber(kind) == (kind.Tag(), kind.Width())
  {
  }

  lemma {:induction false} IntDigits(kind: IntKind, n: int)
    requires kind.Holds(n)
    ensures forall i :: 0 <= i < kind.Width() ==> Digit(kind.ToBits(n), i) == Digit(n, i)
  {
    var w, b := kind.Width(), kind.ToBits(n);
    hide Digit, Bound;
    if b != n {
      forall i | 0 <= i < w ensures Digit(b, i) == Digit(n, i) { DigitWraps(n, w, i); }
    }
  }

  lemma {:induction false} SameDigits(s: seq<Byte>, tag: nat, b: int, n: int, w: nat)
    requires Tagged(s, tag, b, w) && forall i :: 0 <= i < w ==> Digit(b, i) == Digit(n, i)
    ensures Tagged(s, tag, n, w)
  {
    hide Digit;
  }

  lemma {:induction false} LeafWire(d: Data, k: nat)
    requires Wf(d) && Encodable(d)
    requires !d.DInt? && !d.DNewtype? && !d.DSome? && !d.DSeq? && !d.DMap? && !d.DTupleVariant? && !d.DStructVariant?
    requires d.DNewtypeVariant? ==> IsCap(d)
    ensures Wire(d, k, Enc(d, k))
  {
    hide Le, Bound, Tagged, Run, RunOf, ValidUtf8, Sized;
    match d
    case DF32(bits) => TaggedLe(13, bits, 4);
    case DF64(bits) => TaggedLe(14, bits, 8);
    case DChar(c) => TaggedLe(15, c, 4);
    case DStr(t) => SizedRun(16, t);
    case DText(t) => RunLe(19, 8, t);
    case DBytes(t) => SizedRun(20, t);
    case DUnitVariant(idx) => TaggedLe(30, idx, 4);
    case DNewtypeVariant(_, _) => TaggedLe(32, k, 2);
    case _ =>
  }

  /** Every data tree is printed in the wire format. */
  lemma {:induction false} PrintedWire(d: Data, k: nat)
    requires Wf(d) && Encodable(d)
    ensures Wire(d, k, Enc(d, k))
    decreases d, 1
  {
    hide Le, Bound, Tagged, Run, RunOf, ValidUtf8, Sized, WireAll, EncAll, WfAll, EncodableAll;
    var s := Enc(d, k);
    match d
    case DInt(kind, n) => IntWire(kind, n, k);
    case DNewtype(e) => PrintedWire(e, k); assert s[1..] == Enc(e, k);
    case DSome(e) => PrintedWire(e, k); assert s[1..] == Enc(e, k);
    case DNewtypeVariant(idx, e) =>
      if IsCap(d) {
        LeafWire(d, k);
      } else {
        PrintedWire(e, k);
        TaggedLe(31, idx, 4);
        assert s[..5] == [31] + Le(idx, 4) && s[5..] == Enc(e, k);
      }
    case DSeq(es) => PrintedList(es, k); assert s[1..|s| - 1] == EncAll(es, k);
    case DMap(es) => PrintedList(es, k); assert s[1..|s| - 1] == EncAll(es, k);
    case DTupleVariant(idx, es) => VariantWire(d, idx, es, k);
    case DStructVariant(idx, es) => VariantWire(d, idx, es, k);
    case _ => LeafWire(d, k);
  }

  lemma {:induction false} VariantWire(d: Data, idx: nat, es: seq<Data>, k: nat)
    requires Wf(d) && Encodable(d) && (d == DTupleVariant(idx, es) || d == DStructVariant(idx, es))
    ensures Wire(d, k, Enc(d, k))
    decreases es, 1
  {
    hide Le, Bound, Tagged, WireAll, EncAll, WfAll, EncodableAll;
    var s := Enc(d, k);
    PrintedList(es, k);
    TaggedLe(31, idx, 4);
    var a, z := if d.DTupleVariant? then 26 else 28, if d.DTupleVariant? then 27 else 29;
    Bracketed([31] + Le(idx, 4), a, EncAll(es, k), z);
  }

  lemma {:induction false} Bracketed(head: seq<Byte>, a: Byte, body: seq<Byte>, z: Byte)
    ensures var s, n := head + ([a] + body + [z]), |head|;
            |s| == n + |body| + 2 && s[..n] == head && s[n] == a && s[n + 1..|s| - 1] == body && s[|s| - 1] == z
  {
  }

  lemma {:induction false} PrintedList(es: seq<Data>, k: nat)
    requires WfAll(es) && EncodableAll(es)
    ensures WireAll(es, k, EncAll(es, k))
    decreases es, 0
  {
    hide Wire, Enc, Caps, Wf, Encodable;
    if es != [] {
      PrintedWire(es[0], k);
      PrintedList(es[1..], k + |Caps(es[0])|);
      var s, m := EncAll(es, k), |Enc(es[0], k)|;
      assert s[..m] == Enc(es[0], k) && s[m..] == EncAll(es[1..], k + |Caps(es[0])|);
    }
  }

  lemma {:induction false} WordsWire(ids: seq<nat>, i: nat)
    requires i < |ids|
    ensures Little(Words(ids)[8 * i..8 * i + 8], ids[i])
  {
    hide Le, Little;
    if i == 0 {
      LeLittle(ids[0], 8);
      assert Words(ids)[0..8] == Le(ids[0], 8);
    } else {
      WordsWire(ids[1..], i - 1);
      assert Words(ids)[8 * i..8 * i + 8] == Words(ids[1..])[8 * (i - 1)..8 * (i - 1) + 8];
    }
  }

  /** Every message is printed in the wire format. */
  lemma {:induction false} MessageWire(d: Data, n: nat)
    requires Wf(d) && Encodable(d) && |Caps(d)| <= n
    ensures WireMessage(d, n, ToBytes(d, n))
  {
    hide Wire, Enc, Caps, Wf, Encodable, Le, Little;
    var ids, s := Caps(d), ToBytes(d, n);
    var m := |ids|;
    PrintedWire(d, 0);
    LeLittle(m, 8);
    assert |Header(ids, n)| == 8 + 8 * n;
    assert s[..8] == Le(m, 8) && s[8 + 8 * n..] == Enc(d, 0);
    assert s[8..8 + 8 * m] == Words(ids);
    forall i | 0 <= i < m ensures Little(s[8 + 8 * i..16 + 8 * i], ids[i]) {
      WordsWire(ids, i);
      assert s[8 + 8 * i..16 + 8 * i] == Words(ids)[8 * i..8 * i + 8];
    }
  }

  // ---------------------------------------------------------------------------
  // Nothing else is in the wire format
  // ---------------------------------------------------------------------------

  lemma {:induction false} LittleIsLe(s: seq<Byte>, n: nat)
    requires Little(s, n)
    ensures s == Le(n, |s|)
  {
    LeLittle(n, |s|);
  }

  lemma {:induction false} TaggedIs(s: seq<Byte>, tag: Byte, n: nat, w: nat)
    requires Tagged(s, tag, n, w)
    ensures s == [tag] + Le(n, w)
  {
    LittleIsLe(s[1..], n);
    assert s == [s[0]] + s[1..];
  }

  lemma {:induction false} RunOfIs(s: seq<Byte>, tag: Byte, w: nat, t: seq<Byte>)
    requires RunOf(s, tag, w, t)
    ensures s == [tag] + Le(|t|, w) + t
  {
    TaggedIs(s[..1 + w], tag, |t|, w);
    assert s == s[..1 + w] + s[1 + w..];
  }

  lemma {:induction false} RunIs(s: seq<Byte>, first: Byte, t: seq<Byte>)
    requires first <= 252 && Run(s, first, t)
    ensures s == Sized(first, t)
  {
    hide Le, RunOf;
    if |t| < 0x100 { RunOfIs(s, first, 1, t); }
    else if |t| < 0x1_0000 { RunOfIs(s, first + 1, 2, t); }
    else if |t| < 0x1_0000_0000 { RunOfIs(s, first + 2, 4, t); }
    else { RunOfIs(s, first + 3, 8, t); }
  }

  lemma {:induction false} IntIs(kind: IntKind, n: int, k: nat, s: seq<Byte>)
    requires kind.Holds(n) && Wire(DInt(kind, n), k, s)
    ensures s == Enc(DInt(kind, n), k)
  {
    IntWire(kind, n, k);
    var e := Enc(DInt(kind, n), k);
    assert |s| == |e| && s[0] == e[0];
    forall i | 1 <= i < |s| ensures s[i] == e[i] {
      assert s[i] == s[1..][i - 1] && e[i] == e[1..][i - 1];
    }
  }

  lemma {:induction false} LeafIs(d: Data, k: nat, s: seq<Byte>)
    requires Wf(d) && Encodable(d) && Wire(d, k, s)
    requires !d.DInt? && !d.DNewtype? && !d.DSome? && !d.DSeq? && !d.DMap? && !d.DTupleVariant? && !d.DStructVariant?
    requires d.DNewtypeVariant? ==> IsCap(d)
    ensures s == Enc(d, k)
  {
    hide Le, Bound, Tagged, Run, RunOf, ValidUtf8, Sized;
    match d
    case DF32(bits) => TaggedIs(s, 13, bits, 4);
    case DF64(bits) => TaggedIs(s, 14, bits, 8);
    case DChar(c) => TaggedIs(s, 15, c, 4);
    case DStr(t) => RunIs(s, 16, t);
    case DText(t) => RunOfIs(s, 19, 8, t);
    case DBytes(t) => RunIs(s, 20, t);
    case DUnitVariant(idx) => TaggedIs(s, 30, idx, 4);
    case DNewtypeVariant(_, _) => TaggedIs(s, 32, k, 2);
    case _ =>
  }

  /** The wire format leaves nothing open: what has it is what is printed. */
  lemma {:induction false} WireIsPrinted(d: Data, k: nat, s: seq<Byte>)
    requires Wf(d) && Encodable(d) && Wire(d, k, s)
    ensures s == Enc(d, k)
    decreases d, 1
  {
    hide Le, Bound, Tagged, Run, RunOf, ValidUtf8, Sized, WireAll, EncAll, WfAll, EncodableAll;
    match d
    case DInt(kind, n) => IntIs(kind, n, k, s);
    case DNewtype(e) => WireIsPrinted(e, k, s[1..]); assert s == [s[0]] + s[1..];
    case DSome(e) => WireIsPrinted(e, k, s[1..]); assert s == [s[0]] + s[1..];
    case DNewtypeVariant(idx, e) =>
      if IsCap(d) {
        LeafIs(d, k, s);
      } else {
        WireIsPrinted(e, k, s[5..]);
        TaggedIs(s[..5], 31, idx, 4);
        assert s == s[..5] + s[5..];
      }
    case DSeq(es) => ListIs(es, k, s, 1);
    case DMap(es) => ListIs(es, k, s, 1);
    case DTupleVariant(idx, es) => VariantIs(d, idx, es, k, s);
    case DStructVariant(idx, es) => VariantIs(d, idx, es, k, s);
    case _ => LeafIs(d, k, s);
  }

  lemma {:induction false} ListIs(es: seq<Data>, k: nat, s: seq<Byte>, from: nat)
    requires WfAll(es) && EncodableAll(es) && 1 <= from < |s| && WireAll(es, k, s[from..|s| - 1])
    ensures s == s[..from] + EncAll(es, k) + [s[|s| - 1]]
    ensures from == 1 ==> s == [s[0]] + EncAll(es, k) + [s[|s| - 1]]
    decreases es, 1
  {
    hide WireAll, EncAll;
    AllIsPrinted(es, k, s[from..|s| - 1]);
    assert s == s[..from] + s[from..|s| - 1] + [s[|s| - 1]];
  }

  lemma {:induction false} VariantIs(d: Data, idx: nat, es: seq<Data>, k: nat, s: seq<Byte>)
    requires Wf(d) && Encodable(d) && (d == DTupleVariant(idx, es) || d == DStructVariant(idx, es)) && Wire(d, k, s)
    ensures s == Enc(d, k)
    decreases es, 2
  {
    hide Le, Bound, Tagged, WireAll, EncAll, WfAll, EncodableAll;
    ListIs(es, k, s, 6);
    TaggedIs(s[..5], 31, idx, 4);
    var a, b := [31] + Le(idx, 4), EncAll(es, k);
    assert s[..6] == a + [s[5]];
    Regrouped(a, [s[5]], b, [s[|s| - 1]]);
  }

  lemma {:induction false} Regrouped(a: seq<Byte>, b: seq<Byte>, c: seq<Byte>, d: seq<Byte>)
    ensures a + b + c + d == a + (b + c + d)
  {
  }

  lemma {:induction false} AllIsPrinted(es: seq<Data>, k: nat, s: seq<Byte>)
    requires WfAll(es) && EncodableAll(es) && WireAll(es, k, s)
    ensures s == EncAll(es, k)
    decreases es, 0
  {
    hide Wire, Enc, Caps, Wf, Encodable;
    if es != [] {
      var m :| 0 <= m <= |s| && Wire(es[0], k, s[..m]) && WireAll(es[1..], k + |Caps(es[0])|, s[m..]);
      WireIsPrinted(es[0], k, s[..m]);
      AllIsPrinted(es[1..], k + |Caps(es[0])|, s[m..]);
      assert s == s[..m] + s[m..];
    }
  }

  lemma {:induction false} WordsIs(s: seq<Byte>, ids: seq<nat>)
    requires |s| == 8 * |ids| && forall i :: 0 <= i < |ids| ==> Little(s[8 * i..8 + 8 * i], ids[i])
    ensures s == Words(ids)
  {
    hide Le, Little;
    if ids != [] {
      var t := s[8..];
      forall i | 0 <= i < |ids| - 1 ensures Little(t[8 * i..8 + 8 * i], ids[1..][i]) {
        assert t[8 * i..8 + 8 * i] == s[8 * (i + 1)..8 + 8 * (i + 1)];
      }
      WordsIs(t, ids[1..]);
      assert s[8 * 0..8 + 8 * 0] == s[..8];
      LittleIsLe(s[..8], ids[0]);
      assert s == s[..8] + t;
    }
  }

  lemma {:induction false} FillIs(s: seq<Byte>, a: nat, b: nat)
    requires a <= b <= |s| && forall j :: a <= j < b ==> s[j] == 255
    ensures s[a..b] == Fill(b - a)
  {
  }

  lemma {:induction false} CutInFour(s: seq<Byte>, a: nat, b: nat, c: nat)
    requires a <= b <= c <= |s|
    ensures s == s[..a] + s[a..b] + s[b..c] + s[c..]
  {
  }

  /** A message in the wire format is parsed to what its data stands for. */
  lemma {:induction false} WireParsed(d: Data, n: nat, s: seq<Byte>)
    requires Wf(d) && Encodable(d) && |Caps(d)| <= n && 8 * |Caps(d)| < WORD && WireMessage(d, n, s)
    ensures FromBytes(s) == Decoded(d)
    ensures |Caps(d)| <= PLACES ==> FromBytes(s) == if Good(d) then ToValue(d) else Err
  {
    hide Caps, Wf, Encodable, FromBytes, Decoded, WireMessage, ToBytes, ToValue, Good;
    MessageIs(d, n, s);
    MessageRoundTrip(d, n);
  }

  /** A message is in the wire format only if it is the one printed. */
  lemma {:induction false} MessageIs(d: Data, n: nat, s: seq<Byte>)
    requires Wf(d) && Encodable(d) && |Caps(d)| <= n && WireMessage(d, n, s)
    ensures s == ToBytes(d, n)
  {
    hide Wire, Enc, Caps, Wf, Encodable, Le, Little;
    var ids := Caps(d);
    var m := |ids|;
    WireIsPrinted(d, 0, s[8 + 8 * n..]);
    LittleIsLe(s[..8], m);
    var t := s[8..8 + 8 * m];
    forall i | 0 <= i < m ensures Little(t[8 * i..8 + 8 * i], ids[i]) {
      SliceOfSlice(s, 8, 8 + 8 * m, 8 * i, 8 + 8 * i);
      assert 8 + (8 + 8 * i) == 16 + 8 * i;
    }
    WordsIs(t, ids);
    FillIs(s, 8 + 8 * m, 8 + 8 * n);
    assert 8 + 8 * n - (8 + 8 * m) == 8 * (n - m);
    CutInFour(s, 8, 8 + 8 * m, 8 + 8 * n);
  }
}
