/** Parsing what was printed: for every data tree, the bytes decode to the value the direct
    conversion gives, and they decode to nothing exactly when that conversion fails or a reserved
    variant index is misused. */
module AserRoundTrip {
  import opened AserBytes
  import opened Aser

  ghost predicate Good(d: Data)
    requires Wf(d)
  {
    ToValue(d).Ok? && NoReserved(d)
  }

  ghost predicate GoodAll(es: seq<Data>)
    requires WfAll(es)
  {
    ToValues(es).Ok? && NoReservedAll(es)
  }

  /** What parsing the bytes of `d` followed by `rest` must give. */
  ghost function Expected(d: Data, rest: seq<Byte>): Parsed<Value>
    requires Wf(d)
  {
    if Good(d) then Parsed(ToValue(d).value, rest) else Fail
  }

  ghost function ExpectedAll(es: seq<Data>, rest: seq<Byte>): Parsed<seq<Value>>
    requires WfAll(es)
  {
    if GoodAll(es) then Parsed(ToValues(es).value, rest) else Fail
  }

  /** How many places an index into the table can name. */
  const PLACES: nat := 0x1_0000

  /** The place written for the `n`-th capability names `id` in the table. */
  ghost predicate Names(caps: seq<nat>, n: nat, id: nat) { n % PLACES < |caps| && caps[n % PLACES] == id }

  /** The table holds `ids` at the places that are written for them when `k` capabilities came before. */
  ghost predicate Table(caps: seq<nat>, k: nat, ids: seq<nat>) {
    forall i :: 0 <= i < |ids| ==> Names(caps, k + i, ids[i])
  }

  lemma {:induction false} TableSplit(caps: seq<nat>, k: nat, a: seq<nat>, b: seq<nat>)
    requires Table(caps, k, a + b)
    ensures Table(caps, k, a) && Table(caps, k + |a|, b)
  {
    forall i | 0 <= i < |a| ensures Names(caps, k + i, a[i]) {
      assert (a + b)[i] == a[i];
    }
    forall i | 0 <= i < |b| ensures Names(caps, k + |a| + i, b[i]) {
      assert (a + b)[|a| + i] == b[i] && k + (|a| + i) == k + |a| + i;
    }
  }

  /** Printed data starts with a type tag that is no filler and no end mark. */
  lemma {:induction false} FirstByte(d: Data, k: nat)
    requires Wf(d) && Encodable(d)
    ensures Enc(d, k) != [] && Enc(d, k)[0] <= 32
    ensures Enc(d, k)[0] != T_SEQ_END && Enc(d, k)[0] != T_MAP_END
  {
    hide Le, ValidUtf8, EncAll, Caps, WfAll, EncodableAll, Bound;
  }

  lemma {:induction false} NumRoundTrip(n: nat, w: nat, rest: seq<Byte>)
    requires n < Bound(w)
    ensures TakeNum(Le(n, w) + rest, w) == Parsed(n, rest)
  {
    LeRoundTrip(n, w);
    var input := Le(n, w) + rest;
    assert input[..w] == Le(n, w) && input[w..] == rest;
  }

  lemma {:induction false} RunRoundTrip(s: seq<Byte>, w: nat, rest: seq<Byte>)
    requires |s| < Bound(w)
    ensures TakeRun(Le(|s|, w) + s + rest, w) == Parsed(s, rest)
  {
    assert Le(|s|, w) + s + rest == Le(|s|, w) + (s + rest);
    NumRoundTrip(|s|, w, s + rest);
    assert (s + rest)[..|s|] == s && (s + rest)[|s|..] == rest;
  }

  lemma {:induction false} BoundValues()
    ensures Bound(1) == 0x100 && Bound(2) == 0x1_0000 && Bound(4) == 0x1_0000_0000
  {
    assert Bound(2) == 256 * Bound(1);
    assert Bound(3) == 256 * Bound(2);
  }

  /** Splits printed data into its tag byte and what follows. */
  lemma {:induction false} TagOff(tag: Byte, body: seq<Byte>, rest: seq<Byte>)
    requires tag != T_FILLER
    ensures Skip([tag] + body + rest) == [tag] + body + rest
    ensures ([tag] + body + rest)[0] == tag && ([tag] + body + rest)[1..] == body + rest
  {
  }

  lemma {:induction false} IntRoundTrip(caps: seq<nat>, kind: IntKind, n: int, rest: seq<Byte>)
    requires kind.Holds(n)
    ensures Dec(caps, [kind.Tag()] + Le(kind.ToBits(n), kind.Width()) + rest) == Parsed(Integer(kind, n), rest)
  {
    hide Skip, TakeNum, TakeRun, Le, FromLe, Bound, ValidUtf8, DecAll, DecU64;
    TagOff(kind.Tag(), Le(kind.ToBits(n), kind.Width()), rest);
    BitsRoundTrip(kind, n);
    NumRoundTrip(kind.ToBits(n), kind.Width(), rest);
  }

  /** Length-prefixed strings and byte runs, whichever length width was chosen. */
  lemma {:induction false} SizedRoundTrip(caps: seq<nat>, t8: Byte, s: seq<Byte>, rest: seq<Byte>)
    requires (t8 == T_STRING8 && ValidUtf8(s)) || t8 == T_BYTES8
    requires |s| < Bound(8)
    ensures Dec(caps, Sized(t8, s) + rest) == Parsed(if t8 == T_STRING8 then String(s) else Bytes(s), rest)
  {
    hide Skip, TakeNum, TakeRun, Le, FromLe, Bound, ValidUtf8, DecAll, DecU64;
    BoundValues();
    var b := if |s| < 0x100 then 0 else if |s| < 0x1_0000 then 1 else if |s| < 0x1_0000_0000 then 2 else 3;
    var w := RunWidth(b);
    assert Sized(t8, s) == [t8 + b] + (Le(|s|, w) + s);
    TagOff(t8 + b, Le(|s|, w) + s, rest);
    RunRoundTrip(s, w, rest);
  }

  lemma {:induction false} TextRoundTrip(caps: seq<nat>, s: seq<Byte>, rest: seq<Byte>)
    requires IsText(s)
    ensures Dec(caps, [T_STRING8 + 3] + Le(|s|, 8) + s + rest) == Parsed(String(s), rest)
  {
    hide Skip, TakeNum, TakeRun, Le, FromLe, Bound, ValidUtf8, DecAll, DecU64;
    assert [T_STRING8 + 3] + Le(|s|, 8) + s == [T_STRING8 + 3] + (Le(|s|, 8) + s);
    TagOff(T_STRING8 + 3, Le(|s|, 8) + s, rest);
    RunRoundTrip(s, 8, rest);
  }

  /** Fixed-width numbers behind a tag: floats, characters, variant and capability indices. */
  lemma {:induction false} NumberAt(tag: Byte, n: nat, w: nat, rest: seq<Byte>)
    requires tag != T_FILLER && n < Bound(w)
    ensures Skip([tag] + Le(n, w) + rest) == [tag] + Le(n, w) + rest
    ensures ([tag] + Le(n, w) + rest)[0] == tag
    ensures TakeNum(([tag] + Le(n, w) + rest)[1..], w) == Parsed(n, rest)
  {
    TagOff(tag, Le(n, w), rest);
    NumRoundTrip(n, w, rest);
  }

  lemma {:induction false} LeafRoundTrip(caps: seq<nat>, d: Data, k: nat, rest: seq<Byte>)
    requires Wf(d) && Encodable(d)
    requires d.DUnit? || d.DBool? || d.DF32? || d.DF64? || d.DChar? || d.DUnitVariant?
    ensures Dec(caps, Enc(d, k) + rest) == Expected(d, rest)
  {
    hide Skip, TakeNum, TakeRun, Le, FromLe, Bound, ValidUtf8, DecAll, DecU64;
    match d
    case DUnit => TagOff(T_NULL, [], rest); assert [T_NULL] + [] == [T_NULL];
    case DBool(b) =>
      var t := if b then T_TRUE else T_FALSE;
      TagOff(t, [], rest);
      assert [t] + [] == [t];
    case DF32(bits) => NumberAt(T_F32, bits, 4, rest);
    case DF64(bits) => NumberAt(T_F64, bits, 8, rest);
    case DChar(c) => BoundValues(); NumberAt(T_CHAR, c, 4, rest);
    case DUnitVariant(idx) => BoundValues(); NumberAt(T_VARIANT, idx, 4, rest);
  }

  /** The place of a capability is written in 16 bits. */
  lemma {:induction false} PlaceAt(k: nat, rest: seq<Byte>)
    ensures Skip([T_CAPABILITY] + Le(k, 2) + rest) == [T_CAPABILITY] + Le(k, 2) + rest
    ensures ([T_CAPABILITY] + Le(k, 2) + rest)[0] == T_CAPABILITY
    ensures TakeNum(([T_CAPABILITY] + Le(k, 2) + rest)[1..], 2) == Parsed(k % PLACES, rest)
  {
    TagOff(T_CAPABILITY, Le(k, 2), rest);
    LeWraps(k, 2);
    BoundValues();
    var input := Le(k, 2) + rest;
    assert input[..2] == Le(k, 2) && input[2..] == rest;
  }

  lemma {:induction false} CapRoundTrip(caps: seq<nat>, d: Data, k: nat, rest: seq<Byte>)
    requires Wf(d) && Encodable(d) && IsCap(d) && Table(caps, k, Caps(d))
    ensures Dec(caps, Enc(d, k) + rest) == Expected(d, rest)
  {
    hide Skip, TakeNum, TakeRun, Le, FromLe, Bound, ValidUtf8, DecAll, DecU64;
    PlaceAt(k, rest);
    assert Caps(d)[0] == CapId(d) && Names(caps, k + 0, Caps(d)[0]);
  }

  /** A variant with data: what follows the index decides, unless the index is the reserved one. */
  lemma {:induction false} VariantAt(caps: seq<nat>, idx: nat, body: seq<Byte>)
    requires IsIndex(idx)
    ensures Dec(caps, [T_VARIANT_VALUE] + Le(idx, 4) + body) ==
            if idx == CAP_VARIANT then
              (match DecU64(body) case Fail => Fail case Parsed(id, rest) => CapValue(id, rest))
            else
              (match Dec(caps, body) case Fail => Fail case Parsed(v, rest) => Parsed(EnumVariant(idx, v), rest))
  {
    hide Skip, TakeNum, TakeRun, Le, FromLe, Bound, ValidUtf8, DecAll, DecU64;
    BoundValues();
    NumberAt(T_VARIANT_VALUE, idx, 4, body);
  }

  lemma {:induction false} WrapAt(caps: seq<nat>, tag: Byte, body: seq<Byte>)
    requires tag == T_SOME || tag == T_NEWTYPE
    ensures Dec(caps, [tag] + body) ==
            match Dec(caps, body)
            case Fail => Fail
            case Parsed(v, rest) => Parsed(if tag == T_SOME then Some(v) else Newtype(v), rest)
  {
    hide Skip, TakeNum, TakeRun, Le, FromLe, Bound, ValidUtf8, DecAll, DecU64;
    assert [tag] + body == [tag] + body + [];
    TagOff(tag, body, []);
    assert body + [] == body;
  }

  lemma {:induction false} ListAt(caps: seq<nat>, tag: Byte, body: seq<Byte>)
    requires tag == T_SEQ_START || tag == T_MAP_START
    ensures Dec(caps, [tag] + body) ==
            match DecAll(caps, body, if tag == T_SEQ_START then T_SEQ_END else T_MAP_END, tag == T_MAP_START)
            case Fail => Fail
            case Parsed(vs, rest) => Parsed(if tag == T_SEQ_START then Sequence(vs) else Map(Inserted(vs)), rest)
    ensures DecU64([tag] + body) == Fail
  {
    hide TakeNum, TakeRun, Le, FromLe, Bound, ValidUtf8, DecAll;
    assert [tag] + body == [tag] + body + [];
    TagOff(tag, body, []);
    assert body + [] == body;
  }

  /** The element list of a sequence or map, when its elements parse back. */
  lemma {:induction false} ListRoundTrip(es: seq<Data>, k: nat, caps: seq<nat>, pairs: bool, rest: seq<Byte>)
    requires WfAll(es) && EncodableAll(es) && Table(caps, k, CapsAll(es))
    requires pairs ==> |es| % 2 == 0
    ensures var end := if pairs then T_MAP_END else T_SEQ_END;
            DecAll(caps, EncAll(es, k) + [end] + rest, end, pairs) == ExpectedAll(es, rest)
    decreases es, 1
  {
    hide Dec, Enc, Caps, ToValue, Wf, Encodable, NoReserved, Skip;
    var end := if pairs then T_MAP_END else T_SEQ_END;
    var input := EncAll(es, k) + [end] + rest;
    if es == [] {
      assert input == [end] + rest;
      assert input[1..] == rest;
    } else {
      var a, k1 := es[0], k + |Caps(es[0])|;
      var tail1 := EncAll(es[1..], k1) + [end] + rest;
      assert input == Enc(a, k) + tail1;
      TableSplit(caps, k, Caps(a), CapsAll(es[1..]));
      FirstByte(a, k);
      RoundTrip(a, k, caps, tail1);
      if !pairs {
        ListRoundTrip(es[1..], k1, caps, pairs, rest);
      } else {
        var b, k2 := es[1], k1 + |Caps(es[1])|;
        var es2 := es[1..][1..];
        var tail2 := EncAll(es2, k2) + [end] + rest;
        assert tail1 == Enc(b, k1) + tail2;
        TableSplit(caps, k1, Caps(b), CapsAll(es2));
        FirstByte(b, k1);
        RoundTrip(b, k1, caps, tail2);
        ListRoundTrip(es2, k2, caps, pairs, rest);
        ExpectedTwo(es, rest);
      }
    }
  }

  lemma {:induction false} ExpectedTwo(es: seq<Data>, rest: seq<Byte>)
    requires WfAll(es) && |es| >= 2
    ensures WfAll(es[1..]) && WfAll(es[1..][1..]) && Wf(es[0]) && Wf(es[1])
    ensures var es2 := es[1..][1..];
            ExpectedAll(es, rest) ==
            if Good(es[0]) && Good(es[1]) && GoodAll(es2)
            then Parsed([ToValue(es[0]).value, ToValue(es[1]).value] + ToValues(es2).value, rest) else Fail
  {
    hide ToValue, Wf, NoReserved;
    var es1 := es[1..];
    assert es1[0] == es[1];
    var es2 := es1[1..];
    assert GoodAll(es) <==> Good(es[0]) && GoodAll(es1);
    assert GoodAll(es1) <==> Good(es[1]) && GoodAll(es2);
    if GoodAll(es) {
      var v, w, vs := ToValue(es[0]).value, ToValue(es[1]).value, ToValues(es2).value;
      assert ToValues(es1).value == [w] + vs;
      assert [v] + ([w] + vs) == [v, w] + vs;
    }
  }

  /** Parsing the bytes of a data tree gives the directly converted value and leaves what follows,
      or fails exactly when the tree is not good. */
  lemma {:induction false} RoundTrip(d: Data, k: nat, caps: seq<nat>, rest: seq<Byte>)
    requires Wf(d) && Encodable(d) && Table(caps, k, Caps(d))
    ensures Dec(caps, Enc(d, k) + rest) == Expected(d, rest)
    decreases d, 0
  {
    hide Dec, DecAll, DecU64, Le, ValidUtf8, EncAll, CapsAll, WfAll, EncodableAll, Bound, Inserted;
    match d
    case DInt(kind, n) => IntRoundTrip(caps, kind, n, rest);
    case DStr(t) => SizedRoundTrip(caps, T_STRING8, t, rest);
    case DText(t) => TextRoundTrip(caps, t, rest);
    case DBytes(t) => SizedRoundTrip(caps, T_BYTES8, t, rest);
    case DSome(e) =>
      assert Enc(d, k) + rest == [T_SOME] + (Enc(e, k) + rest);
      WrapAt(caps, T_SOME, Enc(e, k) + rest);
      RoundTrip(e, k, caps, rest);
    case DNewtype(e) =>
      assert Enc(d, k) + rest == [T_NEWTYPE] + (Enc(e, k) + rest);
      WrapAt(caps, T_NEWTYPE, Enc(e, k) + rest);
      RoundTrip(e, k, caps, rest);
    case DNewtypeVariant(idx, e) =>
      if IsCap(d) {
        CapRoundTrip(caps, d, k, rest);
      } else {
        assert Enc(d, k) + rest == [T_VARIANT_VALUE] + Le(idx, 4) + (Enc(e, k) + rest);
        VariantAt(caps, idx, Enc(e, k) + rest);
        RoundTrip(e, k, caps, rest);
      }
    case DSeq(es) => SeqRoundTrip(es, k, caps, false, rest);
    case DMap(es) => SeqRoundTrip(es, k, caps, true, rest);
    case DTupleVariant(idx, es) => VariantListRoundTrip(d, k, caps, false, rest);
    case DStructVariant(idx, es) => VariantListRoundTrip(d, k, caps, true, rest);
    case _ => LeafRoundTrip(caps, d, k, rest);
  }

  lemma {:induction false} SeqRoundTrip(es: seq<Data>, k: nat, caps: seq<nat>, pairs: bool, rest: seq<Byte>)
    requires WfAll(es) && EncodableAll(es) && Table(caps, k, CapsAll(es))
    requires pairs ==> |es| % 2 == 0
    ensures var body := if pairs then [T_MAP_START] + EncAll(es, k) + [T_MAP_END]
                        else [T_SEQ_START] + EncAll(es, k) + [T_SEQ_END];
            && DecU64(body + rest) == Fail
            && Dec(caps, body + rest) ==
               match ExpectedAll(es, rest)
               case Fail => Fail
               case Parsed(vs, rest) => Parsed(if pairs then Map(Inserted(vs)) else Sequence(vs), rest)
    decreases es, 2
  {
    hide Dec, Enc, EncAll, CapsAll, WfAll, EncodableAll, Inserted, ExpectedAll;
    ListRoundTrip(es, k, caps, pairs, rest);
    var start, end := if pairs then T_MAP_START else T_SEQ_START, if pairs then T_MAP_END else T_SEQ_END;
    var tail := EncAll(es, k) + [end] + rest;
    ListAt(caps, start, tail);
    assert [start] + EncAll(es, k) + [end] + rest == [start] + tail;
  }

  lemma {:induction false} VariantListRoundTrip(d: Data, k: nat, caps: seq<nat>, pairs: bool, rest: seq<Byte>)
    requires if pairs then d.DStructVariant? else d.DTupleVariant?
    requires Wf(d) && Encodable(d) && Table(caps, k, Caps(d))
    ensures Dec(caps, Enc(d, k) + rest) == Expected(d, rest)
    decreases d.es, 3
  {
    var es := d.es;
    var body := if pairs then [T_MAP_START] + EncAll(es, k) + [T_MAP_END]
                else [T_SEQ_START] + EncAll(es, k) + [T_SEQ_END];
    assert Enc(d, k) + rest == [T_VARIANT_VALUE] + Le(d.idx, 4) + (body + rest);
    hide Dec, EncAll, DecU64, Inserted;
    VariantAt(caps, d.idx, body + rest);
    SeqRoundTrip(es, k, caps, pairs, rest);
  }
}
