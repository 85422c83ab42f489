/** Whole messages: the capability table in front of the data, and rewriting that table in flight. */
module AserMessage {
  import opened AserBytes
  import opened Aser
  import opened AserRoundTrip

  ghost predicate AllU64(ids: seq<nat>) {
    forall i :: 0 <= i < |ids| ==> ids[i] < Bound(8)
  }

  lemma {:induction false} CapsAreU64(d: Data)
    requires Wf(d) && Encodable(d)
    ensures AllU64(Caps(d))
    decreases d, 1
  {
    hide Le, ValidUtf8, Bound;
    match d
    case DSome(e) => CapsAreU64(e);
    case DNewtype(e) => CapsAreU64(e);
    case DNewtypeVariant(idx, e) => if !IsCap(d) { CapsAreU64(e); } else { assert Wf(e); assert U64.Holds(e.n); }
    case DSeq(es) => CapsAllAreU64(es);
    case DMap(es) => CapsAllAreU64(es);
    case DTupleVariant(_, es) => CapsAllAreU64(es);
    case DStructVariant(_, es) => CapsAllAreU64(es);
    case _ =>
  }

  lemma {:induction false} CapsAllAreU64(es: seq<Data>)
    requires WfAll(es) && EncodableAll(es)
    ensures AllU64(CapsAll(es))
    decreases es, 0
  {
    hide Wf, Encodable, Caps;
    if es != [] { CapsAreU64(es[0]); CapsAllAreU64(es[1..]); }
  }

  lemma {:induction false} WordsRoundTrip(ids: seq<nat>)
    requires AllU64(ids)
    ensures Ids(Words(ids)) == ids
  {
    if ids != [] {
      hide Bound, Le, FromLe;
      LeRoundTrip(ids[0], 8);
      WordsRoundTrip(ids[1..]);
      var s := Words(ids);
      assert s[..8] == Le(ids[0], 8) && s[8..] == Words(ids[1..]);
    }
  }

  lemma {:induction false} SkipFill(m: nat, x: seq<Byte>)
    ensures Skip(Fill(m) + x) == Skip(x)
  {
    if m == 0 {
      assert Fill(m) + x == x;
    } else {
      SkipFill(m - 1, x);
      assert (Fill(m) + x)[1..] == Fill(m - 1) + x;
    }
  }

  /** Leftover table places are filler, which the parser passes over. */
  lemma {:induction false} DecFill(caps: seq<nat>, m: nat, x: seq<Byte>)
    ensures Dec(caps, Fill(m) + x) == Dec(caps, x)
  {
    hide TakeNum, TakeRun, Le, FromLe, Bound, ValidUtf8, DecAll, DecU64, Skip;
    SkipFill(m, x);
  }

  lemma {:induction false} HeaderTaken(ids: seq<nat>, n: nat, body: seq<Byte>)
    requires |ids| <= n && 8 * |ids| < WORD && AllU64(ids)
    ensures !Overflows(Header(ids, n) + body)
    ensures FromBytes(Header(ids, n) + body) ==
            match Dec(ids, body)
            case Fail => Err
            case Parsed(v, rest) => if rest == [] then Ok(v) else Err
  {
    hide Dec, Bound, Le, FromLe;
    var fill := Fill(8 * (n - |ids|));
    var data := Header(ids, n) + body;
    var after := Words(ids) + (fill + body);
    assert data == Le(|ids|, 8) + after;
    WordBound();
    NumRoundTrip(|ids|, 8, after);
    assert data[..8] == Le(|ids|, 8) && FromLe(data[..8]) == |ids|;
    assert after[..8 * |ids|] == Words(ids) && after[8 * |ids|..] == fill + body;
    WordsRoundTrip(ids);
    DecFill(ids, 8 * (n - |ids|), body);
  }

  // ---------------------------------------------------------------------------
  // Replacing capabilities
  // ---------------------------------------------------------------------------

  /** `d` with its capability ids replaced in serialization order. */
  function Subst(d: Data, ids: seq<nat>): (r: Data)
    requires Wf(d) && Encodable(d) && |ids| == |Caps(d)|
    decreases d, 1
  {
    match d
    case DSome(e) => DSome(Subst(e, ids))
    case DNewtype(e) => DNewtype(Subst(e, ids))
    case DNewtypeVariant(idx, e) =>
      if IsCap(d) then DNewtypeVariant(idx, DInt(U64, ids[0])) else DNewtypeVariant(idx, Subst(e, ids))
    case DSeq(es) => DSeq(SubstAll(es, ids))
    case DMap(es) => DMap(SubstAll(es, ids))
    case DTupleVariant(idx, es) => DTupleVariant(idx, SubstAll(es, ids))
    case DStructVariant(idx, es) => DStructVariant(idx, SubstAll(es, ids))
    case _ => d
  }

  function SubstAll(es: seq<Data>, ids: seq<nat>): (r: seq<Data>)
    requires WfAll(es) && EncodableAll(es) && |ids| == |CapsAll(es)|
    ensures |r| == |es|
    decreases es, 0
  {
    if es == [] then []
    else
      var k := |Caps(es[0])|;
      [Subst(es[0], ids[..k])] + SubstAll(es[1..], ids[k..])
  }

  /** Replacing capability ids changes the table and not one byte of the data. */
  lemma {:induction false} SubstSpec(d: Data, ids: seq<nat>, k: nat)
    requires Wf(d) && Encodable(d) && |ids| == |Caps(d)| && AllU64(ids)
    ensures var e := Subst(d, ids);
            && Wf(e) && Encodable(e) && Caps(e) == ids && Enc(e, k) == Enc(d, k)
            && (NoReserved(e) <==> NoReserved(d))
    decreases d, 1
  {
    hide Le, ValidUtf8, Bound, Sized, WfAll, EncodableAll, CapsAll, EncAll, NoReservedAll, SubstAll;
    match d
    case DSome(e) => SubstSpec(e, ids, k);
    case DNewtype(e) => SubstSpec(e, ids, k);
    case DNewtypeVariant(idx, e) =>
      if !IsCap(d) { SubstSpec(e, ids, k); } else { assert U64.Holds(ids[0]); }
    case DSeq(es) => SubstAllSpec(es, ids, k);
    case DMap(es) => SubstAllSpec(es, ids, k);
    case DTupleVariant(_, es) => SubstAllSpec(es, ids, k);
    case DStructVariant(_, es) => SubstAllSpec(es, ids, k);
    case _ =>
  }

  lemma {:induction false} SubstAllSpec(es: seq<Data>, ids: seq<nat>, k: nat)
    requires WfAll(es) && EncodableAll(es) && |ids| == |CapsAll(es)| && AllU64(ids)
    ensures var fs := SubstAll(es, ids);
            && WfAll(fs) && EncodableAll(fs) && CapsAll(fs) == ids && EncAll(fs, k) == EncAll(es, k)
            && (NoReservedAll(fs) <==> NoReservedAll(es))
    decreases es, 0
  {
    hide Wf, Encodable, Caps, Enc, NoReserved, Subst, Bound;
    if es != [] {
      var n := |Caps(es[0])|;
      SubstSpec(es[0], ids[..n], k);
      SubstAllSpec(es[1..], ids[n..], k + n);
      assert ids[..n] + ids[n..] == ids;
      var fs := SubstAll(es, ids);
      assert fs[1..] == SubstAll(es[1..], ids[n..]);
    }
  }

  /** Replacing each id by itself changes nothing. */
  lemma {:induction false} SubstSelf(d: Data)
    requires Wf(d) && Encodable(d)
    ensures Subst(d, Caps(d)) == d
    decreases d, 1
  {
    hide Le, ValidUtf8, Bound, Sized, WfAll, EncodableAll, CapsAll, SubstAll;
    match d
    case DSome(e) => SubstSelf(e);
    case DNewtype(e) => SubstSelf(e);
    case DNewtypeVariant(idx, e) => if !IsCap(d) { SubstSelf(e); }
    case DSeq(es) => SubstAllSelf(es);
    case DMap(es) => SubstAllSelf(es);
    case DTupleVariant(_, es) => SubstAllSelf(es);
    case DStructVariant(_, es) => SubstAllSelf(es);
    case _ =>
  }

  lemma {:induction false} SubstAllSelf(es: seq<Data>)
    requires WfAll(es) && EncodableAll(es)
    ensures SubstAll(es, CapsAll(es)) == es
    decreases es, 0
  {
    hide Wf, Encodable, Caps, Subst;
    if es != [] {
      var n, ids := |Caps(es[0])|, CapsAll(es);
      assert ids[..n] == Caps(es[0]) && ids[n..] == CapsAll(es[1..]);
      SubstSelf(es[0]);
      SubstAllSelf(es[1..]);
    }
  }

  // ---------------------------------------------------------------------------
  // Printing and parsing
  // ---------------------------------------------------------------------------

  /** The ids that the places written for `ids` name: from the 65537th on they begin again. */
  function Named(ids: seq<nat>): seq<nat> {
    seq(|ids|, i requires 0 <= i < |ids| => ids[i % PLACES])
  }

  lemma {:induction false} NamedSpec(ids: seq<nat>)
    ensures Table(ids, 0, Named(ids)) && (AllU64(ids) ==> AllU64(Named(ids)))
    ensures |Named(ids)| == |ids| && (|ids| <= PLACES ==> Named(ids) == ids)
  {
    hide Bound;
    forall i | 0 <= i < |ids| ensures i % PLACES < |ids| && (|ids| <= PLACES ==> i % PLACES == i) {}
  }

  /** What the bytes of `d` stand for: each capability is the one its place names. */
  ghost function Decoded(d: Data): Result<Value>
    requires Wf(d) && Encodable(d)
  {
    CapsAreU64(d);
    NamedSpec(Caps(d));
    SubstSpec(d, Named(Caps(d)), 0);
    var e := Subst(d, Named(Caps(d)));
    if Good(e) then ToValue(e) else Err
  }

  /** Printing a message with room for any number of capabilities that suffices and parsing it gives the
      value of the tree in which each capability is the one its 16-bit place names. With at most 65536 of
      them that is the tree itself: the directly converted value, or an error exactly when that conversion
      fails or a reserved variant index is misused. */
  lemma {:induction false} MessageRoundTrip(d: Data, n: nat)
    requires Wf(d) && Encodable(d) && |Caps(d)| <= n && 8 * |Caps(d)| < WORD
    ensures !Overflows(ToBytes(d, n)) && FromBytes(ToBytes(d, n)) == Decoded(d)
    ensures |Caps(d)| <= PLACES ==> Decoded(d) == if Good(d) then ToValue(d) else Err
  {
    hide Dec, Enc, Caps, ToValue, Wf, Encodable, NoReserved, Header, FromBytes, Overflows, Subst, Bound, Named;
    var caps := Caps(d);
    CapsAreU64(d);
    NamedSpec(caps);
    SubstSpec(d, Named(caps), 0);
    SubstSelf(d);
    var e := Subst(d, Named(caps));
    HeaderTaken(caps, n, Enc(d, 0));
    RoundTrip(e, 0, caps, []);
    assert Enc(d, 0) + [] == Enc(d, 0);
  }

  /** A unit variant with the reserved index converts directly, but its bytes are refused. */
  lemma {:induction false} ReservedUnitVariant(n: nat)
    ensures var d := DUnitVariant(CAP_VARIANT);
            && Wf(d) && Encodable(d) && Caps(d) == []
            && ToValue(d) == Ok(EnumVariant(CAP_VARIANT, Null)) && FromBytes(ToBytes(d, n)) == Err
  {
    var d := DUnitVariant(CAP_VARIANT);
    assert Wf(d) && Encodable(d) && Caps(d) == [] && !Good(d);
    hide Enc, FromBytes, ToBytes, Decoded;
    MessageRoundTrip(d, n);
  }

  /** A list of capabilities. */
  function CapList(ids: seq<nat>): (r: seq<Data>)
    ensures |r| == |ids|
  {
    if ids == [] then [] else [Cap(ids[0])] + CapList(ids[1..])
  }

  function CapValues(ids: seq<nat>): (r: seq<Value>)
    ensures |r| == |ids| && forall i :: 0 <= i < |ids| ==> r[i] == Capability(ids[i])
  {
    seq(|ids|, i requires 0 <= i < |ids| => Capability(ids[i]))
  }

  function Cap(id: nat): Data { DNewtypeVariant(CAP_VARIANT, DInt(U64, id)) }

  lemma {:induction false} CapSpec(id: nat, other: nat)
    requires id < Bound(8) && ValidCap(id)
    ensures Wf(Cap(id)) && Encodable(Cap(id)) && Caps(Cap(id)) == [id] && NoReserved(Cap(id))
    ensures ToValue(Cap(id)) == Ok(Capability(id)) && Subst(Cap(id), [other]) == Cap(other)
  {
    hide Bound, ValidCap;
    assert U64.Holds(id);
  }

  lemma {:induction false} CapListSpec(ids: seq<nat>)
    requires AllU64(ids) && forall i :: 0 <= i < |ids| ==> ValidCap(ids[i])
    ensures WfAll(CapList(ids)) && EncodableAll(CapList(ids)) && CapsAll(CapList(ids)) == ids
    ensures ToValues(CapList(ids)) == Ok(CapValues(ids)) && NoReservedAll(CapList(ids))
  {
    CapListCaps(ids);
    CapListValues(ids);
  }

  lemma {:induction false} CapListCaps(ids: seq<nat>)
    requires AllU64(ids) && forall i :: 0 <= i < |ids| ==> ValidCap(ids[i])
    ensures WfAll(CapList(ids)) && EncodableAll(CapList(ids)) && CapsAll(CapList(ids)) == ids
  {
    hide Bound, ValidCap, Wf, Encodable, Caps;
    if ids != [] {
      CapListCaps(ids[1..]);
      CapSpec(ids[0], 0);
      var es := CapList(ids);
      assert es[0] == Cap(ids[0]) && es[1..] == CapList(ids[1..]);
      assert [ids[0]] + ids[1..] == ids;
    }
  }

  lemma {:induction false} CapListValues(ids: seq<nat>)
    requires AllU64(ids) && WfAll(CapList(ids)) && forall i :: 0 <= i < |ids| ==> ValidCap(ids[i])
    ensures ToValues(CapList(ids)) == Ok(CapValues(ids)) && NoReservedAll(CapList(ids))
  {
    hide Bound, ValidCap, Wf, NoReserved, ToValue;
    if ids != [] {
      var es := CapList(ids);
      assert es[0] == Cap(ids[0]) && es[1..] == CapList(ids[1..]);
      CapListValues(ids[1..]);
      CapSpec(ids[0], 0);
      assert [Capability(ids[0])] + CapValues(ids[1..]) == CapValues(ids);
    }
  }

  lemma {:induction false} CapListSubst(ids: seq<nat>, others: seq<nat>)
    requires AllU64(ids) && |others| == |ids| && forall i :: 0 <= i < |ids| ==> ValidCap(ids[i])
    requires WfAll(CapList(ids)) && EncodableAll(CapList(ids)) && CapsAll(CapList(ids)) == ids
    ensures SubstAll(CapList(ids), others) == CapList(others)
  {
    hide Bound, ValidCap, Wf, Encodable, Caps, Subst, WfAll, EncodableAll, CapsAll;
    if ids != [] {
      CapListSpec(ids[1..]);
      CapListSubst(ids[1..], others[1..]);
      CapSpec(ids[0], others[0]);
      var es := CapList(ids);
      assert es[0] == Cap(ids[0]) && es[1..] == CapList(ids[1..]) && others[..1] == [others[0]];
    }
  }

  lemma {:induction false} CapSeqSpec(ids: seq<nat>, others: seq<nat>)
    requires AllU64(ids) && |others| == |ids| && forall i :: 0 <= i < |ids| ==> ValidCap(ids[i])
    ensures var d := DSeq(CapList(ids));
            && Wf(d) && Encodable(d) && Caps(d) == ids && ToValue(d) == Ok(Sequence(CapValues(ids))) && Good(d)
            && Subst(d, others) == DSeq(CapList(others))
  {
    hide Wf, Encodable, Caps, ToValue, NoReserved, Subst, CapList, CapValues, ValidCap, Bound;
    hide WfAll, EncodableAll, CapsAll, ToValues, NoReservedAll, SubstAll;
    CapListSpec(ids);
    CapListSubst(ids, others);
    SeqParts(CapList(ids), others);
  }

  lemma {:induction false} SeqParts(es: seq<Data>, ids: seq<nat>)
    requires WfAll(es) && EncodableAll(es) && |ids| == |CapsAll(es)|
    ensures Wf(DSeq(es)) && Encodable(DSeq(es)) && Caps(DSeq(es)) == CapsAll(es)
    ensures NoReserved(DSeq(es)) <==> NoReservedAll(es)
    ensures ToValue(DSeq(es)) == match ToValues(es) case Ok(vs) => Ok(Sequence(vs)) case Err => Err
    ensures Subst(DSeq(es), ids) == DSeq(SubstAll(es, ids))
  {
    hide WfAll, EncodableAll, CapsAll, ToValues, NoReservedAll, SubstAll, Bound;
  }

  /** A list of valid capabilities parses to the list of those its places name, and converts directly to
      itself: the 65537th capability of a message is taken for the first. */
  lemma {:induction false} PlacesWrap(ids: seq<nat>, n: nat)
    requires AllU64(ids) && |ids| <= n && 8 * |ids| < WORD && forall i :: 0 <= i < |ids| ==> ValidCap(ids[i])
    ensures var d := DSeq(CapList(ids));
            && Wf(d) && Encodable(d) && Caps(d) == ids && ToValue(d) == Ok(Sequence(CapValues(ids)))
            && FromBytes(ToBytes(d, n)) == Ok(Sequence(CapValues(Named(ids))))
    ensures |ids| > PLACES ==> Named(ids)[PLACES] == ids[0]
  {
    hide Wf, Encodable, Caps, ToValue, Good, Subst, CapList, CapValues, Named, ToBytes, FromBytes, Bound, ValidCap;
    NamedSpec(ids);
    NamedValid(ids);
    CapSeqSpec(ids, Named(ids));
    CapSeqSpec(Named(ids), ids);
    MessageRoundTrip(DSeq(CapList(ids)), n);
  }

  lemma {:induction false} NamedValid(ids: seq<nat>)
    requires forall i :: 0 <= i < |ids| ==> ValidCap(ids[i])
    ensures |Named(ids)| == |ids| && forall i :: 0 <= i < |ids| ==> ValidCap(Named(ids)[i])
    ensures |ids| > PLACES ==> Named(ids)[PLACES] == ids[0]
  {
    hide ValidCap;
  }

  // ---------------------------------------------------------------------------
  // Relocation
  // ---------------------------------------------------------------------------

  /** A message whose table was rewritten with new ids is the message of the tree with those ids, so it
      parses to the same value with its i-th capability replaced by the i-th new id. */
  lemma {:induction false} RelocationCommutes(d: Data, n: nat, ids: seq<nat>)
    requires Wf(d) && Encodable(d) && |Caps(d)| <= n && 8 * |Caps(d)| < WORD
    requires |ids| == |Caps(d)| && AllU64(ids)
    ensures Wf(Subst(d, ids)) && Encodable(Subst(d, ids)) && Caps(Subst(d, ids)) == ids
    ensures Header(ids, n) + Enc(d, 0) == ToBytes(Subst(d, ids), n)
    ensures FromBytes(Header(ids, n) + Enc(d, 0)) == Decoded(Subst(d, ids))
    ensures |ids| <= PLACES ==> Decoded(Subst(d, ids)) == if Good(Subst(d, ids)) then ToValue(Subst(d, ids)) else Err
  {
    hide Enc, Caps, ToValue, Wf, Encodable, NoReserved, Header, FromBytes, Subst, Bound, Decoded;
    SubstSpec(d, ids, 0);
    MessageRoundTrip(Subst(d, ids), n);
  }
}
