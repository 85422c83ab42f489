/** Serializing a `Value` itself, with maps listed in any order, and reading it back. */
module AserValue {
  import opened AserBytes
  import opened Aser
  import opened AserMessage
  import opened AserRoundTrip

  /** `vs` alternates the keys of `m` with their values and leaves none out. */
  ghost predicate Lists(m: map<Value, Value>, vs: seq<Value>) {
    && |vs| % 2 == 0
    && (forall i :: 0 <= i < |vs| / 2 ==> vs[2 * i] in m && vs[2 * i + 1] == m[vs[2 * i]])
    && (forall k :: k in m ==> exists i :: 0 <= i < |vs| / 2 && vs[2 * i] == k)
  }

  /** `v` serializes as `d`, for some order of its maps' entries. Capability ids are valid and enum
      values do not use the index reserved for capabilities. */
  ghost predicate SerializesAs(v: Value, d: Data)
    decreases d, 1
  {
    match v
    case Null => d == DUnit
    case Bool(b) => d == DBool(b)
    case Integer(kind, n) => d == DInt(kind, n)
    case F32(bits) => d == DF32(bits)
    case F64(bits) => d == DF64(bits)
    case Char(c) => d == DChar(c)
    case String(s) => d == DStr(s)
    case Bytes(s) => d == DBytes(s)
    case Sequence(vs) => d.DSeq? && SerializeAs(vs, d.es)
    case Map(m) => d.DMap? && exists vs :: Lists(m, vs) && SerializeAs(vs, d.es)
    case Capability(id) => ValidCap(id) && d == DNewtypeVariant(CAP_VARIANT, DInt(U64, id))
    case Newtype(w) => d.DNewtype? && SerializesAs(w, d.d)
    case Some(w) => d.DSome? && SerializesAs(w, d.d)
    case EnumVariant(idx, w) =>
      idx != CAP_VARIANT &&
      if w == Null then d == DUnitVariant(idx) else d.DNewtypeVariant? && d.idx == idx && SerializesAs(w, d.d)
  }

  ghost predicate SerializeAs(vs: seq<Value>, es: seq<Data>)
    decreases es, 0
  {
    |vs| == |es| && (es == [] || (SerializesAs(vs[0], es[0]) && SerializeAs(vs[1..], es[1..])))
  }

  /** Inserting the listed entries of a map, in any order, rebuilds it. */
  lemma {:induction false} InsertedListing(m: map<Value, Value>, vs: seq<Value>)
    requires Lists(m, vs)
    ensures Inserted(vs) == m
  {
    InsertedPart(m, vs);
    forall k | k in m ensures k in Inserted(vs) {
      var i :| 0 <= i < |vs| / 2 && vs[2 * i] == k;
    }
  }

  lemma {:induction false} InsertedPart(m: map<Value, Value>, vs: seq<Value>)
    requires |vs| % 2 == 0
    requires forall i :: 0 <= i < |vs| / 2 ==> vs[2 * i] in m && vs[2 * i + 1] == m[vs[2 * i]]
    ensures forall k :: k in Inserted(vs) ==> k in m && Inserted(vs)[k] == m[k]
    ensures forall i :: 0 <= i < |vs| / 2 ==> vs[2 * i] in Inserted(vs)
  {
    if |vs| >= 2 {
      var n := |vs| - 2;
      var init := vs[..n];
      assert forall i :: 0 <= i < n / 2 ==> init[2 * i] == vs[2 * i] && init[2 * i + 1] == vs[2 * i + 1];
      InsertedPart(m, init);
      assert vs[n] == vs[2 * (n / 2)] && vs[n + 1] == vs[2 * (n / 2) + 1];
    }
  }

  /** What a value serializes as converts back to the value. */
  lemma {:induction false} ValueSurvives(v: Value, d: Data)
    requires SerializesAs(v, d) && Wf(d)
    ensures ToValue(d) == Ok(v) && NoReserved(d) && Encodable(d)
    decreases d, 1
  {
    hide ValidUtf8, Bound, Inserted;
    match v
    case Sequence(vs) => ValuesSurvive(vs, d.es);
    case Map(m) =>
      var vs :| Lists(m, vs) && SerializeAs(vs, d.es);
      InsertedListing(m, vs);
      ValuesSurvive(vs, d.es);
    case Newtype(w) => ValueSurvives(w, d.d);
    case Some(w) => ValueSurvives(w, d.d);
    case EnumVariant(idx, w) => if w != Null { ValueSurvives(w, d.d); }
    case _ =>
  }

  lemma {:induction false} ValuesSurvive(vs: seq<Value>, es: seq<Data>)
    requires SerializeAs(vs, es) && WfAll(es)
    ensures ToValues(es) == Ok(vs) && NoReservedAll(es) && EncodableAll(es)
    decreases es, 0
  {
    hide SerializesAs, Wf, ToValue, NoReserved, Encodable;
    if es != [] {
      ValueSurvives(vs[0], es[0]);
      ValuesSurvive(vs[1..], es[1..]);
      assert vs == [vs[0]] + vs[1..];
    }
  }

  /** Every value printed to bytes and parsed again is unchanged, whatever the order in which its maps
      were printed. */
  lemma {:induction false} ValueRoundTrip(v: Value, d: Data, n: nat)
    requires SerializesAs(v, d) && Wf(d)
    ensures Encodable(d)
    ensures |Caps(d)| <= n && |Caps(d)| <= PLACES ==> FromBytes(ToBytes(d, n)) == Ok(v)
  {
    hide SerializesAs, Wf, ToValue, NoReserved, Encodable, FromBytes, ToBytes, Caps;
    ValueSurvives(v, d);
    if |Caps(d)| <= n && |Caps(d)| <= PLACES { MessageRoundTrip(d, n); }
  }
}
