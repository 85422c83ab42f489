/** The aser message format: the serde data model, the printer to bytes, the parser to `Value`, and
    the direct conversion to `Value`. */
module Aser {
  import opened AserBytes
  import CapIds

  /** Enum variant index that marks a capability. */
  const CAP_VARIANT: nat := 2987132124

  /** What a type serializes as: the serde data model with names dropped. Unit, unit struct and `None`
      are one case, as are sequence, tuple and tuple struct. `DText` is a string written through
      `collect_str`, as struct field names are; a struct is a map whose keys are such texts. The
      children of a map alternate between keys and values. */
  datatype Data =
    | DUnit
    | DBool(b: bool)
    | DInt(kind: IntKind, n: int)
    | DF32(bits: nat)
    | DF64(bits: nat)
    | DChar(c: nat)
    | DStr(s: seq<Byte>)
    | DText(s: seq<Byte>)
    | DBytes(s: seq<Byte>)
    | DSome(d: Data)
    | DNewtype(d: Data)
    | DUnitVariant(idx: nat)
    | DNewtypeVariant(idx: nat, d: Data)
    | DSeq(es: seq<Data>)
    | DMap(es: seq<Data>)
    | DTupleVariant(idx: nat, es: seq<Data>)
    | DStructVariant(idx: nat, es: seq<Data>)

  datatype Value =
    | Null
    | Bool(b: bool)
    | Integer(kind: IntKind, n: int)
    | F32(bits: nat)
    | F64(bits: nat)
    | Char(c: nat)
    | String(s: seq<Byte>)
    | Bytes(s: seq<Byte>)
    | Sequence(elems: seq<Value>)
    | Map(entries: map<Value, Value>)
    | Capability(id: nat)
    | Newtype(v: Value)
    | Some(v: Value)
    | EnumVariant(idx: nat, v: Value)

  /** A capability id is valid when its type bits name a capability type. */
  predicate ValidCap(id: nat) { CapIds.TryFrom(id).Some? }

  predicate IsIndex(n: nat) { n < 0x1_0000_0000 }
  predicate IsText(s: seq<Byte>) { ValidUtf8(s) && |s| < Bound(8) }

  /** Every leaf is a value of its Rust type, and every key of a map has its value. */
  predicate Wf(d: Data)
    decreases d, 1
  {
    match d
    case DInt(kind, n) => kind.Holds(n)
    case DF32(bits) => bits < Bound(4)
    case DF64(bits) => bits < Bound(8)
    case DChar(c) => IsScalar(c)
    case DStr(s) => IsText(s)
    case DText(s) => IsText(s)
    case DBytes(s) => |s| < Bound(8)
    case DSome(e) => Wf(e)
    case DNewtype(e) => Wf(e)
    case DUnitVariant(idx) => IsIndex(idx)
    case DNewtypeVariant(idx, e) => IsIndex(idx) && Wf(e)
    case DSeq(es) => WfAll(es)
    case DMap(es) => WfAll(es) && |es| % 2 == 0
    case DTupleVariant(idx, es) => IsIndex(idx) && WfAll(es)
    case DStructVariant(idx, es) => IsIndex(idx) && WfAll(es) && |es| % 2 == 0
    case _ => true
  }

  predicate WfAll(es: seq<Data>)
    decreases es, 0
  {
    es == [] || (Wf(es[0]) && WfAll(es[1..]))
  }

  /** A newtype variant with the reserved index must hold a `u64`, the capability's id. */
  predicate IsCap(d: Data) { d.DNewtypeVariant? && d.idx == CAP_VARIANT }
  predicate HoldsId(d: Data)
    requires IsCap(d)
  {
    d.d.DInt? && d.d.kind == U64
  }

  function CapId(d: Data): nat
    requires Wf(d) && IsCap(d) && HoldsId(d)
  {
    assert Wf(d.d);
    assert U64.Holds(d.d.n);
    d.d.n
  }

  /** No reserved index stands where something other than a capability is meant. */
  predicate Encodable(d: Data)
    decreases d, 1
  {
    match d
    case DSome(e) => Encodable(e)
    case DNewtype(e) => Encodable(e)
    case DNewtypeVariant(idx, e) => if IsCap(d) then HoldsId(d) else Encodable(e)
    case DSeq(es) => EncodableAll(es)
    case DMap(es) => EncodableAll(es)
    case DTupleVariant(_, es) => EncodableAll(es)
    case DStructVariant(_, es) => EncodableAll(es)
    case _ => true
  }

  predicate EncodableAll(es: seq<Data>)
    decreases es, 0
  {
    es == [] || (Encodable(es[0]) && EncodableAll(es[1..]))
  }

  /** The capability ids of a data tree, in serialization order. */
  function Caps(d: Data): seq<nat>
    requires Wf(d) && Encodable(d)
    decreases d, 1
  {
    match d
    case DSome(e) => Caps(e)
    case DNewtype(e) => Caps(e)
    case DNewtypeVariant(idx, e) => if IsCap(d) then [CapId(d)] else Caps(e)
    case DSeq(es) => CapsAll(es)
    case DMap(es) => CapsAll(es)
    case DTupleVariant(_, es) => CapsAll(es)
    case DStructVariant(_, es) => CapsAll(es)
    case _ => []
  }

  function CapsAll(es: seq<Data>): seq<nat>
    requires WfAll(es) && EncodableAll(es)
    decreases es, 0
  {
    if es == [] then [] else Caps(es[0]) + CapsAll(es[1..])
  }

  // ---------------------------------------------------------------------------
  // Printing
  // ---------------------------------------------------------------------------

  /** The bytes of `d` when `k` capabilities have been written before it. A capability is written as
      its index in the table; its id goes to the table. */
  function Enc(d: Data, k: nat): (r: seq<Byte>)
    requires Wf(d) && Encodable(d)
    decreases d, 1
  {
    match d
    case DUnit => [T_NULL]
    case DBool(b) => [if b then T_TRUE else T_FALSE]
    case DInt(kind, n) => [kind.Tag()] + Le(kind.ToBits(n), kind.Width())
    case DF32(bits) => [T_F32] + Le(bits, 4)
    case DF64(bits) => [T_F64] + Le(bits, 8)
    case DChar(c) => [T_CHAR] + Le(c, 4)
    case DStr(s) => Sized(T_STRING8, s)
    case DText(s) => [T_STRING8 + 3] + Le(|s|, 8) + s
    case DBytes(s) => Sized(T_BYTES8, s)
    case DSome(e) => [T_SOME] + Enc(e, k)
    case DNewtype(e) => [T_NEWTYPE] + Enc(e, k)
    case DUnitVariant(idx) => [T_VARIANT] + Le(idx, 4)
    case DNewtypeVariant(idx, e) =>
      if IsCap(d) then [T_CAPABILITY] + Le(k, 2) else [T_VARIANT_VALUE] + Le(idx, 4) + Enc(e, k)
    case DSeq(es) => [T_SEQ_START] + EncAll(es, k) + [T_SEQ_END]
    case DMap(es) => [T_MAP_START] + EncAll(es, k) + [T_MAP_END]
    case DTupleVariant(idx, es) => [T_VARIANT_VALUE] + Le(idx, 4) + ([T_SEQ_START] + EncAll(es, k) + [T_SEQ_END])
    case DStructVariant(idx, es) => [T_VARIANT_VALUE] + Le(idx, 4) + ([T_MAP_START] + EncAll(es, k) + [T_MAP_END])
  }

  function EncAll(es: seq<Data>, k: nat): seq<Byte>
    requires WfAll(es) && EncodableAll(es)
    decreases es, 0
  {
    if es == [] then [] else Enc(es[0], k) + EncAll(es[1..], k + |Caps(es[0])|)
  }

  /** The capability table: how many ids, the ids, and filler bytes up to `n` places. */
  function Header(ids: seq<nat>, n: nat): (r: seq<Byte>)
    requires |ids| <= n
  {
    Le(|ids|, 8) + Words(ids) + Fill(8 * (n - |ids|))
  }

  function Words(ids: seq<nat>): (r: seq<Byte>)
    ensures |r| == 8 * |ids|
  {
    if ids == [] then [] else Le(ids[0], 8) + Words(ids[1..])
  }

  function Fill(n: nat): (r: seq<Byte>)
    ensures |r| == n
  {
    seq(n, _ => T_FILLER)
  }

  /** `to_bytes` with room for `n` capabilities. */
  function ToBytes(d: Data, n: nat): seq<Byte>
    requires Wf(d) && Encodable(d) && |Caps(d)| <= n
  {
    Header(Caps(d), n) + Enc(d, 0)
  }

  // ---------------------------------------------------------------------------
  // Direct conversion
  // ---------------------------------------------------------------------------

  /** `Value::from_serialize`. */
  function ToValue(d: Data): Result<Value>
    requires Wf(d)
    decreases d, 2
  {
    match d
    case DUnit => Ok(Null)
    case DBool(b) => Ok(Bool(b))
    case DInt(kind, n) => Ok(Integer(kind, n))
    case DF32(bits) => Ok(F32(bits))
    case DF64(bits) => Ok(F64(bits))
    case DChar(c) => Ok(Char(c))
    case DStr(s) => Ok(String(s))
    case DText(s) => Ok(String(s))
    case DBytes(s) => Ok(Bytes(s))
    case DSome(e) => (match ToValue(e) case Ok(v) => Ok(Some(v)) case Err => Err)
    case DNewtype(e) => (match ToValue(e) case Ok(v) => Ok(Newtype(v)) case Err => Err)
    case DUnitVariant(idx) => Ok(EnumVariant(idx, Null))
    case DNewtypeVariant(idx, e) =>
      if IsCap(d) then (if HoldsId(d) && ValidCap(CapId(d)) then Ok(Capability(CapId(d))) else Err)
      else (match ToValue(e) case Ok(v) => Ok(EnumVariant(idx, v)) case Err => Err)
    case DSeq(es) => (match ToValues(es) case Ok(vs) => Ok(Sequence(vs)) case Err => Err)
    case DMap(es) => (match ToValues(es) case Ok(vs) => Ok(Map(Inserted(vs))) case Err => Err)
    case DTupleVariant(idx, es) =>
      (match ToValues(es) case Ok(vs) => Ok(EnumVariant(idx, Sequence(vs))) case Err => Err)
    case DStructVariant(idx, es) =>
      (match ToValues(es) case Ok(vs) => Ok(EnumVariant(idx, Map(Inserted(vs)))) case Err => Err)
  }

  function ToValues(es: seq<Data>): (r: Result<seq<Value>>)
    requires WfAll(es)
    ensures r.Ok? ==> |r.value| == |es|
    decreases es, 1
  {
    if es == [] then Ok([])
    else
      match ToValue(es[0])
      case Err => Err
      case Ok(v) => (match ToValues(es[1..]) case Ok(vs) => Ok([v] + vs) case Err => Err)
  }

  /** The map after inserting alternating keys and values in order; a later value for a key wins. */
  function Inserted(vs: seq<Value>): map<Value, Value> {
    if |vs| < 2 then map[]
    else Inserted(vs[..|vs| - 2])[vs[|vs| - 2] := vs[|vs| - 1]]
  }

  /** No variant other than a newtype variant uses the reserved index. */
  predicate NoReserved(d: Data)
    decreases d, 1
  {
    match d
    case DSome(e) => NoReserved(e)
    case DNewtype(e) => NoReserved(e)
    case DUnitVariant(idx) => idx != CAP_VARIANT
    case DNewtypeVariant(idx, e) => IsCap(d) || NoReserved(e)
    case DSeq(es) => NoReservedAll(es)
    case DMap(es) => NoReservedAll(es)
    case DTupleVariant(idx, es) => idx != CAP_VARIANT && NoReservedAll(es)
    case DStructVariant(idx, es) => idx != CAP_VARIANT && NoReservedAll(es)
    case _ => true
  }

  predicate NoReservedAll(es: seq<Data>)
    decreases es, 0
  {
    es == [] || (NoReserved(es[0]) && NoReservedAll(es[1..]))
  }

  // ---------------------------------------------------------------------------
  // Parsing
  // ---------------------------------------------------------------------------

  datatype Parsed<+T> = Parsed(value: T, rest: seq<Byte>) | Fail

  function Skip(input: seq<Byte>): (r: seq<Byte>)
    ensures |r| <= |input|
  {
    if input != [] && input[0] == T_FILLER then Skip(input[1..]) else input
  }

  function Take(input: seq<Byte>, n: nat): (r: Parsed<seq<Byte>>)
    ensures r.Parsed? ==> |r.value| == n && |r.rest| == |input| - n && input == r.value + r.rest
  {
    if n <= |input| then Parsed(input[..n], input[n..]) else Fail
  }

  function TakeNum(input: seq<Byte>, n: nat): (r: Parsed<nat>)
    ensures r.Parsed? ==> |r.rest| == |input| - n
  {
    match Take(input, n) case Fail => Fail case Parsed(s, rest) => Parsed(FromLe(s), rest)
  }

  /** A run of bytes whose length comes first, in `width` bytes. */
  function TakeRun(input: seq<Byte>, width: nat): (r: Parsed<seq<Byte>>)
    ensures r.Parsed? ==> |r.rest| <= |input|
  {
    match TakeNum(input, width) case Fail => Fail case Parsed(n, rest) => Take(rest, n)
  }

  function RunWidth(b: Byte): nat
    requires b < 4
  {
    if b == 0 then 1 else if b == 1 then 2 else if b == 2 then 4 else 8
  }

  /** `check_if_finished`: whether the end tag is next, taking it if so. */
  function AtEnd(input: seq<Byte>, end: Byte): (r: Parsed<bool>)
    ensures r.Parsed? ==> |r.rest| <= |input|
    ensures r.Parsed? && r.value ==> |r.rest| < |input|
    ensures r.Parsed? && !r.value ==> r.rest == input
  {
    if input == [] || !IsTag(input[0]) then Fail
    else if input[0] == end then Parsed(true, input[1..])
    else Parsed(false, input)
  }

  /** A `u64` read from the deserializer: any integer kind up to 64 bits whose value is not negative. */
  function DecU64(input0: seq<Byte>): (r: Parsed<nat>)
    ensures r.Parsed? ==> |r.rest| < |input0|
  {
    var input := Skip(input0);
    if input == [] || !(3 <= input[0] <= 11) || input[0] == 7 then Fail
    else
      var kind := KindOfTag(input[0]);
      match TakeNum(input[1..], kind.Width())
      case Fail => Fail
      case Parsed(b, rest) =>
        if kind.FromBits(b) < 0 then Fail else Parsed(kind.FromBits(b), rest)
  }

  /** A capability id handed to `visit_enum`. */
  function CapValue(id: nat, rest: seq<Byte>): Parsed<Value> {
    if ValidCap(id) then Parsed(Capability(id), rest) else Fail
  }

  /** `Value::deserialize`, reading capabilities from the table `caps`. */
  function Dec(caps: seq<nat>, input0: seq<Byte>): (r: Parsed<Value>)
    ensures r.Parsed? ==> |r.rest| < |input0|
    decreases |input0|, 0
  {
    var input := Skip(input0);
    if input == [] || !IsTag(input[0]) then Fail
    else
      var tag, rest := input[0], input[1..];
      if tag == T_NULL then Parsed(Null, rest)
      else if tag == T_TRUE then Parsed(Bool(true), rest)
      else if tag == T_FALSE then Parsed(Bool(false), rest)
      else if 3 <= tag <= 12 then
        var kind := KindOfTag(tag);
        (match TakeNum(rest, kind.Width())
         case Fail => Fail
         case Parsed(b, rest) => Parsed(Integer(kind, kind.FromBits(b)), rest))
      else if tag == T_F32 then
        (match TakeNum(rest, 4) case Fail => Fail case Parsed(b, rest) => Parsed(F32(b), rest))
      else if tag == T_F64 then
        (match TakeNum(rest, 8) case Fail => Fail case Parsed(b, rest) => Parsed(F64(b), rest))
      else if tag == T_CHAR then
        (match TakeNum(rest, 4)
         case Fail => Fail
         case Parsed(c, rest) => if IsScalar(c) then Parsed(Char(c), rest) else Fail)
      else if T_STRING8 <= tag < T_BYTES8 then
        (match TakeRun(rest, RunWidth(tag - T_STRING8))
         case Fail => Fail
         case Parsed(s, rest) => if ValidUtf8(s) then Parsed(String(s), rest) else Fail)
      else if T_BYTES8 <= tag < T_NEWTYPE then
        (match TakeRun(rest, RunWidth(tag - T_BYTES8))
         case Fail => Fail
         case Parsed(s, rest) => Parsed(Bytes(s), rest))
      else if tag == T_NEWTYPE then
        (match Dec(caps, rest) case Fail => Fail case Parsed(v, rest) => Parsed(Newtype(v), rest))
      else if tag == T_SOME then
        (match Dec(caps, rest) case Fail => Fail case Parsed(v, rest) => Parsed(Some(v), rest))
      else if tag == T_SEQ_START then
        (match DecAll(caps, rest, T_SEQ_END, false)
         case Fail => Fail
         case Parsed(vs, rest) => Parsed(Sequence(vs), rest))
      else if tag == T_MAP_START then
        (match DecAll(caps, rest, T_MAP_END, true)
         case Fail => Fail
         case Parsed(vs, rest) => Parsed(Map(Inserted(vs)), rest))
      else if tag == T_VARIANT then
        (match TakeNum(rest, 4)
         case Fail => Fail
         case Parsed(idx, rest) => if idx == CAP_VARIANT then Fail else Parsed(EnumVariant(idx, Null), rest))
      else if tag == T_VARIANT_VALUE then
        (match TakeNum(rest, 4)
         case Fail => Fail
         case Parsed(idx, rest) =>
           if idx == CAP_VARIANT then
             (match DecU64(rest) case Fail => Fail case Parsed(id, rest) => CapValue(id, rest))
           else
             (match Dec(caps, rest) case Fail => Fail case Parsed(v, rest) => Parsed(EnumVariant(idx, v), rest)))
      else if tag == T_CAPABILITY then
        (match TakeNum(rest, 2)
         case Fail => Fail
         case Parsed(i, rest) => if i < |caps| then CapValue(caps[i], rest) else Fail)
      else Fail
  }

  /** The elements up to the end tag. In a map the end tag is looked for only after a value. */
  function DecAll(caps: seq<nat>, input: seq<Byte>, end: Byte, pairs: bool): (r: Parsed<seq<Value>>)
    ensures r.Parsed? ==> |r.rest| < |input|
    decreases |input|, 1
  {
    match AtEnd(input, end)
    case Fail => Fail
    case Parsed(true, rest) => Parsed([], rest)
    case Parsed(false, _) =>
      match Dec(caps, input)
      case Fail => Fail
      case Parsed(v, rest) =>
        if !pairs then
          (match DecAll(caps, rest, end, pairs) case Fail => Fail case Parsed(vs, rest) => Parsed([v] + vs, rest))
        else
          match Dec(caps, rest)
          case Fail => Fail
          case Parsed(w, rest) =>
            (match DecAll(caps, rest, end, pairs) case Fail => Fail case Parsed(vs, rest) => Parsed([v, w] + vs, rest))
  }

  /** The `n` ids at the start of a table. */
  function Ids(s: seq<Byte>): seq<nat>
    requires |s| % 8 == 0
  {
    if s == [] then [] else [FromLe(s[..8])] + Ids(s[8..])
  }

  /** The length of the table of `n` ids does not fit a word: a panic if arithmetic is checked. */
  predicate Overflows(data: seq<Byte>) { |data| >= 8 && 8 * FromLe(data[..8]) >= WORD }

  /** `from_bytes`: the table, the value, and nothing after it. The length of the table is taken modulo the
      word, as it is where arithmetic is not checked. */
  function FromBytes(data: seq<Byte>): Result<Value> {
    match TakeNum(data, 8)
    case Fail => Err
    case Parsed(n, rest) =>
      match Take(rest, 8 * n % WORD)
      case Fail => Err
      case Parsed(table, input) =>
        match Dec(Ids(table), input)
        case Fail => Err
        case Parsed(v, rest) => if rest == [] then Ok(v) else Err
  }
}
