/** The deserializer as the stateful reader it is, and the in-place rewriting of a capability table. */
module AserDeserializer {
  import opened AserBytes
  import opened Aser
  import opened AserMessage
  import opened AserRoundTrip
  import opened AserSerializer

  /** What a reader left of its input, against what the parsing function says. */
  ghost predicate Agrees<T>(p: Parsed<T>, r: Result<T>, input: seq<Byte>) {
    match p
    case Fail => r.Err?
    case Parsed(v, rest) => r == Ok(v) && input == rest
  }

  /** Elements read so far, and the list still to come. */
  ghost function Prepended(vs: seq<Value>, p: Parsed<seq<Value>>): Parsed<seq<Value>> {
    match p
    case Fail => Fail
    case Parsed(ws, rest) => Parsed(vs + ws, rest)
  }

  class Deserializer {
    const capabilities: seq<nat>
    var input: seq<Byte>

    constructor (capabilities: seq<nat>, input: seq<Byte>)
      ensures this.capabilities == capabilities && this.input == input
    {
      this.capabilities, this.input := capabilities, input;
    }

    method TakeNumber(width: nat) returns (r: Result<nat>)
      modifies this`input
      ensures Agrees(TakeNum(old(input), width), r, input)
    {
      if width <= |input| {
        r := Ok(FromLe(input[..width]));
        input := input[width..];
      } else {
        r := Err;
      }
    }

    method TakeSized(width: nat) returns (r: Result<seq<Byte>>)
      modifies this`input
      ensures Agrees(TakeRun(old(input), width), r, input)
    {
      var n := TakeNumber(width);
      if n.Ok? && n.value <= |input| {
        r := Ok(input[..n.value]);
        input := input[n.value..];
      } else {
        r := Err;
      }
    }

    method CheckIfFinished(end: Byte) returns (r: Result<bool>)
      modifies this`input
      ensures Agrees(AtEnd(old(input), end), r, input) && |input| <= |old(input)|
    {
      if input == [] || !IsTag(input[0]) {
        return Err;
      }
      if input[0] == end {
        input := input[1..];
        return Ok(true);
      }
      return Ok(false);
    }

    /** Skips filler and takes the next type tag. */
    method NextTag() returns (r: Result<Byte>)
      modifies this`input
      ensures var s := Skip(old(input));
              if s == [] || !IsTag(s[0]) then r.Err? else r == Ok(s[0]) && input == s[1..]
    {
      while input != [] && input[0] == T_FILLER
        invariant Skip(input) == Skip(old(input))
        decreases |input|
      {
        input := input[1..];
      }
      if input == [] || !IsTag(input[0]) {
        return Err;
      }
      r := Ok(input[0]);
      input := input[1..];
    }

    /** `visit_seq`: elements until the end tag. */
    method VisitSeq() returns (r: Result<seq<Value>>)
      modifies this`input
      ensures Agrees(DecAll(capabilities, old(input), T_SEQ_END, false), r, input)
      decreases |input|, 1
    {
      hide Dec, DecAll;
      ghost var p := DecAll(capabilities, input, T_SEQ_END, false);
      var data: seq<Value> := [];
      PrependNone(p);
      ListEnds(capabilities, input, T_SEQ_END, false);
      var finished := CheckIfFinished(T_SEQ_END);
      while finished.Ok? && !finished.value
        invariant |input| <= |old(input)|
        invariant finished.Err? ==> p.Fail?
        invariant finished == Ok(true) ==> p == Parsed(data, input)
        invariant finished == Ok(false) ==> AtEnd(input, T_SEQ_END) == Parsed(false, input)
        invariant finished == Ok(false) ==> p == Prepended(data, DecAll(capabilities, input, T_SEQ_END, false))
        decreases |input|
      {
        ListStep(capabilities, input, T_SEQ_END, data);
        var v := DeserializeAny();
        if v.Err? {
          return Err;
        }
        data := data + [v.value];
        ListEnds(capabilities, input, T_SEQ_END, false);
        PrependNothing(data, AtEnd(input, T_SEQ_END));
        finished := CheckIfFinished(T_SEQ_END);
      }
      r := if finished.Ok? then Ok(data) else Err;
    }

    /** `next_entry`: a key and its value. */
    method NextEntry() returns (r: Result<(Value, Value)>)
      modifies this`input
      ensures Agrees(EntryAt(capabilities, old(input)), r, input)
      ensures r.Ok? ==> |input| < |old(input)|
      decreases |input|, 1
    {
      hide Dec;
      var k := DeserializeAny();
      if k.Err? {
        return Err;
      }
      var v := DeserializeAny();
      return if v.Ok? then Ok((k.value, v.value)) else Err;
    }

    /** `visit_map`: entries until the end tag, inserted as they come. */
    method VisitMap() returns (r: Result<map<Value, Value>>, ghost listed: seq<Value>)
      modifies this`input
      ensures Agrees(DecAll(capabilities, old(input), T_MAP_END, true), if r.Ok? then Ok(listed) else Err, input)
      ensures r.Ok? ==> r.value == Inserted(listed)
      decreases |input|, 2
    {
      hide EntryAt, DecAll, Inserted, Prepended;
      ghost var p := DecAll(capabilities, input, T_MAP_END, true);
      var m: map<Value, Value> := map[];
      listed := [];
      InsertNone();
      PrependNone(p);
      ListEnds(capabilities, input, T_MAP_END, true);
      var finished := CheckIfFinished(T_MAP_END);
      while finished.Ok? && !finished.value
        invariant |input| <= |old(input)| && m == Inserted(listed) && |listed| % 2 == 0
        invariant finished.Err? ==> p.Fail?
        invariant finished == Ok(true) ==> p == Parsed(listed, input)
        invariant finished == Ok(false) ==> AtEnd(input, T_MAP_END) == Parsed(false, input)
        invariant finished == Ok(false) ==> p == Prepended(listed, DecAll(capabilities, input, T_MAP_END, true))
        decreases |input|
      {
        PairStep(capabilities, input, T_MAP_END, listed);
        var e := NextEntry();
        if e.Err? {
          return Err, listed;
        }
        InsertPair(listed, e.value.0, e.value.1);
        m := m[e.value.0 := e.value.1];
        listed := listed + [e.value.0, e.value.1];
        ListEnds(capabilities, input, T_MAP_END, true);
        PrependNothing(listed, AtEnd(input, T_MAP_END));
        finished := CheckIfFinished(T_MAP_END);
      }
      r := if finished.Ok? then Ok(m) else Err;
    }

    /** `deserialize_any` with the visitor that builds a `Value`. */
    method DeserializeAny() returns (r: Result<Value>)
      modifies this`input
      ensures Agrees(Dec(capabilities, old(input)), r, input)
      ensures r.Ok? ==> |input| < |old(input)|
      decreases |input|, 0
    {
      hide Skip, DecAll, DecU64, TakeNum, TakeRun, FromLe, ValidUtf8, Inserted, KindOfTag, Bound;
      var tag := NextTag();
      if tag.Err? {
        return Err;
      }
      var t := tag.value;
      if t == T_NULL || t == T_TRUE || t == T_FALSE {
        return Ok(if t == T_NULL then Null else Bool(t == T_TRUE));
      } else if 3 <= t <= T_CHAR {
        r := NumberValue(t);
      } else if T_STRING8 <= t < T_NEWTYPE {
        r := RunValue(t);
      } else if t == T_NEWTYPE {
        r := DeserializeAny();
        r := if r.Ok? then Ok(Newtype(r.value)) else Err;
      } else if t == T_SOME {
        r := DeserializeAny();
        r := if r.Ok? then Ok(Some(r.value)) else Err;
      } else if t == T_SEQ_START {
        var vs := VisitSeq();
        r := if vs.Ok? then Ok(Sequence(vs.value)) else Err;
      } else if t == T_MAP_START {
        var m;
        ghost var listed;
        m, listed := VisitMap();
        r := if m.Ok? then Ok(Map(m.value)) else Err;
      } else if t == T_VARIANT || t == T_VARIANT_VALUE {
        r := VisitEnum(t == T_VARIANT_VALUE);
      } else if t == T_CAPABILITY {
        var i := TakeNumber(2);
        r := if i.Ok? && i.value < |capabilities| && ValidCap(capabilities[i.value])
             then Ok(Capability(capabilities[i.value])) else Err;
      } else {
        r := Err;
      }
    }

    /** Integers, floats and characters behind their tag. */
    method NumberValue(t: Byte) returns (r: Result<Value>)
      requires 3 <= t <= T_CHAR
      modifies this`input
      ensures Agrees(NumberAfter(t, old(input)), r, input)
    {
      hide TakeNum, KindOfTag, Bound;
      var width := if t <= 12 then KindOfTag(t).Width() else if t == T_F64 then 8 else 4;
      var n := TakeNumber(width);
      if n.Err? || (t == T_CHAR && !IsScalar(n.value)) {
        return Err;
      }
      if t <= 12 {
        return Ok(Integer(KindOfTag(t), KindOfTag(t).FromBits(n.value)));
      }
      return Ok(if t == T_F32 then F32(n.value) else if t == T_F64 then F64(n.value) else Char(n.value));
    }

    method RunValue(t: Byte) returns (r: Result<Value>)
      requires T_STRING8 <= t < T_NEWTYPE
      modifies this`input
      ensures Agrees(RunAfter(t, old(input)), r, input)
    {
      hide TakeRun, ValidUtf8;
      var s := TakeSized(RunWidth(if t < T_BYTES8 then t - T_STRING8 else t - T_BYTES8));
      if s.Err? || (t < T_BYTES8 && !ValidUtf8(s.value)) {
        return Err;
      }
      return Ok(if t < T_BYTES8 then String(s.value) else Bytes(s.value));
    }

    /** A `u64` from the input, for a capability id written as an ordinary enum variant. */
    method ReadU64() returns (r: Result<nat>)
      modifies this`input
      ensures Agrees(DecU64(old(input)), r, input)
    {
      hide Skip, TakeNum, KindOfTag, Bound;
      var tag := NextTag();
      if tag.Err? || !(3 <= tag.value <= 11) || tag.value == 7 {
        return Err;
      }
      var kind := KindOfTag(tag.value);
      var n := TakeNumber(kind.Width());
      if n.Err? || kind.FromBits(n.value) < 0 {
        return Err;
      }
      return Ok(kind.FromBits(n.value));
    }

    method VisitEnum(hasData: bool) returns (r: Result<Value>)
      modifies this`input
      ensures Agrees(EnumAfter(capabilities, hasData, old(input)), r, input)
      decreases |input|, 2
    {
      hide TakeNum, Dec, DecU64;
      var idx := TakeNumber(4);
      if idx.Err? {
        return Err;
      }
      if idx.value == CAP_VARIANT {
        if !hasData {
          return Err;
        }
        var id := ReadU64();
        return if id.Ok? && ValidCap(id.value) then Ok(Capability(id.value)) else Err;
      }
      if !hasData {
        return Ok(EnumVariant(idx.value, Null));
      }
      var v := DeserializeAny();
      return if v.Ok? then Ok(EnumVariant(idx.value, v.value)) else Err;
    }
  }

  // The cases of `Dec` by tag.

  ghost function NumberAfter(t: Byte, input: seq<Byte>): Parsed<Value>
    requires 3 <= t <= T_CHAR
  {
    var width := if t <= 12 then KindOfTag(t).Width() else if t == T_F64 then 8 else 4;
    match TakeNum(input, width)
    case Fail => Fail
    case Parsed(n, rest) =>
      if t <= 12 then Parsed(Integer(KindOfTag(t), KindOfTag(t).FromBits(n)), rest)
      else if t == T_F32 then Parsed(F32(n), rest)
      else if t == T_F64 then Parsed(F64(n), rest)
      else if IsScalar(n) then Parsed(Char(n), rest) else Fail
  }

  ghost function RunAfter(t: Byte, input: seq<Byte>): Parsed<Value>
    requires T_STRING8 <= t < T_NEWTYPE
  {
    match TakeRun(input, RunWidth(if t < T_BYTES8 then t - T_STRING8 else t - T_BYTES8))
    case Fail => Fail
    case Parsed(s, rest) =>
      if t >= T_BYTES8 then Parsed(Bytes(s), rest) else if ValidUtf8(s) then Parsed(String(s), rest) else Fail
  }

  ghost function EnumAfter(caps: seq<nat>, hasData: bool, input: seq<Byte>): Parsed<Value> {
    match TakeNum(input, 4)
    case Fail => Fail
    case Parsed(idx, rest) =>
      if idx == CAP_VARIANT then
        if !hasData then Fail
        else (match DecU64(rest) case Fail => Fail case Parsed(id, rest) => CapValue(id, rest))
      else if !hasData then Parsed(EnumVariant(idx, Null), rest)
      else (match Dec(caps, rest) case Fail => Fail case Parsed(v, rest) => Parsed(EnumVariant(idx, v), rest))
  }

  lemma {:induction false} PrependNone(p: Parsed<seq<Value>>)
    ensures Prepended([], p) == p
  {
    if p.Parsed? { assert [] + p.value == p.value; }
  }

  lemma {:induction false} PrependNothing(data: seq<Value>, p: Parsed<bool>)
    ensures p.Parsed? ==> Prepended(data, Parsed([], p.rest)) == Parsed(data, p.rest)
    ensures Prepended(data, Fail) == Fail
  {
    assert data + [] == data;
  }

  lemma {:induction false} InsertNone()
    ensures Inserted([]) == map[]
  {
  }

  ghost function EntryAt(caps: seq<nat>, input: seq<Byte>): Parsed<(Value, Value)> {
    match Dec(caps, input)
    case Fail => Fail
    case Parsed(k, rest) => (match Dec(caps, rest) case Fail => Fail case Parsed(v, rest) => Parsed((k, v), rest))
  }

  /** A list at whose end mark the reader stands is empty; without a readable tag it fails. */
  lemma {:induction false} ListEnds(caps: seq<nat>, input: seq<Byte>, end: Byte, pairs: bool)
    ensures AtEnd(input, end).Fail? ==> DecAll(caps, input, end, pairs).Fail?
    ensures AtEnd(input, end).Parsed? && AtEnd(input, end).value ==>
              DecAll(caps, input, end, pairs) == Parsed([], AtEnd(input, end).rest)
  {
    hide Dec;
  }

  lemma {:induction false} ListStep(caps: seq<nat>, input: seq<Byte>, end: Byte, data: seq<Value>)
    requires AtEnd(input, end) == Parsed(false, input)
    ensures Dec(caps, input).Fail? ==> DecAll(caps, input, end, false).Fail?
    ensures Dec(caps, input).Parsed? ==>
              Prepended(data, DecAll(caps, input, end, false)) ==
              Prepended(data + [Dec(caps, input).value], DecAll(caps, Dec(caps, input).rest, end, false))
  {
    if Dec(caps, input).Parsed? {
      var v, q := Dec(caps, input).value, DecAll(caps, Dec(caps, input).rest, end, false);
      hide Dec;
      if q.Parsed? { assert data + ([v] + q.value) == data + [v] + q.value; }
    }
  }

  lemma {:induction false} PairStep(caps: seq<nat>, input: seq<Byte>, end: Byte, data: seq<Value>)
    requires AtEnd(input, end) == Parsed(false, input)
    ensures EntryAt(caps, input).Fail? ==> Prepended(data, DecAll(caps, input, end, true)) == Fail
    ensures EntryAt(caps, input).Parsed? ==>
              var (k, v) := EntryAt(caps, input).value;
              Prepended(data, DecAll(caps, input, end, true)) ==
              Prepended(data + [k, v], DecAll(caps, EntryAt(caps, input).rest, end, true))
  {
    hide Dec;
    if EntryAt(caps, input).Parsed? {
      var (k, v) := EntryAt(caps, input).value;
      var q := DecAll(caps, EntryAt(caps, input).rest, end, true);
      if q.Parsed? { assert data + ([k, v] + q.value) == data + [k, v] + q.value; }
    }
  }

  lemma {:induction false} InsertPair(vs: seq<Value>, k: Value, v: Value)
    requires |vs| % 2 == 0
    ensures Inserted(vs + [k, v]) == Inserted(vs)[k := v]
  {
    var ws := vs + [k, v];
    assert ws[..|ws| - 2] == vs;
  }

  /** What a call comes to: its result, or a panic on an overflow where arithmetic is checked. */
  datatype Call<+T> = Returns(result: T) | Overflowed

  /** `from_bytes`, built with or without checks for overflow. */
  method ParseMessage(data: seq<Byte>, checked: bool) returns (r: Call<Result<Value>>)
    ensures r.Overflowed? <==> checked && Overflows(data)
    ensures r.Returns? ==> r.result == FromBytes(data)
  {
    hide Dec, Ids, FromLe;
    var whole := new Deserializer([], data);
    var count := whole.TakeNumber(8);
    if count.Err? { return Returns(Err); }
    if checked && 8 * count.value >= WORD { return Overflowed; }
    var length := 8 * count.value % WORD;
    if length > |whole.input| { return Returns(Err); }
    var table := whole.input[..length];
    var reader := new Deserializer(Ids(table), whole.input[length..]);
    var v := reader.DeserializeAny();
    r := Returns(if v.Ok? && reader.input != [] then Err else v);
  }

  /** Where arithmetic is not checked, the count is read modulo 2^61. */
  lemma {:induction false} CountWraps(data: seq<Byte>)
    requires |data| >= 8
    ensures FromBytes(data) == FromBytes(Le(FromLe(data[..8]) % 0x2000_0000_0000_0000, 8) + data[8..])
    ensures Overflows(data) <==> FromLe(data[..8]) >= 0x2000_0000_0000_0000
  {
    hide Dec, Ids, FromLe, Le, Bound;
    var n := FromLe(data[..8]);
    var m := n % 0x2000_0000_0000_0000;
    WordBound();
    NumRoundTrip(m, 8, data[8..]);
    assert TakeNum(data, 8) == Parsed(n, data[8..]);
    assert 8 * n % WORD == 8 * m % WORD;
  }

  /** A count of 2^61 and one zero byte: a panic where arithmetic is checked, and otherwise the value null. */
  lemma {:induction false} CountOverflows()
    ensures var data: seq<Byte> := [0, 0, 0, 0, 0, 0, 0, 32, 0];
            Overflows(data) && FromBytes(data) == Ok(Null)
  {
    var data: seq<Byte> := [0, 0, 0, 0, 0, 0, 0, 32, 0];
    var w := data[..8];
    HighByte(w);
    var n := FromLe(w);
    assert n == 0x2000_0000_0000_0000;
    assert TakeNum(data, 8) == Parsed(n, [0]);
    assert 8 * n % WORD == 0;
    assert Take([0 as Byte], 0) == Parsed([], [0]);
    hide FromLe;
    assert Dec([], [0]) == Parsed(Null, []);
  }

  lemma {:induction false} HighByte(w: seq<Byte>)
    requires |w| == 8 && forall i :: 0 <= i < 7 ==> w[i] == 0
    ensures var high: nat := w[7]; FromLe(w) == high * 0x100_0000_0000_0000
  {
    assert FromLe(w) == 256 * FromLe(w[1..]);
    assert FromLe(w[1..]) == 256 * FromLe(w[1..][1..]);
    assert w[1..][1..] == w[2..] && w[2..][1..] == w[3..] && w[3..][1..] == w[4..] && w[4..][1..] == w[5..];
    assert w[5..][1..] == w[6..] && w[6..][1..] == w[7..] && w[7..][1..] == [];
    var high: nat := w[7];
    assert FromLe(w[7..]) == high;
    assert FromLe(w[6..]) == 0x100 * high;
    assert FromLe(w[5..]) == 0x1_0000 * high;
    assert FromLe(w[4..]) == 0x100_0000 * high;
    assert FromLe(w[3..]) == 0x1_0000_0000 * high;
    assert FromLe(w[2..]) == 0x100_0000_0000 * high;
  }

  // ---------------------------------------------------------------------------
  // Rewriting a table
  // ---------------------------------------------------------------------------

  /** Every id of the table can be read, is valid, and can be cloned. */
  ghost predicate Clonable(data: seq<Byte>, clone: nat -> Result<nat>) {
    && |data| >= 8 && |data| >= 8 * GetWord(data, 0) + 8
    && (forall i :: 1 <= i <= GetWord(data, 0) ==> ValidCap(GetWord(data, i)) && clone(GetWord(data, i)).Ok?)
  }

  /** `now` is `was` with words 1 to `n - 1` replaced by their clones. */
  ghost predicate Replaced(was: seq<Byte>, now: seq<Byte>, n: nat, clone: nat -> Result<nat>) {
    && |now| == |was| && 8 <= 8 * n <= |was|
    && now[..8] == was[..8] && now[8 * n..] == was[8 * n..]
    && (forall i :: 1 <= i < n ==> clone(GetWord(was, i)).Ok?)
    && (forall i :: 1 <= i < n ==> now[8 * i..8 * i + 8] == Le(clone(GetWord(was, i)).value, 8))
  }

  /** The count has no successor in a word. */
  ghost predicate Saturated(data: seq<Byte>) { |data| >= 8 && GetWord(data, 0) == WORD - 1 }

  /** Eight bytes 0xff: a table that is never looked at. */
  lemma {:induction false} AllOnes()
    ensures Saturated(seq(8, _ => 255))
  {
    var s: seq<Byte> := seq(8, _ => 255);
    LeRoundTripAll(s);
    assert s[0..8] == s;
  }

  lemma {:induction false} LeRoundTripAll(s: seq<Byte>)
    requires forall i :: 0 <= i < |s| ==> s[i] == 255
    ensures FromLe(s) == Bound(|s|) - 1
  {
    if s != [] { LeRoundTripAll(s[1..]); }
    if |s| == 8 { WordBound(); }
  }

  /** `clone_caps_to_cspace`, built with or without checks for overflow: replaces each id of the table, in
      place, by the id of its clone. Fails exactly when an id cannot be read, is not valid or cannot be
      cloned; the ids before it have then been replaced already. For the largest count the end of the range
      overflows: a panic, or an empty range and success with nothing replaced. */
  method CloneCaps(data: array<Byte>, clone: nat -> Result<nat>, checked: bool) returns (r: Call<bool>)
    modifies data
    ensures r.Overflowed? <==> checked && Saturated(old(data[..]))
    ensures r.Returns? && !Saturated(old(data[..])) ==>
              && (r.result <==> Clonable(old(data[..]), clone))
              && (r.result ==> Replaced(old(data[..]), data[..], GetWord(old(data[..]), 0) + 1, clone))
    ensures Saturated(old(data[..])) ==> data[..] == old(data[..]) && (r.Returns? ==> r.result)
  {
    if data.Length < 8 {
      return Returns(false);
    }
    if GetWord(data[..], 0) == WORD - 1 { return if checked then Overflowed else Returns(true); }
    hide Replaced, Le, FromLe;
    ghost var was := data[..];
    var count := GetWord(data[..], 0);
    ReplaceNone(was, clone);
    var i := 1;
    while i <= count
      invariant 1 <= i <= count + 1 && 8 * i <= data.Length
      invariant Replaced(was, data[..], i, clone)
      invariant forall j :: 1 <= j < i ==> ValidCap(GetWord(was, j)) && clone(GetWord(was, j)).Ok?
    {
      if 8 * i + 8 > data.Length {
        return Returns(false);
      }
      var cap := GetWord(data[..], i);
      StillToReplace(was, data[..], i, clone);
      if !ValidCap(cap) || clone(cap).Err? {
        return Returns(false);
      }
      ghost var before := data[..];
      WriteWord(data, i, Le(clone(cap).value, 8));
      ReplaceStep(was, before, data[..], i, clone);
      i := i + 1;
    }
    return Returns(true);
  }

  method WriteWord(data: array<Byte>, i: nat, bytes: seq<Byte>)
    requires 8 * i + 8 <= data.Length && |bytes| == 8
    modifies data
    ensures data[..] == old(data[..])[..8 * i] + bytes + old(data[..])[8 * i + 8..]
  {
    forall k | 0 <= k < 8 {
      data[8 * i + k] := bytes[k];
    }
  }

  lemma {:induction false} ReplaceNone(was: seq<Byte>, clone: nat -> Result<nat>)
    requires |was| >= 8
    ensures Replaced(was, was, 1, clone)
  {
  }

  lemma {:induction false} StillToReplace(was: seq<Byte>, now: seq<Byte>, i: nat, clone: nat -> Result<nat>)
    requires Replaced(was, now, i, clone) && 8 * i + 8 <= |was|
    ensures GetWord(now, i) == GetWord(was, i)
  {
    assert now[8 * i..8 * i + 8] == now[8 * i..][..8] == was[8 * i..][..8] == was[8 * i..8 * i + 8];
  }

  lemma {:induction false} ReplaceStep(was: seq<Byte>, before: seq<Byte>, after: seq<Byte>, i: nat,
                                       clone: nat -> Result<nat>)
    requires Replaced(was, before, i, clone) && 8 * i + 8 <= |was| && clone(GetWord(was, i)).Ok?
    requires after == before[..8 * i] + Le(clone(GetWord(was, i)).value, 8) + before[8 * i + 8..]
    ensures Replaced(was, after, i + 1, clone)
  {
    hide Le, FromLe;
    assert after[8 * (i + 1)..] == before[8 * i..][8..] == was[8 * i..][8..] == was[8 * (i + 1)..];
    assert after[..8] == before[..8];
    forall j | 1 <= j < i + 1
      ensures clone(GetWord(was, j)).Ok? && after[8 * j..8 * j + 8] == Le(clone(GetWord(was, j)).value, 8)
    {
      if j < i { assert after[8 * j..8 * j + 8] == before[8 * j..8 * j + 8]; }
    }
  }

  /** The ids after cloning. */
  function Cloned(ids: seq<nat>, clone: nat -> Result<nat>): seq<nat>
    requires forall i :: 0 <= i < |ids| ==> clone(ids[i]).Ok?
  {
    seq(|ids|, i requires 0 <= i < |ids| => clone(ids[i]).value)
  }

  /** A buffer cut into words that are each as given is those words one after the other. */
  lemma {:induction false} WordsOf(s: seq<Byte>, ids: seq<nat>)
    requires |s| == 8 * |ids|
    requires forall i :: 0 <= i < |ids| ==> s[8 * i..8 * i + 8] == Le(ids[i], 8)
    ensures s == Words(ids)
  {
    hide Le;
    if ids != [] {
      var t := s[8..];
      forall i | 0 <= i < |ids| - 1 ensures t[8 * i..8 * i + 8] == Le(ids[1..][i], 8) {
        assert t[8 * i..8 * i + 8] == s[8 * (i + 1)..8 * (i + 1) + 8];
      }
      WordsOf(t, ids[1..]);
      assert s[8 * 0..8 * 0 + 8] == s[..8];
      assert s == s[..8] + t;
    }
  }

  lemma {:induction false} WordOfTable(ids: seq<nat>, n: nat, body: seq<Byte>, i: nat)
    requires |ids| <= n && AllU64(ids) && i < |ids|
    ensures 8 * (i + 1) + 8 <= |Header(ids, n) + body|
    ensures GetWord(Header(ids, n) + body, i + 1) == ids[i]
  {
    hide Le, FromLe, Bound;
    var data := Header(ids, n) + body;
    HeaderLength(ids, n);
    WordAt(ids, i);
    assert data[8 * (i + 1)..8 * (i + 1) + 8] == Words(ids)[8 * i..8 * i + 8];
    LeRoundTrip(ids[i], 8);
  }

  lemma {:induction false} WordAt(ids: seq<nat>, i: nat)
    requires i < |ids|
    ensures Words(ids)[8 * i..8 * i + 8] == Le(ids[i], 8)
  {
    hide Le;
    if i == 0 {
      assert Words(ids)[0..8] == Le(ids[0], 8);
    } else {
      WordAt(ids[1..], i - 1);
      assert Words(ids)[8 * i..8 * i + 8] == Words(ids[1..])[8 * (i - 1)..8 * (i - 1) + 8];
    }
  }

  lemma {:induction false} CloningTable(ids: seq<nat>, n: nat, body: seq<Byte>, now: seq<Byte>,
                                        clone: nat -> Result<nat>)
    requires |ids| <= n && AllU64(ids)
    requires Replaced(Header(ids, n) + body, now, |ids| + 1, clone)
    ensures forall i :: 0 <= i < |ids| ==> clone(ids[i]).Ok?
    ensures now == Header(Cloned(ids, clone), n) + body
  {
    hide Le, FromLe, Bound;
    var was, k := Header(ids, n) + body, |ids|;
    HeaderLength(ids, n);
    forall i | 0 <= i < k
      ensures clone(ids[i]).Ok? && now[8 * (i + 1)..8 * (i + 1) + 8] == Le(clone(ids[i]).value, 8)
    {
      WordOfTable(ids, n, body, i);
    }
    var mid := now[8..8 * (k + 1)];
    forall i | 0 <= i < k ensures mid[8 * i..8 * i + 8] == Le(Cloned(ids, clone)[i], 8) {
      SliceOfSlice(now, 8, 8 * (k + 1), 8 * i, 8 * i + 8);
      assert 8 + 8 * i == 8 * (i + 1);
    }
    WordsOf(mid, Cloned(ids, clone));
    var tail := Fill(8 * (n - k)) + body;
    assert was[8 * (k + 1)..] == tail && was[..8] == Le(k, 8);
    assert now == now[..8] + mid + now[8 * (k + 1)..];
  }

  /** Cloning the table of a printed message, in place, gives the printed message of the same tree with
      each capability replaced by its clone, which parses to that tree's value. */
  lemma {:induction false} CloningRelocates(d: Data, n: nat, now: seq<Byte>, clone: nat -> Result<nat>)
    requires Wf(d) && Encodable(d) && |Caps(d)| <= n && 8 * |Caps(d)| < WORD
    requires Replaced(ToBytes(d, n), now, |Caps(d)| + 1, clone)
    requires forall id :: clone(id).Ok? ==> clone(id).value < Bound(8)
    ensures forall i :: 0 <= i < |Caps(d)| ==> clone(Caps(d)[i]).Ok?
    ensures var e := Subst(d, Cloned(Caps(d), clone));
            && Wf(e) && Encodable(e) && FromBytes(now) == Decoded(e)
            && (|Caps(d)| <= PLACES ==> Decoded(e) == if Good(e) then ToValue(e) else Err)
  {
    hide Enc, Caps, ToValue, Wf, Encodable, NoReserved, Header, FromBytes, Subst, Bound, Replaced, Decoded;
    CapsAreU64(d);
    CloningTable(Caps(d), n, Enc(d, 0), now, clone);
    RelocationCommutes(d, n, Cloned(Caps(d), clone));
  }
}
