/** What the parser accepts, whoever wrote it: the bytes of a form, in numbers. A form is more than a printer
    writes: filler may stand before any value, a length may take more bytes than it needs, and a capability may be
    given by its id. */
module AserGrammar {
  import opened Aser
  import opened AserBytes
  import opened AserMessage
  import opened AserRoundTrip
  import BitUtils

  datatype Form =
    | Filler(f: Form)
    | Nil
    | Truth(b: bool)
    | Int(kind: IntKind, n: int)
    | Float32(bits: nat)
    | Float64(bits: nat)
    | Letter(c: nat)
    | Text(w: nat, s: seq<Byte>)
    | Blob(w: nat, s: seq<Byte>)
    | Wrap(f: Form)
    | Just(f: Form)
    | List(fs: seq<Form>)
    | Dict(fs: seq<Form>)
    | Variant(idx: nat)
    | VariantOf(idx: nat, f: Form)
    | Place(i: nat)
    | Id(pad: nat, kind: IntKind, n: int)

  /** The widths a length can have. */
  function Width(w: nat): nat
    requires w < 4
  {
    [1, 2, 4, 8][w]
  }

  /** The forms that stand for a value when the table holds `caps`. */
  predicate Formed(f: Form, caps: seq<nat>)
    decreases f, 1
  {
    match f
    case Filler(g) => Formed(g, caps)
    case Int(kind, n) => kind.Holds(n)
    case Float32(bits) => bits < 0x1_0000_0000
    case Float64(bits) => bits < 0x1_0000_0000_0000_0000
    case Letter(c) => IsScalar(c)
    case Text(w, s) => w < 4 && |s| < Bound(Width(w)) && ValidUtf8(s)
    case Blob(w, s) => w < 4 && |s| < Bound(Width(w))
    case Wrap(g) => Formed(g, caps)
    case Just(g) => Formed(g, caps)
    case List(fs) => AllFormed(fs, caps)
    case Dict(fs) => AllFormed(fs, caps) && |fs| % 2 == 0
    case Variant(idx) => idx < 0x1_0000_0000 && idx != 2987132124
    case VariantOf(idx, g) => idx < 0x1_0000_0000 && idx != 2987132124 && Formed(g, caps)
    case Place(i) => i < 0x1_0000 && i < |caps| && ValidCap(caps[i])
    case Id(_, kind, n) => kind != I128 && kind != U128 && kind.Holds(n) && 0 <= n && ValidCap(n)
    case _ => true
  }

  predicate AllFormed(fs: seq<Form>, caps: seq<nat>)
    decreases fs, 0
  {
    fs == [] || (Formed(fs[0], caps) && AllFormed(fs[1..], caps))
  }

  /** An integer: the number of its kind, then its bits, the lowest byte first. */
  function IntBytes(kind: IntKind, n: int): seq<Byte>
    requires kind.Holds(n)
  {
    match kind
    case I8 => [3] + Le(kind.ToBits(n), 1)
    case I16 => [4] + Le(kind.ToBits(n), 2)
    case I32 => [5] + Le(kind.ToBits(n), 4)
    case I64 => [6] + Le(kind.ToBits(n), 8)
    case I128 => [7] + Le(kind.ToBits(n), 16)
    case U8 => [8] + Le(kind.ToBits(n), 1)
    case U16 => [9] + Le(kind.ToBits(n), 2)
    case U32 => [10] + Le(kind.ToBits(n), 4)
    case U64 => [11] + Le(kind.ToBits(n), 8)
    case U128 => [12] + Le(kind.ToBits(n), 16)
  }

  function FormBytes(f: Form, caps: seq<nat>): seq<Byte>
    requires Formed(f, caps)
    decreases f, 1
  {
    match f
    case Filler(g) => [255] + FormBytes(g, caps)
    case Nil => [0]
    case Truth(b) => [if b then 1 else 2]
    case Int(kind, n) => IntBytes(kind, n)
    case Float32(bits) => [13] + Le(bits, 4)
    case Float64(bits) => [14] + Le(bits, 8)
    case Letter(c) => [15] + Le(c, 4)
    case Text(w, s) => [16 + w] + (Le(|s|, Width(w)) + s)
    case Blob(w, s) => [20 + w] + (Le(|s|, Width(w)) + s)
    case Wrap(g) => [24] + FormBytes(g, caps)
    case Just(g) => [25] + FormBytes(g, caps)
    case List(fs) => [26] + (FormsBytes(fs, caps) + [27])
    case Dict(fs) => [28] + (FormsBytes(fs, caps) + [29])
    case Variant(idx) => [30] + Le(idx, 4)
    case VariantOf(idx, g) => [31] + Le(idx, 4) + FormBytes(g, caps)
    case Place(i) => [32] + Le(i, 2)
    case Id(pad, kind, n) => [31] + Le(2987132124, 4) + (Fill(pad) + IntBytes(kind, n))
  }

  function FormsBytes(fs: seq<Form>, caps: seq<nat>): seq<Byte>
    requires AllFormed(fs, caps)
    decreases fs, 0
  {
    if fs == [] then [] else FormBytes(fs[0], caps) + FormsBytes(fs[1..], caps)
  }

  function Meaning(f: Form, caps: seq<nat>): Value
    requires Formed(f, caps)
    decreases f, 1
  {
    match f
    case Filler(g) => Meaning(g, caps)
    case Nil => Null
    case Truth(b) => Bool(b)
    case Int(kind, n) => Integer(kind, n)
    case Float32(bits) => F32(bits)
    case Float64(bits) => F64(bits)
    case Letter(c) => Char(c)
    case Text(_, s) => String(s)
    case Blob(_, s) => Bytes(s)
    case Wrap(g) => Newtype(Meaning(g, caps))
    case Just(g) => Some(Meaning(g, caps))
    case List(fs) => Sequence(Meanings(fs, caps))
    case Dict(fs) => Map(Inserted(Meanings(fs, caps)))
    case Variant(idx) => EnumVariant(idx, Null)
    case VariantOf(idx, g) => EnumVariant(idx, Meaning(g, caps))
    case Place(i) => Capability(caps[i])
    case Id(_, _, n) => Capability(n)
  }

  function Meanings(fs: seq<Form>, caps: seq<nat>): (vs: seq<Value>)
    requires AllFormed(fs, caps)
    ensures |vs| == |fs|
    decreases fs, 0
  {
    if fs == [] then [] else [Meaning(fs[0], caps)] + Meanings(fs[1..], caps)
  }

  // ---------------------------------------------------------------------------
  // Every form is accepted
  // ---------------------------------------------------------------------------

  lemma {:induction false} IntBytesAre(kind: IntKind, n: int)
    requires kind.Holds(n)
    ensures IntBytes(kind, n) == [kind.Tag()] + Le(kind.ToBits(n), kind.Width())
  {
    hide Le, Bound, IntKind.ToBits;
  }

  lemma {:induction false} FormBegins(f: Form, caps: seq<nat>)
    requires Formed(f, caps)
    ensures FormBytes(f, caps) != [] && IsTag(FormBytes(f, caps)[0])
    ensures FormBytes(f, caps)[0] != 27 && FormBytes(f, caps)[0] != 29
  {
    hide Le, ValidUtf8, FormsBytes, AllFormed, Bound, IntKind.ToBits, IsScalar, ValidCap;
  }

  lemma {:induction false} FillerAt(caps: seq<nat>, body: seq<Byte>)
    ensures Dec(caps, [255] + body) == Dec(caps, body)
  {
    assert Fill(1) + body == [255] + body;
    DecFill(caps, 1, body);
  }

  /** Text and bytes, whichever width the length has. */
  lemma {:induction false} RunAt(caps: seq<nat>, w: nat, s: seq<Byte>, rest: seq<Byte>)
    requires w < 4 && |s| < Bound(Width(w))
    ensures ValidUtf8(s) ==> Dec(caps, [16 + w] + (Le(|s|, Width(w)) + s) + rest) == Parsed(String(s), rest)
    ensures Dec(caps, [20 + w] + (Le(|s|, Width(w)) + s) + rest) == Parsed(Bytes(s), rest)
  {
    hide Skip, TakeNum, TakeRun, Le, FromLe, Bound, ValidUtf8, DecAll, DecU64;
    assert Width(w) == RunWidth(w);
    TagOff(16 + w, Le(|s|, Width(w)) + s, rest);
    TagOff(20 + w, Le(|s|, Width(w)) + s, rest);
    RunRoundTrip(s, Width(w), rest);
  }

  lemma {:induction false} PlaceRead(caps: seq<nat>, i: nat, rest: seq<Byte>)
    requires Formed(Place(i), caps)
    ensures Dec(caps, [32] + Le(i, 2) + rest) == Parsed(Capability(caps[i]), rest)
  {
    hide Skip, TakeNum, TakeRun, Le, FromLe, Bound, ValidUtf8, DecAll, DecU64;
    PlaceAt(i, rest);
  }

  lemma {:induction false} IdRead(pad: nat, kind: IntKind, n: int, rest: seq<Byte>)
    requires kind != I128 && kind != U128 && kind.Holds(n) && 0 <= n
    ensures DecU64(Fill(pad) + IntBytes(kind, n) + rest) == Parsed(n, rest)
  {
    hide TakeNum, Le, FromLe, Bound, Skip;
    IntBytesAre(kind, n);
    var body := Le(kind.ToBits(n), kind.Width());
    assert Fill(pad) + IntBytes(kind, n) + rest == Fill(pad) + ([kind.Tag()] + body + rest);
    SkipFill(pad, [kind.Tag()] + body + rest);
    TagOff(kind.Tag(), body, rest);
    BitsRoundTrip(kind, n);
    NumRoundTrip(kind.ToBits(n), kind.Width(), rest);
  }

  lemma {:induction false} LeafRead(f: Form, caps: seq<nat>, rest: seq<Byte>)
    requires Formed(f, caps)
    requires f.Nil? || f.Truth? || f.Float32? || f.Float64? || f.Letter? || f.Variant?
    ensures Dec(caps, FormBytes(f, caps) + rest) == Parsed(Meaning(f, caps), rest)
  {
    hide Skip, TakeNum, TakeRun, Le, FromLe, Bound, ValidUtf8, DecAll, DecU64;
    BoundValues();
    WordBound();
    match f
    case Nil => TagOff(0, [], rest); assert [0] + [] == [0];
    case Truth(b) =>
      var t := if b then 1 else 2;
      TagOff(t, [], rest);
      assert [t] + [] == [t];
    case Float32(bits) => NumberAt(13, bits, 4, rest);
    case Float64(bits) => NumberAt(14, bits, 8, rest);
    case Letter(c) => NumberAt(15, c, 4, rest);
    case Variant(idx) => NumberAt(30, idx, 4, rest);
  }

  lemma {:induction false} IdAccepted(f: Form, caps: seq<nat>, rest: seq<Byte>)
    requires Formed(f, caps) && f.Id?
    ensures Dec(caps, FormBytes(f, caps) + rest) == Parsed(Meaning(f, caps), rest)
  {
    var body := Fill(f.pad) + IntBytes(f.kind, f.n);
    assert FormBytes(f, caps) + rest == [31] + Le(2987132124, 4) + (body + rest);
    hide Dec, DecU64, Le, Bound, IntBytes, FormBytes;
    VariantAt(caps, 2987132124, body + rest);
    IdRead(f.pad, f.kind, f.n, rest);
  }

  /** A form is parsed to its meaning, whatever follows it. */
  lemma {:induction false} Accepted(f: Form, caps: seq<nat>, rest: seq<Byte>)
    requires Formed(f, caps)
    ensures Dec(caps, FormBytes(f, caps) + rest) == Parsed(Meaning(f, caps), rest)
    decreases f, 1
  {
    hide Dec, DecAll, DecU64, Le, ValidUtf8, FormsBytes, AllFormed, Meanings, Bound, Inserted, IntBytes, IntKind.Holds;
    match f
    case Filler(g) =>
      assert FormBytes(f, caps) + rest == [255] + (FormBytes(g, caps) + rest);
      FillerAt(caps, FormBytes(g, caps) + rest);
      Accepted(g, caps, rest);
    case Int(kind, n) =>
      IntBytesAre(kind, n);
      IntRoundTrip(caps, kind, n, rest);
    case Text(w, s) => RunAt(caps, w, s, rest);
    case Blob(w, s) => RunAt(caps, w, s, rest);
    case Wrap(g) =>
      assert FormBytes(f, caps) + rest == [24] + (FormBytes(g, caps) + rest);
      WrapAt(caps, 24, FormBytes(g, caps) + rest);
      Accepted(g, caps, rest);
    case Just(g) =>
      assert FormBytes(f, caps) + rest == [25] + (FormBytes(g, caps) + rest);
      WrapAt(caps, 25, FormBytes(g, caps) + rest);
      Accepted(g, caps, rest);
    case List(fs) =>
      var tail := FormsBytes(fs, caps) + [27] + rest;
      assert FormBytes(f, caps) + rest == [26] + tail;
      ListAt(caps, 26, tail);
      AllAccepted(fs, caps, false, rest);
    case Dict(fs) =>
      var tail := FormsBytes(fs, caps) + [29] + rest;
      assert FormBytes(f, caps) + rest == [28] + tail;
      ListAt(caps, 28, tail);
      AllAccepted(fs, caps, true, rest);
    case VariantOf(idx, g) =>
      assert FormBytes(f, caps) + rest == [31] + Le(idx, 4) + (FormBytes(g, caps) + rest);
      VariantAt(caps, idx, FormBytes(g, caps) + rest);
      Accepted(g, caps, rest);
    case Place(i) => PlaceRead(caps, i, rest);
    case Id(_, _, _) => IdAccepted(f, caps, rest);
    case _ => LeafRead(f, caps, rest);
  }

  lemma {:induction false} AllAccepted(fs: seq<Form>, caps: seq<nat>, pairs: bool, rest: seq<Byte>)
    requires AllFormed(fs, caps) && (pairs ==> |fs| % 2 == 0)
    ensures var end := if pairs then 29 else 27;
            DecAll(caps, FormsBytes(fs, caps) + [end] + rest, end, pairs) == Parsed(Meanings(fs, caps), rest)
    decreases fs, 0
  {
    hide Dec, FormBytes, Meaning, Formed;
    var end := if pairs then 29 else 27;
    var input := FormsBytes(fs, caps) + [end] + rest;
    if fs == [] {
      assert input == [end] + rest;
      assert input[1..] == rest;
    } else {
      var tail := FormsBytes(fs[1..], caps) + [end] + rest;
      assert input == FormBytes(fs[0], caps) + tail;
      FormBegins(fs[0], caps);
      Accepted(fs[0], caps, tail);
      if !pairs {
        AllAccepted(fs[1..], caps, pairs, rest);
      } else {
        var gs := fs[1..][1..];
        var tail2 := FormsBytes(gs, caps) + [end] + rest;
        assert tail == FormBytes(fs[1], caps) + tail2;
        Accepted(fs[1], caps, tail2);
        AllAccepted(gs, caps, pairs, rest);
        var v, w := Meaning(fs[0], caps), Meaning(fs[1], caps);
        assert [v] + ([w] + Meanings(gs, caps)) == [v, w] + Meanings(gs, caps);
      }
    }
  }

  // ---------------------------------------------------------------------------
  // Nothing else is
  // ---------------------------------------------------------------------------

  lemma {:induction false} LeBack(s: seq<Byte>)
    ensures FromLe(s) < Bound(|s|) && Le(FromLe(s), |s|) == s
  {
    if s != [] {
      LeBack(s[1..]);
      assert FromLe(s) % 256 == s[0] && FromLe(s) / 256 == FromLe(s[1..]);
    }
  }

  lemma {:induction false} NumTaken(input: seq<Byte>, w: nat)
    requires TakeNum(input, w).Parsed?
    ensures TakeNum(input, w).value < Bound(w)
    ensures input == Le(TakeNum(input, w).value, w) + TakeNum(input, w).rest
  {
    LeBack(input[..w]);
  }

  lemma {:induction false} RunTaken(input: seq<Byte>, w: nat)
    requires TakeRun(input, w).Parsed?
    ensures var s := TakeRun(input, w).value;
            |s| < Bound(w) && input == Le(|s|, w) + s + TakeRun(input, w).rest
  {
    hide Le, Bound, FromLe;
    NumTaken(input, w);
    var rest := TakeNum(input, w).rest;
    assert rest == TakeRun(input, w).value + TakeRun(input, w).rest;
  }

  lemma {:induction false} BitsBack(kind: IntKind, b: nat)
    requires b < Bound(kind.Width())
    ensures kind.Holds(kind.FromBits(b)) && kind.ToBits(kind.FromBits(b)) == b
  {
    EvenBound(kind.Width());
  }

  lemma {:induction false} TagBack(t: Byte)
    requires 3 <= t <= 12
    ensures KindOfTag(t).Tag() == t
  {
  }

  /** A number behind its tag, taken apart. */
  lemma {:induction false} IntTaken(input: seq<Byte>)
    requires input != [] && 3 <= input[0] <= 12 && TakeNum(input[1..], KindOfTag(input[0]).Width()).Parsed?
    ensures var kind := KindOfTag(input[0]);
            var p := TakeNum(input[1..], kind.Width());
            && kind.Holds(kind.FromBits(p.value)) && kind.Tag() == input[0]
            && input == IntBytes(kind, kind.FromBits(p.value)) + p.rest
  {
    hide TakeNum, Le, Bound, IntBytes, IntKind.Holds, IntKind.ToBits, IntKind.FromBits, IntKind.Width, IntKind.Tag;
    var kind := KindOfTag(input[0]);
    hide KindOfTag;
    var p := TakeNum(input[1..], kind.Width());
    NumTaken(input[1..], kind.Width());
    BitsBack(kind, p.value);
    IntBytesAre(kind, kind.FromBits(p.value));
    TagBack(input[0]);
    assert input == [input[0]] + (Le(p.value, kind.Width()) + p.rest);
  }

  lemma {:induction false} SkipTaken(input: seq<Byte>) returns (pad: nat)
    ensures input == Fill(pad) + Skip(input) && (Skip(input) != [] ==> Skip(input)[0] != 255)
  {
    if input != [] && input[0] == 255 {
      var m := SkipTaken(input[1..]);
      pad := m + 1;
      assert Fill(pad) == [255] + Fill(m);
      assert input == [255] + input[1..];
    } else {
      pad := 0;
    }
  }

  lemma {:induction false} IdTaken(input: seq<Byte>) returns (pad: nat, kind: IntKind)
    requires DecU64(input).Parsed?
    ensures var n := DecU64(input).value;
            && kind != I128 && kind != U128 && kind.Holds(n)
            && input == Fill(pad) + IntBytes(kind, n) + DecU64(input).rest
  {
    pad := SkipTaken(input);
    var s := Skip(input);
    hide TakeNum, Le, Bound, IntBytes, IntKind.Holds, IntKind.FromBits, IntKind.Width, Fill, Skip;
    kind := KindOfTag(s[0]);
    IntTaken(s);
  }

  /** What a tag can be, if a value is read. */
  lemma {:induction false} TagKnown(caps: seq<nat>, input: seq<Byte>)
    requires Dec(caps, input).Parsed? && input != [] && input[0] != 255
    ensures input[0] <= 32 && input[0] != 27 && input[0] != 29
  {
    hide TakeNum, TakeRun, Le, FromLe, Bound, ValidUtf8, DecAll, DecU64;
  }

  lemma {:induction false} NotEmpty(caps: seq<nat>, input: seq<Byte>)
    requires Dec(caps, input).Parsed?
    ensures input != []
  {
    hide TakeNum, TakeRun, Le, FromLe, Bound, ValidUtf8, DecAll, DecU64;
  }

  /** `f` is what was read off `input`. */
  ghost predicate Took(caps: seq<nat>, input: seq<Byte>, f: Form)
    requires Dec(caps, input).Parsed?
  {
    && Formed(f, caps) && input == FormBytes(f, caps) + Dec(caps, input).rest
    && Dec(caps, input).value == Meaning(f, caps)
  }

  lemma {:induction false} NumberRead(caps: seq<nat>, input: seq<Byte>) returns (f: Form)
    requires Dec(caps, input).Parsed? && input != [] && input[0] in {13, 14, 15, 30, 32}
    ensures Took(caps, input, f)
  {
    hide TakeNum, TakeRun, Le, FromLe, Bound, ValidUtf8, DecAll, DecU64;
    var w := if input[0] == 14 then 8 else if input[0] == 32 then 2 else 4;
    NumTaken(input[1..], w);
    BoundValues();
    WordBound();
    var n := TakeNum(input[1..], w).value;
    f := match input[0] case 13 => Float32(n) case 14 => Float64(n) case 15 => Letter(n) case 30 => Variant(n)
         case _ => Place(n);
    assert input == [input[0]] + Le(n, w) + TakeNum(input[1..], w).rest;
  }

  lemma {:induction false} RunRead(caps: seq<nat>, input: seq<Byte>) returns (f: Form)
    requires Dec(caps, input).Parsed? && input != [] && 16 <= input[0] < 24
    ensures Took(caps, input, f)
  {
    hide TakeNum, TakeRun, Le, FromLe, Bound, ValidUtf8, DecAll, DecU64;
    var w := input[0] % 4;
    assert Width(w) == RunWidth(w);
    RunTaken(input[1..], Width(w));
    var s := TakeRun(input[1..], Width(w)).value;
    f := if input[0] < 20 then Text(w, s) else Blob(w, s);
    assert input == [input[0]] + (Le(|s|, Width(w)) + s) + TakeRun(input[1..], Width(w)).rest;
  }

  lemma {:induction false} SimpleRead(caps: seq<nat>, input: seq<Byte>) returns (f: Form)
    requires Dec(caps, input).Parsed? && input != [] && input[0] <= 12
    ensures Took(caps, input, f)
  {
    hide TakeNum, TakeRun, Le, FromLe, Bound, ValidUtf8, DecAll, DecU64;
    if input[0] >= 3 {
      IntTaken(input);
      var kind := KindOfTag(input[0]);
      f := Int(kind, kind.FromBits(TakeNum(input[1..], kind.Width()).value));
      hide KindOfTag, IntBytes;
    } else {
      f := if input[0] == 0 then Nil else Truth(input[0] == 1);
      assert input == [input[0]] + input[1..];
    }
  }

  lemma {:induction false} VariantTaken(caps: seq<nat>, input: seq<Byte>) returns (idx: nat, body: seq<Byte>)
    requires Dec(caps, input).Parsed? && input != [] && input[0] == 31
    ensures IsIndex(idx) && input == [31] + Le(idx, 4) + body
  {
    hide TakeNum, TakeRun, Le, FromLe, Bound, ValidUtf8, DecAll, DecU64;
    NumTaken(input[1..], 4);
    BoundValues();
    idx, body := TakeNum(input[1..], 4).value, TakeNum(input[1..], 4).rest;
    assert input == [31] + Le(idx, 4) + body;
  }

  /** Whatever the parser reads is a form, with its meaning. */
  lemma {:induction false} OnlyForms(caps: seq<nat>, input: seq<Byte>) returns (f: Form)
    requires Dec(caps, input).Parsed?
    ensures Took(caps, input, f)
    decreases |input|, 1
  {
    hide Dec, DecAll, DecU64, Le, ValidUtf8, Bound, IntBytes;
    NotEmpty(caps, input);
    var tag, body := input[0], input[1..];
    assert input == [tag] + body;
    if tag == 255 {
      FillerAt(caps, body);
      var g := OnlyForms(caps, body);
      f := Filler(g);
    } else {
      TagKnown(caps, input);
      if tag <= 12 {
        f := SimpleRead(caps, input);
      } else if 16 <= tag < 24 {
        f := RunRead(caps, input);
      } else if tag == 24 || tag == 25 {
        WrapAt(caps, tag, body);
        var g := OnlyForms(caps, body);
        f := if tag == 24 then Wrap(g) else Just(g);
      } else if tag == 26 || tag == 28 {
        f := ListRead(caps, input);
      } else if tag == 31 {
        f := VariantRead(caps, input);
      } else {
        f := NumberRead(caps, input);
      }
    }
  }

  lemma {:induction false} ListRead(caps: seq<nat>, input: seq<Byte>) returns (f: Form)
    requires Dec(caps, input).Parsed? && input != [] && (input[0] == 26 || input[0] == 28)
    ensures Took(caps, input, f)
    decreases |input|, 0
  {
    hide Dec, DecAll, DecU64, AllFormed, FormsBytes, Meanings, Inserted;
    var tag, body := input[0], input[1..];
    assert input == [tag] + body;
    ListAt(caps, tag, body);
    var fs := OnlyLists(caps, body, tag == 28);
    f := if tag == 26 then List(fs) else Dict(fs);
  }

  lemma {:induction false} VariantRead(caps: seq<nat>, input: seq<Byte>) returns (f: Form)
    requires Dec(caps, input).Parsed? && input != [] && input[0] == 31
    ensures Took(caps, input, f)
    decreases |input|, 0
  {
    hide Dec, DecU64, Le, Bound, IntBytes, Took;
    var idx, body := VariantTaken(caps, input);
    VariantAt(caps, idx, body);
    if idx == 2987132124 {
      f := TookId(caps, input, body);
    } else {
      var g := OnlyForms(caps, body);
      TookVariant(caps, input, idx, body, g);
      f := VariantOf(idx, g);
    }
  }

  lemma {:induction false} TookVariant(caps: seq<nat>, input: seq<Byte>, idx: nat, body: seq<Byte>, g: Form)
    requires IsIndex(idx) && idx != 2987132124 && input == [31] + Le(idx, 4) + body
    requires Dec(caps, body).Parsed? && Took(caps, body, g)
    ensures Dec(caps, input).Parsed? && Took(caps, input, VariantOf(idx, g))
  {
    hide Dec, DecU64, Le, Bound;
    VariantAt(caps, idx, body);
    assert input == [31] + Le(idx, 4) + FormBytes(g, caps) + Dec(caps, body).rest;
  }

  lemma {:induction false} TookId(caps: seq<nat>, input: seq<Byte>, body: seq<Byte>) returns (f: Form)
    requires input == [31] + Le(2987132124, 4) + body && Dec(caps, input).Parsed?
    ensures Took(caps, input, f)
  {
    hide Dec, DecU64, Le, Bound, IntBytes, IntKind.Holds, Fill;
    VariantAt(caps, 2987132124, body);
    var pad, kind := IdTaken(body);
    var n, rest := DecU64(body).value, DecU64(body).rest;
    f := Id(pad, kind, n);
    assert input == [31] + Le(2987132124, 4) + (Fill(pad) + IntBytes(kind, n)) + rest;
  }

  lemma {:induction false} OnlyLists(caps: seq<nat>, input: seq<Byte>, pairs: bool) returns (fs: seq<Form>)
    requires DecAll(caps, input, if pairs then 29 else 27, pairs).Parsed?
    ensures var end := if pairs then 29 else 27;
            var p := DecAll(caps, input, end, pairs);
            && AllFormed(fs, caps) && (pairs ==> |fs| % 2 == 0)
            && input == FormsBytes(fs, caps) + [end] + p.rest && p.value == Meanings(fs, caps)
    decreases |input|, 2
  {
    hide Dec, Formed, FormBytes, Meaning;
    var end := if pairs then 29 else 27;
    if AtEnd(input, end).value {
      fs := [];
      assert input == [end] + input[1..];
    } else {
      var f := OnlyForms(caps, input);
      var rest := Dec(caps, input).rest;
      if !pairs {
        var gs := OnlyLists(caps, rest, pairs);
        fs := [f] + gs;
        OneMore(caps, f, gs);
      } else {
        var g := OnlyForms(caps, rest);
        var gs := OnlyLists(caps, Dec(caps, rest).rest, pairs);
        fs := [f] + ([g] + gs);
        TwoMore(caps, f, g, gs);
      }
      hide AllFormed, FormsBytes, Meanings;
    }
  }

  lemma {:induction false} OneMore(caps: seq<nat>, f: Form, gs: seq<Form>)
    requires Formed(f, caps) && AllFormed(gs, caps)
    ensures var fs := [f] + gs;
            && AllFormed(fs, caps) && FormsBytes(fs, caps) == FormBytes(f, caps) + FormsBytes(gs, caps)
            && Meanings(fs, caps) == [Meaning(f, caps)] + Meanings(gs, caps)
  {
    hide Formed, FormBytes, Meaning;
    assert ([f] + gs)[1..] == gs;
  }

  lemma {:induction false} TwoMore(caps: seq<nat>, f: Form, g: Form, gs: seq<Form>)
    requires Formed(f, caps) && Formed(g, caps) && AllFormed(gs, caps)
    ensures var fs := [f] + ([g] + gs);
            && AllFormed(fs, caps) && |fs| == |gs| + 2
            && FormsBytes(fs, caps) == FormBytes(f, caps) + (FormBytes(g, caps) + FormsBytes(gs, caps))
            && Meanings(fs, caps) == [Meaning(f, caps), Meaning(g, caps)] + Meanings(gs, caps)
  {
    hide Formed, FormBytes, Meaning;
    var fs := [f] + ([g] + gs);
    assert fs[1..] == [g] + gs && fs[1..][1..] == gs;
  }

  // ---------------------------------------------------------------------------
  // Whole messages
  // ---------------------------------------------------------------------------

  /** A count of eight bytes, as many ids of eight bytes as it says, as far as a word can hold their length, and a
      form. */
  ghost predicate IsMessage(data: seq<Byte>, n: nat, ids: seq<nat>, f: Form) {
    && n < 0x1_0000_0000_0000_0000 && |ids| == n % 0x2000_0000_0000_0000
    && (forall i :: 0 <= i < |ids| ==> ids[i] < 0x1_0000_0000_0000_0000)
    && Formed(f, ids) && data == Le(n, 8) + (Words(ids) + FormBytes(f, ids))
  }

  lemma {:induction false} EightTimes(n: nat)
    ensures 8 * n % WORD == 8 * (n % 0x2000_0000_0000_0000)
  {
    var q, r := n / 0x2000_0000_0000_0000, n % 0x2000_0000_0000_0000;
    assert 8 * n == q * WORD + 8 * r;
    BitUtils.DivUnique(8 * n, WORD, q);
  }

  lemma {:induction false} MessageAccepted(data: seq<Byte>, n: nat, ids: seq<nat>, f: Form)
    requires IsMessage(data, n, ids, f)
    ensures FromBytes(data) == Ok(Meaning(f, ids))
  {
    hide Dec, Le, FromLe, Bound, Formed, FormBytes, Meaning, Words, Ids;
    WordBound();
    var form := FormBytes(f, ids);
    NumRoundTrip(n, 8, Words(ids) + form);
    EightTimes(n);
    WordsRoundTrip(ids);
    var rest := Words(ids) + form;
    assert rest[..8 * |ids|] == Words(ids) && rest[8 * |ids|..] == form;
    assert form + [] == form;
    Accepted(f, ids, []);
  }

  lemma {:induction false} WordsBack(s: seq<Byte>)
    requires |s| % 8 == 0
    ensures |Ids(s)| == |s| / 8 && Words(Ids(s)) == s
    ensures forall i :: 0 <= i < |Ids(s)| ==> Ids(s)[i] < 0x1_0000_0000_0000_0000
    decreases |s|
  {
    if s != [] {
      hide Le, Bound, FromLe;
      LeBack(s[..8]);
      WordBound();
      WordsBack(s[8..]);
      assert s == s[..8] + s[8..];
    }
  }

  lemma {:induction false} OnlyMessages(data: seq<Byte>) returns (n: nat, ids: seq<nat>, f: Form)
    requires FromBytes(data).Ok?
    ensures IsMessage(data, n, ids, f) && FromBytes(data) == Ok(Meaning(f, ids))
  {
    hide Dec, Le, FromLe, Bound, Formed, FormBytes, Meaning, Words, Ids;
    var p := TakeNum(data, 8);
    NumTaken(data, 8);
    WordBound();
    n := p.value;
    EightTimes(n);
    var t := Take(p.rest, 8 * n % WORD);
    WordsBack(t.value);
    ids := Ids(t.value);
    f := OnlyForms(ids, t.rest);
    assert FormBytes(f, ids) + [] == FormBytes(f, ids);
  }

  /** `from_bytes` gives a value exactly for the messages of the format, and gives their meaning. */
  lemma {:induction false} ParsesIff(data: seq<Byte>, v: Value)
    ensures FromBytes(data) == Ok(v) <==> exists n, ids, f :: IsMessage(data, n, ids, f) && Meaning(f, ids) == v
  {
    hide FromBytes, Meaning, FormBytes, Formed, Words, Le;
    if FromBytes(data).Ok? {
      var n, ids, f := OnlyMessages(data);
    }
    forall n, ids, f | IsMessage(data, n, ids, f) ensures FromBytes(data) == Ok(Meaning(f, ids)) {
      MessageAccepted(data, n, ids, f);
    }
  }

  /** A message without capabilities: eight zero bytes and a form. */
  lemma {:induction false} BareParses(f: Form)
    requires Formed(f, [])
    ensures FromBytes([0, 0, 0, 0, 0, 0, 0, 0] + FormBytes(f, [])) == Ok(Meaning(f, []))
  {
    hide FromBytes, Le, FromLe, Formed, FormBytes, Meaning;
    var zeros: seq<Byte> := [0, 0, 0, 0, 0, 0, 0, 0];
    ZerosAre(zeros);
    LeBack(zeros);
    assert Words([]) + FormBytes(f, []) == FormBytes(f, []);
    MessageAccepted(zeros + FormBytes(f, []), 0, [], f);
  }

  lemma {:induction false} ZerosAre(s: seq<Byte>)
    requires forall i :: 0 <= i < |s| ==> s[i] == 0
    ensures FromLe(s) == 0
  {
    if s != [] { ZerosAre(s[1..]); }
  }

  /** The shortest messages: null, true and false. */
  lemma {:induction false} ShortestParse()
    ensures FromBytes([0, 0, 0, 0, 0, 0, 0, 0, 0]) == Ok(Null)
    ensures FromBytes([0, 0, 0, 0, 0, 0, 0, 0, 1]) == Ok(Bool(true))
    ensures FromBytes([0, 0, 0, 0, 0, 0, 0, 0, 2]) == Ok(Bool(false))
  {
    hide FromBytes;
    var zeros: seq<Byte> := [0, 0, 0, 0, 0, 0, 0, 0];
    BareParses(Nil);
    BareParses(Truth(true));
    BareParses(Truth(false));
    assert zeros + [0] == [0, 0, 0, 0, 0, 0, 0, 0, 0];
    assert zeros + [1] == [0, 0, 0, 0, 0, 0, 0, 0, 1];
    assert zeros + [2] == [0, 0, 0, 0, 0, 0, 0, 0, 2];
  }
}
