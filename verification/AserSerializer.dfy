/** The serializer and the capability counter as the stateful traversals they are. */
module AserSerializer {
  import opened AserBytes
  import opened Aser
  import opened AserWire

  /** `Panics` is an underflow of the 16-bit place, where arithmetic is checked. */
  datatype Outcome = Done | TooManyCapabilities | ExpectedCapability | Panics

  const LAST_PLACE: nat := 0xffff

  /** Where arithmetic is checked, the capability after the last place that fits in 16 bits panics, even before
      the room of the table is looked at. */
  predicate PanicsWhenFull(room: nat, checked: bool) { checked && LAST_PLACE <= room }

  /** How many capabilities can be written. */
  function Capacity(room: nat, checked: bool): nat { if PanicsWhenFull(room, checked) then LAST_PLACE else room }

  /** What happens when they are all written and another one comes. */
  function WhenFull(room: nat, checked: bool): Outcome {
    if PanicsWhenFull(room, checked) then Panics else TooManyCapabilities
  }

  /** `set_usize`: overwrites word `index` of a buffer. */
  function SetWord(buf: seq<Byte>, index: nat, n: nat): (r: seq<Byte>)
    requires 8 * index + 8 <= |buf|
    ensures |r| == |buf|
  {
    buf[..8 * index] + Le(n, 8) + buf[8 * index + 8..]
  }

  function GetWord(buf: seq<Byte>, index: nat): nat
    requires 8 * index + 8 <= |buf|
  {
    FromLe(buf[8 * index..8 * index + 8])
  }

  lemma {:induction false} WordsAppend(ids: seq<nat>, id: nat)
    ensures Words(ids + [id]) == Words(ids) + Le(id, 8)
  {
    hide Le;
    if ids == [] {
      assert ids + [id] == [id];
      assert Words([]) == [];
    } else {
      WordsAppend(ids[1..], id);
      assert (ids + [id])[1..] == ids[1..] + [id];
    }
  }

  lemma {:induction false} HeaderLength(ids: seq<nat>, n: nat)
    requires |ids| <= n
    ensures |Header(ids, n)| == 8 * n + 8
  {
  }

  /** Storing an id in the next free place and counting it is the header with one more id. */
  lemma {:induction false} HeaderPush(ids: seq<nat>, n: nat, id: nat, body: seq<Byte>)
    requires |ids| < n && |ids| < Bound(8)
    ensures |Header(ids, n)| == 8 * n + 8
    ensures var buf := SetWord(Header(ids, n) + body, |ids| + 1, id);
            && GetWord(buf, 0) == |ids|
            && SetWord(buf, 0, |ids| + 1) == Header(ids + [id], n) + body
  {
    hide Le, FromLe, Bound, SetWord, GetWord, Words, Fill, Header;
    var k := |ids|;
    var rest := Fill(8 * (n - k - 1)) + body;
    var tail := Words(ids) + Le(id, 8) + rest;
    HeaderLength(ids, n);
    HeaderBefore(ids, n, body);
    HeaderAfter(ids, n, id, body);
    SetInMiddle(Le(k, 8) + Words(ids), Fill(8), rest, k + 1, id);
    SeqAssoc(Le(k, 8), Words(ids), Le(id, 8));
    SeqAssoc(Le(k, 8), Words(ids) + Le(id, 8), rest);
    var buf := SetWord(Header(ids, n) + body, k + 1, id);
    assert buf == Le(k, 8) + tail;
    SetFirst(Le(k, 8), tail, k + 1);
    LeRoundTrip(k, 8);
  }

  lemma {:induction false} HeaderBefore(ids: seq<nat>, n: nat, body: seq<Byte>)
    requires |ids| < n
    ensures Header(ids, n) + body == Le(|ids|, 8) + Words(ids) + Fill(8) + (Fill(8 * (n - |ids| - 1)) + body)
  {
    hide Le, Words;
    assert Fill(8 * (n - |ids|)) == Fill(8) + Fill(8 * (n - |ids| - 1));
  }

  lemma {:induction false} HeaderAfter(ids: seq<nat>, n: nat, id: nat, body: seq<Byte>)
    requires |ids| < n
    ensures Header(ids + [id], n) + body ==
            Le(|ids| + 1, 8) + (Words(ids) + Le(id, 8) + (Fill(8 * (n - |ids| - 1)) + body))
  {
    WordsAppend(ids, id);
    hide Le, Words, Fill;
    assert |ids + [id]| == |ids| + 1 && n - |ids + [id]| == n - |ids| - 1;
  }

  lemma {:induction false} SetFirst(was: seq<Byte>, tail: seq<Byte>, n: nat)
    requires |was| == 8
    ensures SetWord(was + tail, 0, n) == Le(n, 8) + tail && GetWord(was + tail, 0) == FromLe(was)
  {
    hide Le, FromLe;
    assert (was + tail)[0..8] == was && (was + tail)[8..] == tail;
  }

  /** Overwriting the word between two parts. */
  lemma {:induction false} SetInMiddle(a: seq<Byte>, was: seq<Byte>, b: seq<Byte>, index: nat, n: nat)
    requires |a| == 8 * index && |was| == 8
    ensures SetWord(a + was + b, index, n) == a + Le(n, 8) + b
  {
    hide Le;
    var buf := a + was + b;
    assert buf[..8 * index] == a && buf[8 * index + 8..] == b;
  }

  /** The place of a capability: its index, counted from one, cast to 16 bits and less one. */
  function Place(index: nat): nat { (index % 0x1_0000 + LAST_PLACE) % 0x1_0000 }

  lemma {:induction false} PlaceSpec(index: nat)
    requires index > 0
    ensures Place(index) == (index - 1) % 0x1_0000
  {
    var q, m := index / 0x1_0000, index % 0x1_0000;
    assert index == 0x1_0000 * q + m;
    if m == 0 { assert index - 1 == 0x1_0000 * (q - 1) + LAST_PLACE; }
  }

  /** Two bytes hold a number up to its higher bits, as the cast to `u16` does. */
  lemma {:induction false} LeWrap(k: nat)
    ensures Le(k % 0x1_0000, 2) == Le(k, 2)
  {
    var m := k % 0x1_0000;
    assert m % 256 == k % 256 && m / 256 % 256 == k / 256 % 256;
    assert Le(k, 2) == [k % 256] + Le(k / 256, 1) && Le(k / 256, 1) == [k / 256 % 256] + Le(k / 256 / 256, 0);
    assert Le(m, 2) == [m % 256] + Le(m / 256, 1) && Le(m / 256, 1) == [m / 256 % 256] + Le(m / 256 / 256, 0);
  }

  class Serializer {
    /** The place where the next capability goes, counted in words from the start of the buffer. */
    var capabilityIndex: nat
    const dataOffset: nat
    const checked: bool
    var buf: seq<Byte>
    ghost const room: nat
    ghost var pushed: seq<nat>
    ghost var body: seq<Byte>

    ghost predicate Valid()
      reads this
    {
      && 8 * room + 8 < Bound(8) && |pushed| <= room
      && capabilityIndex == |pushed| + 1 && dataOffset == 8 * room + 8
      && buf == Header(pushed, room) + body && (checked ==> |pushed| <= LAST_PLACE)
    }

    constructor (n: nat, checked: bool)
      requires 8 * n + 8 < Bound(8)
      ensures Valid() && room == n && pushed == [] && body == [] && this.checked == checked
    {
      var b := Le(0, 8);
      for i := 0 to 8 * n
        invariant b == Le(0, 8) + Fill(i)
      {
        b := b + [T_FILLER];
      }
      capabilityIndex, dataOffset, buf := 1, |b|, b;
      room, pushed, body, this.checked := n, [], [], checked;
      new;
      assert Words([]) == [];
      assert buf == Header([], n) + [];
    }

    method Push(s: seq<Byte>)
      requires Valid()
      modifies this`buf, this`body
      ensures Valid() && body == old(body) + s
    {
      hide Header;
      buf := buf + s;
      body := body + s;
      assert buf == Header(pushed, room) + body;
    }

    method PushCapability(id: nat) returns (r: Outcome)
      requires Valid() && (checked ==> |pushed| < LAST_PLACE)
      modifies this`buf, this`capabilityIndex, this`pushed
      ensures r == if |old(pushed)| < room then Done else TooManyCapabilities
      ensures Valid() && pushed == if r == Done then old(pushed) + [id] else old(pushed)
    {
      hide Header, SetWord, GetWord;
      if capabilityIndex * 8 >= dataOffset {
        return TooManyCapabilities;
      }
      HeaderPush(pushed, room, id, body);
      buf := SetWord(buf, capabilityIndex, id);
      var count := GetWord(buf, 0);
      buf := SetWord(buf, 0, count + 1);
      capabilityIndex := capabilityIndex + 1;
      pushed := pushed + [id];
      return Done;
    }

    /** `collect_str`: a 64-bit length is written as 0 first and patched once the text is out. */
    method CollectStr(s: seq<Byte>)
      requires Valid()
      modifies this`buf, this`body
      ensures Valid() && body == old(body) + ([T_STRING8 + 3] + Le(|s|, 8) + s)
    {
      hide Header, Le;
      var sizeIndex := |buf| + 1;
      var b := buf + [T_STRING8 + 3] + Le(0, 8);
      var startWrite := |b|;
      b := b + s;
      var size := |b| - startWrite;
      b := b[..sizeIndex] + Le(size, 8) + b[startWrite..];
      assert b == buf + ([T_STRING8 + 3] + Le(|s|, 8) + s);
      body := body + ([T_STRING8 + 3] + Le(|s|, 8) + s);
      buf := b;
      assert buf == Header(pushed, room) + body;
    }

    method SerializeCap(d: Data) returns (r: Outcome)
      requires Valid() && Wf(d) && IsCap(d)
      modifies this
      ensures r == Done <==> HoldsId(d) && |old(pushed)| < Capacity(room, checked)
      ensures r == Panics <==> checked && |old(pushed)| == LAST_PLACE
      ensures r == ExpectedCapability ==> !HoldsId(d)
      ensures r == Panics || r == TooManyCapabilities ==> r == WhenFull(room, checked)
      ensures r == Done ==> Valid() && pushed == old(pushed) + Caps(d) && body == old(body) + Enc(d, |old(pushed)|)
    {
      hide Header, Le, ValidUtf8, Bound, Place;
      Push([T_CAPABILITY]);
      if checked && capabilityIndex % 0x1_0000 == 0 {
        return Panics;
      }
      PlaceSpec(capabilityIndex);
      Push(Le(Place(capabilityIndex), 2));
      LeWrap(|old(pushed)|);
      if !HoldsId(d) {
        return ExpectedCapability;
      }
      assert Encodable(d);
      r := PushCapability(CapId(d));
      assert body == old(body) + ([T_CAPABILITY] + Le(|old(pushed)|, 2));
    }

    /** A tag and a little-endian number. */
    method PushNumber(tag: Byte, n: nat, width: nat)
      requires Valid()
      modifies this`buf, this`body
      ensures Valid() && body == old(body) + ([tag] + Le(n, width))
    {
      hide Header, Le;
      Push([tag]);
      Push(Le(n, width));
    }

    /** `push_correct_size_type`: the length in the fewest of 1, 2, 4 or 8 bytes, then the bytes. */
    method PushSized(t8: Byte, s: seq<Byte>)
      requires Valid() && t8 <= 252
      modifies this`buf, this`body
      ensures Valid() && body == old(body) + Sized(t8, s)
    {
      hide Header, Le, Bound, Sized, Valid;
      ghost var before := body;
      ghost var head := SizedHead(t8, s);
      if |s| <= 0xff {
        PushNumber(t8, |s|, 1);
      } else if |s| <= 0xffff {
        PushNumber(t8 + 1, |s|, 2);
      } else if |s| <= 0xffff_ffff {
        PushNumber(t8 + 2, |s|, 4);
      } else {
        PushNumber(t8 + 3, |s|, 8);
      }
      Push(s);
      SeqAssoc(before, head, s);
    }

    method SerializeLeaf(d: Data)
      requires Valid() && Wf(d)
      requires !d.DSome? && !d.DNewtype? && !d.DNewtypeVariant? && !d.DSeq? && !d.DMap? && !d.DTupleVariant?
      requires !d.DStructVariant?
      modifies this`buf, this`body
      ensures Valid() && Encodable(d) && Caps(d) == [] && body == old(body) + Enc(d, |pushed|)
    {
      hide Header, Le, ValidUtf8, Bound, Sized;
      match d
      case DUnit => Push([T_NULL]);
      case DBool(b) => Push([if b then T_TRUE else T_FALSE]);
      case DInt(kind, n) => PushNumber(kind.Tag(), kind.ToBits(n), kind.Width());
      case DF32(bits) => PushNumber(T_F32, bits, 4);
      case DF64(bits) => PushNumber(T_F64, bits, 8);
      case DChar(c) => PushNumber(T_CHAR, c, 4);
      case DStr(t) => PushSized(T_STRING8, t);
      case DText(t) => CollectStr(t);
      case DBytes(t) => PushSized(T_BYTES8, t);
      case DUnitVariant(idx) => PushNumber(T_VARIANT, idx, 4);
    }

    /** A prefix and one more value. */
    method SerializeAfter(prefix: seq<Byte>, e: Data) returns (r: Outcome)
      requires Valid() && Wf(e)
      modifies this
      ensures r == Done <==> Encodable(e) && |old(pushed)| + |Caps(e)| <= Capacity(room, checked)
      ensures r == ExpectedCapability ==> !Encodable(e)
      ensures r == Panics || r == TooManyCapabilities ==> r == WhenFull(room, checked)
      ensures r == Done ==>
                Valid() && pushed == old(pushed) + Caps(e) && body == old(body) + (prefix + Enc(e, |old(pushed)|))
      decreases e, 2
    {
      hide Header, Wf, Encodable, Caps, Enc;
      Push(prefix);
      r := Serialize(e);
      if r == Done {
        SeqAssoc(old(body), prefix, Enc(e, |old(pushed)|));
      }
    }

    /** Serializing succeeds exactly when every capability newtype holds an id, the table has room and the
        places fit; then the data bytes and the table have grown by those of `d`. */
    method Serialize(d: Data) returns (r: Outcome)
      requires Valid() && Wf(d)
      modifies this
      ensures r == Done <==> Encodable(d) && |old(pushed)| + |Caps(d)| <= Capacity(room, checked)
      ensures r == ExpectedCapability ==> !Encodable(d)
      ensures r == Panics || r == TooManyCapabilities ==> r == WhenFull(room, checked)
      ensures r == Done ==>
                Valid() && pushed == old(pushed) + Caps(d) && body == old(body) + Enc(d, |old(pushed)|)
      decreases d, 1
    {
      hide Header, Le, ValidUtf8, Bound, Sized;
      match d
      case DSome(e) => r := SerializeAfter([T_SOME], e);
      case DNewtype(e) => r := SerializeAfter([T_NEWTYPE], e);
      case DNewtypeVariant(idx, e) =>
        if IsCap(d) {
          r := SerializeCap(d);
        } else {
          r := SerializeAfter([T_VARIANT_VALUE] + Le(idx, 4), e);
        }
      case DSeq(es) => r := SerializeList(es, [T_SEQ_START], [T_SEQ_END]);
      case DMap(es) => r := SerializeList(es, [T_MAP_START], [T_MAP_END]);
      case DTupleVariant(idx, es) => r := SerializeVariantList(d, idx, es);
      case DStructVariant(idx, es) => r := SerializeVariantList(d, idx, es);
      case _ => SerializeLeaf(d); r := Done;
    }

    method SerializeVariantList(d: Data, idx: nat, es: seq<Data>) returns (r: Outcome)
      requires Valid() && Wf(d) && (d == DTupleVariant(idx, es) || d == DStructVariant(idx, es))
      modifies this
      ensures r == Done <==> Encodable(d) && |old(pushed)| + |Caps(d)| <= Capacity(room, checked)
      ensures r == ExpectedCapability ==> !Encodable(d)
      ensures r == Panics || r == TooManyCapabilities ==> r == WhenFull(room, checked)
      ensures r == Done ==>
                Valid() && pushed == old(pushed) + Caps(d) && body == old(body) + Enc(d, |old(pushed)|)
      decreases es, 3
    {
      hide Header, Le, ValidUtf8, EncAll, CapsAll, WfAll, EncodableAll;
      var start, end := if d.DTupleVariant? then T_SEQ_START else T_MAP_START,
                        if d.DTupleVariant? then T_SEQ_END else T_MAP_END;
      Push([T_VARIANT_VALUE]);
      Push(Le(idx, 4));
      r := SerializeList(es, [start], [end]);
      if r == Done {
        SeqAssoc(old(body), [T_VARIANT_VALUE], Le(idx, 4));
        SeqAssoc(old(body), [T_VARIANT_VALUE] + Le(idx, 4), [start] + EncAll(es, |old(pushed)|) + [end]);
      }
    }

    method SerializeList(es: seq<Data>, start: seq<Byte>, end: seq<Byte>) returns (r: Outcome)
      requires Valid() && WfAll(es)
      modifies this
      ensures r == Done <==> EncodableAll(es) && |old(pushed)| + |CapsAll(es)| <= Capacity(room, checked)
      ensures r == ExpectedCapability ==> !EncodableAll(es)
      ensures r == Panics || r == TooManyCapabilities ==> r == WhenFull(room, checked)
      ensures r == Done ==>
                && Valid() && pushed == old(pushed) + CapsAll(es)
                && body == old(body) + (start + EncAll(es, |old(pushed)|) + end)
      decreases es, 2
    {
      hide Header, EncAll, CapsAll, WfAll, EncodableAll;
      Push(start);
      r := SerializeAll(es);
      if r == Done {
        Push(end);
        SeqAssoc(old(body), start, EncAll(es, |old(pushed)|));
        SeqAssoc(old(body), start + EncAll(es, |old(pushed)|), end);
      }
    }

    method SerializeAll(es: seq<Data>) returns (r: Outcome)
      requires Valid() && WfAll(es)
      modifies this
      ensures r == Done <==> EncodableAll(es) && |old(pushed)| + |CapsAll(es)| <= Capacity(room, checked)
      ensures r == ExpectedCapability ==> !EncodableAll(es)
      ensures r == Panics || r == TooManyCapabilities ==> r == WhenFull(room, checked)
      ensures r == Done ==>
                Valid() && pushed == old(pushed) + CapsAll(es) && body == old(body) + EncAll(es, |old(pushed)|)
      decreases es, 0
    {
      hide Header, Wf, Encodable, Caps, Enc;
      r := Done;
      if es != [] {
        r := Serialize(es[0]);
        if r == Done {
          r := SerializeAll(es[1..]);
        }
      }
    }
  }

  lemma {:induction false} SizedHead(t8: Byte, s: seq<Byte>) returns (head: seq<Byte>)
    requires t8 <= 252
    ensures Sized(t8, s) == head + s
    ensures |s| <= 0xff ==> head == [t8] + Le(|s|, 1)
    ensures 0xff < |s| <= 0xffff ==> head == [t8 + 1] + Le(|s|, 2)
    ensures 0xffff < |s| <= 0xffff_ffff ==> head == [t8 + 2] + Le(|s|, 4)
    ensures 0xffff_ffff < |s| ==> head == [t8 + 3] + Le(|s|, 8)
  {
    hide Le;
    var n := |s|;
    head := if n <= 0xff then [t8] + Le(n, 1) else if n <= 0xffff then [t8 + 1] + Le(n, 2)
            else if n <= 0xffff_ffff then [t8 + 2] + Le(n, 4) else [t8 + 3] + Le(n, 8);
  }

  lemma {:induction false} SeqAssoc(a: seq<Byte>, b: seq<Byte>, c: seq<Byte>)
    ensures a + b + c == a + (b + c)
  {
  }

  /** `to_bytes`, built with or without checks for overflow. */
  method PrintMessage(d: Data, n: nat, checked: bool) returns (r: Outcome, bytes: seq<Byte>)
    requires Wf(d) && 8 * n + 8 < Bound(8)
    ensures r == Done <==> Encodable(d) && |Caps(d)| <= Capacity(n, checked)
    ensures r == Done ==> bytes == ToBytes(d, n) && WireMessage(d, n, bytes)
    ensures r == ExpectedCapability ==> !Encodable(d)
    ensures r == Panics || r == TooManyCapabilities ==> r == WhenFull(n, checked)
  {
    hide Wf, Encodable, Caps, Enc, Header, WireMessage;
    var serializer := new Serializer(n, checked);
    r := serializer.Serialize(d);
    bytes := serializer.buf;
    if r == Done {
      assert serializer.pushed == Caps(d) && serializer.body == Enc(d, 0);
      MessageWire(d, n);
    }
  }

  class CapabilityCounter {
    var count: nat

    constructor ()
      ensures count == 0
    {
      count := 0;
    }

    /** Counts exactly the capabilities the serializer would push, and fails on exactly the same
        malformed capability newtypes. */
    method Serialize(d: Data) returns (r: Outcome)
      requires Wf(d)
      modifies this
      ensures r == if Encodable(d) then Done else ExpectedCapability
      ensures r == Done ==> count == old(count) + |Caps(d)|
      decreases d, 1
    {
      hide ValidUtf8, Bound;
      r := Done;
      match d
      case DSome(e) => r := Serialize(e);
      case DNewtype(e) => r := Serialize(e);
      case DNewtypeVariant(idx, e) =>
        if IsCap(d) {
          if HoldsId(d) {
            count := count + 1;
          } else {
            r := ExpectedCapability;
          }
        } else {
          r := Serialize(e);
        }
      case DSeq(es) => r := SerializeAll(es);
      case DMap(es) => r := SerializeAll(es);
      case DTupleVariant(_, es) => r := SerializeAll(es);
      case DStructVariant(_, es) => r := SerializeAll(es);
      case _ =>
    }

    method SerializeAll(es: seq<Data>) returns (r: Outcome)
      requires WfAll(es)
      modifies this
      ensures r == if EncodableAll(es) then Done else ExpectedCapability
      ensures r == Done ==> count == old(count) + |CapsAll(es)|
      decreases es, 0
    {
      hide Wf, Encodable, Caps;
      r := Done;
      if es != [] {
        r := Serialize(es[0]);
        if r == Done {
          r := SerializeAll(es[1..]);
        }
      }
    }
  }

  /** `to_bytes_count_cap`: the counter's result is exactly the room needed, so the table never runs
      out; with 65536 capabilities or more it panics where arithmetic is checked. */
  method PrintCounted(d: Data, checked: bool) returns (r: Outcome, bytes: seq<Byte>)
    requires Wf(d) && (Encodable(d) ==> 8 * |Caps(d)| + 8 < Bound(8))
    ensures r == if !Encodable(d) then ExpectedCapability
                 else if checked && |Caps(d)| > LAST_PLACE then Panics
                 else Done
    ensures r == Done ==> bytes == ToBytes(d, |Caps(d)|) && WireMessage(d, |Caps(d)|, bytes)
  {
    hide Wf, Encodable, Caps, ToBytes, WireMessage;
    var counter := new CapabilityCounter();
    r := counter.Serialize(d);
    bytes := [];
    if r == Done {
      r, bytes := PrintMessage(d, counter.count, checked);
    }
  }
}
