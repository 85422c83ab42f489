/** What a byte string has to be to be a string: the bytes of Unicode scalar values, one after the other, in the
    encoding of section 3 of RFC 3629. */
module Utf8 {
  import opened AserBytes

  function Encoded(c: nat): (r: seq<Byte>)
    requires c < 0x11_0000
  {
    if c < 0x80 then [c]
    else if c < 0x800 then [0xc0 + c / 64, 0x80 + c % 64]
    else if c < 0x1_0000 then [0xe0 + c / 4096, 0x80 + c / 64 % 64, 0x80 + c % 64]
    else [0xf0 + c / 262144, 0x80 + c / 4096 % 64, 0x80 + c / 64 % 64, 0x80 + c % 64]
  }

  /** The Unicode scalar values: all code points but the surrogates. */
  predicate Scalar(c: nat) { c < 0xd800 || 0xdfff < c < 0x11_0000 }

  predicate Scalars(cs: seq<nat>) { forall i :: 0 <= i < |cs| ==> Scalar(cs[i]) }

  function EncodedAll(cs: seq<nat>): seq<Byte>
    requires Scalars(cs)
  {
    if cs == [] then [] else Encoded(cs[0]) + EncodedAll(cs[1..])
  }

  lemma {:induction false} Digits2(c: nat)
    requires 0x80 <= c < 0x800
    ensures 2 <= c / 64 <= 31 && c == c / 64 * 64 + c % 64
  {
  }

  lemma {:induction false} Digits3(c: nat)
    requires 0x800 <= c < 0x1_0000
    ensures c / 4096 <= 15 && c / 64 % 64 <= 63 && c == c / 4096 * 4096 + c / 64 % 64 * 64 + c % 64
    ensures c / 4096 == 0 ==> c / 64 % 64 >= 32
    ensures c / 4096 == 13 && !(0xd800 <= c <= 0xdfff) ==> c / 64 % 64 <= 31
  {
    assert c / 64 / 64 == c / 4096;
  }

  lemma {:induction false} Digits4(c: nat)
    requires 0x1_0000 <= c < 0x11_0000
    ensures c / 262144 <= 4 && c == c / 262144 * 262144 + c / 4096 % 64 * 4096 + c / 64 % 64 * 64 + c % 64
    ensures c / 262144 == 0 ==> c / 4096 % 64 >= 16
    ensures c / 262144 == 4 ==> c / 4096 % 64 <= 15
  {
    assert c / 64 / 64 == c / 4096 && c / 4096 / 64 == c / 262144;
  }

  /** A scalar value's bytes are accepted, and what follows them is looked at next. */
  lemma {:induction false} ScalarAccepted(c: nat, t: seq<Byte>)
    requires Scalar(c)
    ensures ValidUtf8(Encoded(c) + t) <==> ValidUtf8(t)
  {
    var s := Encoded(c) + t;
    assert s[|Encoded(c)|..] == t;
    if 0x80 <= c < 0x800 { Digits2(c); }
    if 0x800 <= c < 0x1_0000 { Digits3(c); }
    if 0x1_0000 <= c { Digits4(c); }
  }

  function Joined(a: nat, b: nat, c: nat, d: nat): nat { a * 262144 + b * 4096 + c * 64 + d }

  lemma {:induction false} JoinedDigits(a: nat, b: nat, c: nat, d: nat)
    requires b < 64 && c < 64 && d < 64
    ensures var n := Joined(a, b, c, d);
            n % 64 == d && n / 64 % 64 == c && n / 4096 % 64 == b && n / 262144 == a
  {
    var n := Joined(a, b, c, d);
    assert n / 64 == a * 4096 + b * 64 + c;
    assert n / 64 / 64 == a * 64 + b && n / 64 / 64 == n / 4096;
    assert n / 4096 / 64 == a && n / 4096 / 64 == n / 262144;
  }

  /** An accepted string begins with the bytes of a scalar value. */
  lemma {:induction false} AcceptedScalar(s: seq<Byte>) returns (c: nat)
    requires ValidUtf8(s) && s != []
    ensures Scalar(c) && 0 < |Encoded(c)| <= |s| && s[..|Encoded(c)|] == Encoded(c) && ValidUtf8(s[|Encoded(c)|..])
  {
    if s[0] < 0x80 {
      c := s[0];
    } else if s[0] <= 0xdf {
      c := Accepted2(s[0], s[1]);
    } else if s[0] <= 0xef {
      c := Accepted3(s[0], s[1], s[2]);
    } else {
      c := Accepted4(s[0], s[1], s[2], s[3]);
    }
    hide Encoded;
    assert s[..1] == [s[0]];
  }

  lemma {:induction false} Accepted2(a: Byte, b: Byte) returns (c: nat)
    requires 0xc2 <= a <= 0xdf && Continuation(b)
    ensures Scalar(c) && Encoded(c) == [a, b]
  {
    c := Joined(0, 0, a - 0xc0, b - 0x80);
    JoinedDigits(0, 0, a - 0xc0, b - 0x80);
  }

  lemma {:induction false} Accepted3(a: Byte, b: Byte, d: Byte) returns (c: nat)
    requires 0xe0 <= a <= 0xef && Continuation(b) && Continuation(d)
    requires (a == 0xe0 ==> b >= 0xa0) && (a == 0xed ==> b <= 0x9f)
    ensures Scalar(c) && Encoded(c) == [a, b, d]
  {
    c := Joined(0, a - 0xe0, b - 0x80, d - 0x80);
    JoinedDigits(0, a - 0xe0, b - 0x80, d - 0x80);
  }

  lemma {:induction false} Accepted4(a: Byte, b: Byte, d: Byte, e: Byte) returns (c: nat)
    requires 0xf0 <= a <= 0xf4 && Continuation(b) && Continuation(d) && Continuation(e)
    requires (a == 0xf0 ==> b >= 0x90) && (a == 0xf4 ==> b <= 0x8f)
    ensures Scalar(c) && Encoded(c) == [a, b, d, e]
  {
    c := Joined(a - 0xf0, b - 0x80, d - 0x80, e - 0x80);
    JoinedDigits(a - 0xf0, b - 0x80, d - 0x80, e - 0x80);
  }

  lemma {:induction false} EncodedAccepted(cs: seq<nat>)
    requires Scalars(cs)
    ensures ValidUtf8(EncodedAll(cs))
  {
    if cs != [] {
      EncodedAccepted(cs[1..]);
      ScalarAccepted(cs[0], EncodedAll(cs[1..]));
    }
  }

  lemma {:induction false} AcceptedEncoded(s: seq<Byte>) returns (cs: seq<nat>)
    requires ValidUtf8(s)
    ensures Scalars(cs) && EncodedAll(cs) == s
    decreases |s|
  {
    if s == [] {
      cs := [];
    } else {
      var c := AcceptedScalar(s);
      var n := |Encoded(c)|;
      var rest := AcceptedEncoded(s[n..]);
      cs := [c] + rest;
      assert cs[1..] == rest && s == Encoded(c) + s[n..];
    }
  }

  /** The accepted strings are exactly the encodings of sequences of scalar values. */
  lemma {:induction false} AcceptedIff(s: seq<Byte>)
    ensures ValidUtf8(s) <==> exists cs :: Scalars(cs) && EncodedAll(cs) == s
  {
    if ValidUtf8(s) {
      var cs := AcceptedEncoded(s);
    }
    forall cs | Scalars(cs) && EncodedAll(cs) == s ensures ValidUtf8(s) { EncodedAccepted(cs); }
  }

  /** The numbers accepted as a `char` are those whose own encoding is accepted. */
  lemma {:induction false} CharIff(c: nat)
    ensures IsScalar(c) <==> c < 0x11_0000 && ValidUtf8(Encoded(c))
  {
    if c < 0x11_0000 {
      assert Encoded(c) + [] == Encoded(c);
      if Scalar(c) { ScalarAccepted(c, []); } else { Digits3(c); }
    }
  }
}
