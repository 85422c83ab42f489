/** Bytes, little-endian numbers, UTF-8 validity and the one-byte type tags of the aser format. */
module AserBytes {
  import BitUtils

  type Byte = b: nat | b < 256

  datatype Result<+T> = Ok(value: T) | Err

  /** 256 to the power `k`: the numbers that fit in `k` bytes are below it. */
  function Bound(k: nat): (r: nat)
    ensures r >= 1
  {
    if k == 0 then 1 else 256 * Bound(k - 1)
  }

  function Le(n: nat, k: nat): (s: seq<Byte>)
    ensures |s| == k
    decreases k
  {
    if k == 0 then [] else [n % 256] + Le(n / 256, k - 1)
  }

  function FromLe(s: seq<Byte>): nat {
    if s == [] then 0 else s[0] + 256 * FromLe(s[1..])
  }

  lemma {:induction false} LeRoundTrip(n: nat, k: nat)
    requires n < Bound(k)
    ensures FromLe(Le(n, k)) == n
    decreases k
  {
    if k > 0 {
      LeRoundTrip(n / 256, k - 1);
      assert Le(n, k)[1..] == Le(n / 256, k - 1);
    }
  }

  /** Writing too few bytes drops the high part of the number. */
  lemma {:induction false} LeWraps(n: nat, k: nat)
    ensures FromLe(Le(n, k)) == n % Bound(k)
    decreases k
  {
    if k > 0 {
      LeWraps(n / 256, k - 1);
      assert Le(n, k)[1..] == Le(n / 256, k - 1);
      DigitMod(n, Bound(k - 1));
    }
  }

  lemma {:induction false} DigitMod(n: nat, b: nat)
    requires b > 0
    ensures n % (256 * b) == n % 256 + 256 * (n / 256 % b)
  {
    var q, r := n / 256 / b, n % 256 + 256 * (n / 256 % b);
    assert n / 256 == q * b + n / 256 % b;
    assert n == q * (256 * b) + r;
    ModUnique(n, 256 * b, q, r);
  }

  lemma {:induction false} ModUnique(x: nat, d: nat, q: nat, r: nat)
    requires 0 <= r < d && x == q * d + r
    ensures x % d == r
  {
    assert (q + 1) * d == q * d + d;
    BitUtils.DivUnique(x, d, q);
  }

  lemma {:induction false} SliceOfSlice(s: seq<Byte>, a: nat, b: nat, c: nat, d: nat)
    requires c <= d && a + d <= b <= |s|
    ensures s[a..b][c..d] == s[a + c..a + d]
  {
    var x := s[a..b];
    assert forall i :: 0 <= i < d - c ==> x[c..d][i] == x[c + i] == s[a + (c + i)];
  }

  /** How many numbers a `usize` holds. */
  const WORD: nat := 0x1_0000_0000_0000_0000

  lemma {:induction false} WordBound()
    ensures Bound(8) == WORD
  {
    assert Bound(2) == 0x1_0000;
    assert Bound(8) == 256 * Bound(7) && Bound(7) == 256 * Bound(6) && Bound(6) == 256 * Bound(5);
    assert Bound(5) == 256 * Bound(4) && Bound(4) == 256 * Bound(3) && Bound(3) == 256 * Bound(2);
  }

  // Tags
  const T_NULL: Byte := 0
  const T_TRUE: Byte := 1
  const T_FALSE: Byte := 2
  const T_F32: Byte := 13
  const T_F64: Byte := 14
  const T_CHAR: Byte := 15
  const T_STRING8: Byte := 16
  const T_BYTES8: Byte := 20
  const T_NEWTYPE: Byte := 24
  const T_SOME: Byte := 25
  const T_SEQ_START: Byte := 26
  const T_SEQ_END: Byte := 27
  const T_MAP_START: Byte := 28
  const T_MAP_END: Byte := 29
  const T_VARIANT: Byte := 30
  const T_VARIANT_VALUE: Byte := 31
  const T_CAPABILITY: Byte := 32
  const T_FILLER: Byte := 255

  /** The bytes that name a data type. */
  predicate IsTag(b: Byte) { b <= 32 || b == T_FILLER }

  datatype IntKind = I8 | I16 | I32 | I64 | I128 | U8 | U16 | U32 | U64 | U128 {
    function Tag(): Byte {
      match this
      case I8 => 3 case I16 => 4 case I32 => 5 case I64 => 6 case I128 => 7
      case U8 => 8 case U16 => 9 case U32 => 10 case U64 => 11 case U128 => 12
    }
    function Width(): nat {
      match this
      case I8 => 1 case I16 => 2 case I32 => 4 case I64 => 8 case I128 => 16
      case U8 => 1 case U16 => 2 case U32 => 4 case U64 => 8 case U128 => 16
    }
    predicate Signed() { I8? || I16? || I32? || I64? || I128? }
    /** The integers of this kind. */
    predicate Holds(n: int) {
      if Signed() then -(Bound(Width()) / 2) <= n < Bound(Width()) / 2 else 0 <= n < Bound(Width())
    }
    /** The bit pattern of an integer: two's complement for the signed kinds. */
    function ToBits(n: int): (r: nat)
      requires Holds(n)
    {
      if n < 0 then n + Bound(Width()) else n
    }
    function FromBits(b: nat): int {
      if Signed() && b >= Bound(Width()) / 2 then b - Bound(Width()) else b
    }
  }

  function KindOfTag(b: Byte): IntKind
    requires 3 <= b <= 12
  {
    if b == 3 then I8 else if b == 4 then I16 else if b == 5 then I32 else if b == 6 then I64
    else if b == 7 then I128 else if b == 8 then U8 else if b == 9 then U16 else if b == 10 then U32
    else if b == 11 then U64 else U128
  }

  lemma BitsRoundTrip(kind: IntKind, n: int)
    requires kind.Holds(n)
    ensures kind.ToBits(n) < Bound(kind.Width())
    ensures kind.FromBits(kind.ToBits(n)) == n
    ensures KindOfTag(kind.Tag()) == kind
  {
    EvenBound(kind.Width());
  }

  lemma {:induction false} EvenBound(k: nat)
    ensures k > 0 ==> Bound(k) % 2 == 0
  {
  }

  /** A Unicode scalar value. */
  predicate IsScalar(c: nat) { c < 0xd800 || 0xe000 <= c < 0x11_0000 }

  predicate Continuation(b: Byte) { 0x80 <= b <= 0xbf }

  /** Well-formed UTF-8, as table 3-7 of the Unicode standard lists the byte sequences. */
  predicate ValidUtf8(s: seq<Byte>) {
    s == [] ||
    (if s[0] < 0x80 then ValidUtf8(s[1..])
     else if 0xc2 <= s[0] <= 0xdf then |s| >= 2 && Continuation(s[1]) && ValidUtf8(s[2..])
     else if 0xe0 <= s[0] <= 0xef then
       && |s| >= 3 && Continuation(s[1]) && Continuation(s[2])
       && (s[0] == 0xe0 ==> s[1] >= 0xa0) && (s[0] == 0xed ==> s[1] <= 0x9f) && ValidUtf8(s[3..])
     else
       && 0xf0 <= s[0] <= 0xf4 && |s| >= 4 && Continuation(s[1]) && Continuation(s[2]) && Continuation(s[3])
       && (s[0] == 0xf0 ==> s[1] >= 0x90) && (s[0] == 0xf4 ==> s[1] <= 0x8f) && ValidUtf8(s[4..]))
  }

  /** A length-prefixed run of bytes: tag `t8 + 0..3` by the size of the length, then the length. */
  function Sized(t8: Byte, s: seq<Byte>): seq<Byte>
    requires t8 <= 252
  {
    var n := |s|;
    if n < 0x100 then [t8] + Le(n, 1) + s
    else if n < 0x1_0000 then [t8 + 1] + Le(n, 2) + s
    else if n < 0x1_0000_0000 then [t8 + 2] + Le(n, 4) + s
    else [t8 + 3] + Le(n, 8) + s
  }
}
