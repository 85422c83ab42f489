/** Arithmetic readings of the bit helpers in `bit_utils`: every mask and shift the
    kernel applies to a machine word is written here with powers of two, division and
    remainder. */
module BitUtils {

  const PAGE_SIZE: nat := 4096

  function Pow2(n: nat): (r: nat)
    ensures r >= 1
  {
    if n == 0 then 1 else 2 * Pow2(n - 1)
  }

  /** Position of the highest set bit (`bsr`), and 0 for 0. */
  function Log2(n: nat): (r: nat)
  {
    if n < 2 then 0 else 1 + Log2(n / 2)
  }

  /** The logarithm brackets its argument between two powers. */
  lemma {:induction false} Log2Spec(n: nat)
    requires n >= 1
    ensures Pow2(Log2(n)) <= n < 2 * Pow2(Log2(n))
  {
    if n >= 2 { Log2Spec(n / 2); }
  }

  function AlignDown(addr: nat, align: nat): (r: nat)
    requires align > 0
  {
    addr / align * align
  }

  function AlignUp(addr: nat, align: nat): (r: nat)
    requires align > 0
  {
    (addr + align - 1) / align * align
  }

  /** The lowest set bit (`bsf`) as a value; the source returns the top bit for 0. */
  function AlignOf(addr: nat): (r: nat)
    ensures r >= 1
  {
    if addr == 0 then Pow2(63) else if addr % 2 == 1 then 1 else 2 * AlignOf(addr / 2)
  }

  /** The source's rounded-up logarithm, including its answer 1 for the argument 1. */
  function Log2Up(n: nat): (r: nat)
  {
    if n == 1 then 1 else Log2(AlignUp(n, Pow2(Log2(n))))
  }

  lemma {:induction false} Pow2Sum(a: nat, b: nat)
    ensures Pow2(a + b) == Pow2(a) * Pow2(b)
  {
    if a > 0 {
      Pow2Sum(a - 1, b);
      assert Pow2(a + b) == 2 * Pow2(a - 1 + b);
      assert 2 * (Pow2(a - 1) * Pow2(b)) == (2 * Pow2(a - 1)) * Pow2(b);
    }
  }

  lemma {:induction false} Pow2Byte(k: nat)
    ensures Pow2(k + 8) == 256 * Pow2(k)
  {
    assert Pow2(k + 2) == 4 * Pow2(k);
    assert Pow2(k + 4) == 4 * Pow2(k + 2);
    assert Pow2(k + 6) == 4 * Pow2(k + 4);
    assert Pow2(k + 8) == 4 * Pow2(k + 6);
  }

  lemma {:induction false} WordSize()
    ensures Pow2(64) == 0x1_0000_0000_0000_0000
  {
    Pow2Byte(0); Pow2Byte(8); Pow2Byte(16); Pow2Byte(24);
    Pow2Byte(32); Pow2Byte(40); Pow2Byte(48); Pow2Byte(56);
  }

  lemma {:induction false} Pow2Mono(a: nat, b: nat)
    requires a <= b
    ensures Pow2(a) <= Pow2(b)
    ensures a < b ==> 2 * Pow2(a) <= Pow2(b)
  {
    if a < b { Pow2Mono(a, b - 1); }
  }

  /** The logarithm is the only exponent whose power brackets `n`. */
  lemma {:induction false} Log2Unique(n: nat, k: nat)
    requires Pow2(k) <= n < 2 * Pow2(k)
    ensures Log2(n) == k
  {
    var l := Log2(n);
    Log2Spec(n);
    if l < k { Pow2Mono(l, k); } else if k < l { Pow2Mono(k, l); }
  }

  /** A positive number equal to its lowest set bit is the power of two of its logarithm. */
  lemma {:induction false} PowerOfTwo(n: nat)
    requires n > 0 && AlignOf(n) == n
    ensures n == Pow2(Log2(n))
  {
    if n > 1 { PowerOfTwo(n / 2); }
  }

  /** The number of trailing zero bits. */
  function TrailingZeros(n: nat): nat
    requires n > 0
  {
    if n % 2 == 1 then 0 else 1 + TrailingZeros(n / 2)
  }

  /** The alignment of a positive number is a power of two that divides it. */
  lemma {:induction false} AlignOfSpec(n: nat)
    requires n > 0
    ensures AlignOf(n) == Pow2(TrailingZeros(n))
    ensures n % AlignOf(n) == 0 && AlignOf(n) <= n
  {
    if n % 2 == 0 {
      AlignOfSpec(n / 2);
      var a, q := AlignOf(n / 2), n / 2 / AlignOf(n / 2);
      assert n / 2 == q * a;
      assert n == q * (2 * a);
      ModOfMultiple(q, 2 * a);
    }
  }

  lemma {:induction false} FactorDivides(n: nat, c: nat, d: nat)
    requires c > 0 && d > 0 && n % (c * d) == 0
    ensures n % d == 0
  {
    var m := c * d;
    var q := n / m;
    assert n == q * m;
    assert q * m == (q * c) * d;
    ModOfMultiple(q * c, d);
  }

  lemma {:induction false} DividesSmaller(n: nat, a: nat, b: nat)
    requires a <= b && n % Pow2(b) == 0
    ensures n % Pow2(a) == 0
  {
    assert Pow2(b) == Pow2(b - a) * Pow2(a) by { Pow2Sum(b - a, a); }
    FactorDivides(n, Pow2(b - a), Pow2(a));
  }

  /** A start address whose alignment is at least a power of two `2^k` (the kernel's addresses are
      below 2^63 from zero, so 0 counts as aligned to everything) is a multiple of it. */
  lemma {:induction false} AlignedTo(n: nat, k: nat)
    requires k <= 63 && AlignOf(n) >= Pow2(k)
    ensures n % Pow2(k) == 0
  {
    if n > 0 {
      var z := TrailingZeros(n);
      assert AlignOf(n) == Pow2(z) && n % Pow2(z) == 0 by { AlignOfSpec(n); }
      assert k <= z by { if z < k { Pow2Mono(z, k); } }
      DividesSmaller(n, k, z);
    } else {
      assert 0 % Pow2(k) == 0;
    }
  }

  lemma {:induction false} MulMono(a: nat, b: nat, c: nat)
    requires a <= b
    ensures a * c <= b * c
  {
  }

  lemma {:induction false} DivUnique(x: nat, d: nat, q: nat)
    requires d > 0
    requires q * d <= x < (q + 1) * d
    ensures x / d == q
  {
    var p := x / d;
    assert p * d <= x < (p + 1) * d;
    if p < q { MulMono(p + 1, q, d); } else if q < p { MulMono(q + 1, p, d); }
  }

  /** `x / d * d` is the multiple of `d` in the window of `d` values ending at `x`. */
  lemma {:induction false} AlignDownSpec(x: nat, d: nat)
    requires d > 0
    ensures AlignDown(x, d) <= x < AlignDown(x, d) + d
    ensures AlignDown(x, d) % d == 0
  {
    ModOfMultiple(x / d, d);
  }

  lemma {:induction false} ModOfMultiple(q: nat, d: nat)
    requires d > 0
    ensures (q * d) % d == 0
    ensures (q * d) / d == q
  {
    DivUnique(q * d, d, q);
  }

  lemma {:induction false} AlignUpSpec(x: nat, d: nat)
    requires d > 0
    ensures x <= AlignUp(x, d) < x + d
    ensures AlignUp(x, d) % d == 0
  {
    AlignDownSpec(x + d - 1, d);
  }

  /** Two multiples of `d` closer than `d` are equal. */
  lemma {:induction false} MultiplesApart(x: nat, y: nat, d: nat)
    requires d > 0 && x % d == 0 && y % d == 0
    requires x < y
    ensures x + d <= y
  {
    var a, b := x / d, y / d;
    assert x == a * d && y == b * d;
    if b <= a { MulMono(b, a, d); }
    MulMono(a + 1, b, d);
  }

  lemma {:induction false} Assoc(a: nat, b: nat, c: nat)
    ensures a * (b * c) == (a * b) * c == b * (a * c)
  {
  }

  lemma {:induction false} Distribute(a: nat, b: nat, c: nat)
    ensures a * (b + c) == a * b + a * c
  {
  }

  lemma {:induction false} ScaleLe(u: nat, a: nat, b: nat)
    requires a <= b
    ensures u * a <= u * b
  {
  }

  lemma {:induction false} ScaleDisjoint(u: nat, a: int, v: nat, b: int, w: nat)
    requires a + v <= b || b + w <= a
    ensures u * a + u * v <= u * b || u * b + u * w <= u * a
  {
    assert a + v <= b ==> u * (a + v) <= u * b;
    assert b + w <= a ==> u * (b + w) <= u * a;
  }

  lemma {:induction false} AlignedSum(start: nat, w: nat, p: nat, k: nat)
    requires w > 0 && p > 0 && start % (w * p) == 0
    ensures (start + w * k) % w == 0
  {
    var q := start / (w * p);
    assert start == (q * p) * w;
    assert start + w * k == (q * p + k) * w;
    ModOfMultiple(q * p + k, w);
  }

  lemma {:induction false} DivLower(m: nat, d: nat, q: nat)
    requires d > 0 && q * d <= m
    ensures m / d >= q
  {
    if m / d < q { MulMono(m / d + 1, q, d); }
  }

  lemma {:induction false} CancelLe(p: nat, a: nat, b: nat)
    requires p > 0 && p * a <= p * b
    ensures a <= b
  {
    if b < a { MulMono(b + 1, a, p); }
  }

  /** A multiple of a power of two is aligned to at least that power. */
  lemma {:induction false} AlignAtLeast(n: nat, k: nat)
    requires n > 0 && n % Pow2(k) == 0
    ensures AlignOf(n) >= Pow2(k)
  {
    if k > 0 {
      var q := n / Pow2(k);
      assert n == q * Pow2(k) == 2 * (q * Pow2(k - 1));
      assert n / 2 == q * Pow2(k - 1);
      ModOfMultiple(q, Pow2(k - 1));
      AlignAtLeast(n / 2, k - 1);
    }
  }
}
