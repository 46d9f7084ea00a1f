/** Machine-integer arithmetic as C++ on a 64-bit target performs it:
    two's-complement wrap-around, truncating division, and bit-level
    operations on unsigned values. */
module Arith {

  const TWO31: int := 0x8000_0000
  const TWO32: int := 0x1_0000_0000
  const TWO63: int := 0x8000_0000_0000_0000
  const TWO64: int := 0x1_0000_0000_0000_0000

  /** A C++ `long`: a signed 64-bit integer. */
  type i64 = x: int | -0x8000_0000_0000_0000 <= x < 0x8000_0000_0000_0000

  /** A C++ `int`: a signed 32-bit integer. */
  predicate IsInt32(x: int) {
    -TWO31 <= x < TWO31
  }

  function Pow2(n: nat): (r: nat)
    ensures r >= 1
  {
    if n == 0 then 1 else 2 * Pow2(n - 1)
  }

  lemma {:induction false} Pow2Add(a: nat, b: nat)
    ensures Pow2(a + b) == Pow2(a) * Pow2(b)
    decreases a
  {
    if a > 0 {
      Pow2Add(a - 1, b);
    }
  }

  lemma {:induction false} Pow2Monotone(a: nat, b: nat)
    requires a <= b
    ensures Pow2(a) <= Pow2(b)
    decreases b
  {
    if a < b {
      Pow2Monotone(a, b - 1);
    }
  }

  lemma Pow2Byte()
    ensures Pow2(8) == 256 && Pow2(16) == 0x1_0000 && Pow2(24) == 0x100_0000
  {
    assert Pow2(1) == 2;
    Pow2Add(1, 1);
    Pow2Add(2, 2);
    Pow2Add(4, 4);
    Pow2Add(8, 8);
    Pow2Add(16, 8);
  }

  lemma Pow2Word()
    ensures Pow2(31) == TWO31 && Pow2(32) == TWO32
  {
    Pow2Byte();
    Pow2Add(16, 15);
    Pow2Add(16, 16);
  }

  lemma Pow2Top()
    ensures Pow2(63) == TWO63 && Pow2(64) == TWO64
  {
    Pow2Word();
    Pow2Add(32, 31);
    Pow2Add(32, 32);
  }

  /** `(unsigned long) x`: the 64-bit pattern of `x` read as unsigned. */
  function U64(x: int): (r: nat)
    ensures r < TWO64
    ensures (x - r) % TWO64 == 0
  {
    x % TWO64
  }

  /** `(long) u`: an unsigned 64-bit pattern read as two's complement. */
  function Signed64(u: nat): (r: i64)
    requires u < TWO64
    ensures U64(r) == u
    ensures (r < 0) == (u >= TWO63)
  {
    if u >= TWO63 then u - TWO64 else u
  }

  /** Wrap-around of an unbounded result into a `long`. */
  function Wrap64(x: int): (r: i64)
    ensures (x - r) % TWO64 == 0
  {
    Signed64(U64(x))
  }

  /** Wrap-around of an unbounded result into an `int`, as the
      `long`-to-`int` conversions of the simulator behave. */
  function Wrap32(x: int): (r: int)
    ensures IsInt32(r)
    ensures (x - r) % TWO32 == 0
  {
    var u := x % TWO32;
    if u >= TWO31 then u - TWO32 else u
  }

  /** Reading a `long` as unsigned and back is the identity. */
  lemma SignedU64(x: i64)
    ensures Signed64(U64(x)) == x
  {
  }

  /** Wrap-around leaves values already in range alone. */
  lemma Wrap32Id(x: int)
    requires IsInt32(x)
    ensures Wrap32(x) == x
  {
  }

  function Abs(x: int): nat {
    if x < 0 then -x else x
  }

  /** C++ `/` on integers: the quotient truncated toward zero. */
  function CDiv(a: int, b: int): (q: int)
    requires b != 0
    ensures b > 0 && a >= 0 ==> q == a / b
    ensures b > 0 && a < 0 ==> q == -((-a) / b)
  {
    if (a >= 0) == (b > 0) then Abs(a) / Abs(b) else -(Abs(a) / Abs(b))
  }

  /** C++ `%` by a positive divisor: the remainder takes the sign of the
      dividend. */
  function CMod(a: int, b: int): (r: int)
    requires b > 0
    ensures -b < r < b
    ensures a >= 0 ==> 0 <= r
    ensures a <= 0 ==> r <= 0
  {
    if a >= 0 then a % b else -((-a) % b)
  }

  /** `(int) log2(n)` for a positive integer: the floor of the base-2
      logarithm. */
  function Log2(n: nat): (r: nat)
    requires n >= 1
    ensures Pow2(r) <= n < Pow2(r + 1)
  {
    if n == 1 then 0 else 1 + Log2(n / 2)
  }

  /** Bit `k` of a non-negative integer. */
  function TestBit(x: nat, k: nat): bool {
    if k == 0 then x % 2 == 1 else TestBit(x / 2, k - 1)
  }

  lemma {:induction false} TestBitZero(k: nat)
    ensures !TestBit(0, k)
  {
    if k > 0 {
      TestBitZero(k - 1);
    }
  }

  /** Bits at or above `n` of a value below `2^n` are clear. */
  lemma {:induction false} TestBitHigh(x: nat, n: nat, k: nat)
    requires x < Pow2(n) && n <= k
    ensures !TestBit(x, k)
    decreases k
  {
    if n == 0 {
      TestBitZero(k);
    } else {
      TestBitHigh(x / 2, n - 1, k - 1);
    }
  }

  datatype BitOp = AndOp | OrOp | XorOp

  function ApplyBit(op: BitOp, a: bool, b: bool): bool {
    match op
    case AndOp => a && b
    case OrOp => a || b
    case XorOp => a != b
  }

  /** `op` applied bit by bit to the low `n` bits of `a` and `b`, as the
      C++ operators `&`, `|` and `^` do for `n == 64`. */
  function Bitwise(op: BitOp, a: nat, b: nat, n: nat): (r: nat)
    ensures r < Pow2(n)
    ensures forall k: nat {:trigger TestBit(r, k)} ::
      TestBit(r, k) == (k < n && ApplyBit(op, TestBit(a, k), TestBit(b, k)))
    decreases n
  {
    if n == 0 then
      TestBitZeroAll();
      0
    else
      var rest := Bitwise(op, a / 2, b / 2, n - 1);
      var low := if ApplyBit(op, a % 2 == 1, b % 2 == 1) then 1 else 0;
      2 * rest + low
  }

  lemma TestBitZeroAll()
    ensures forall k: nat {:trigger TestBit(0, k)} :: !TestBit(0, k)
  {
    forall k: nat {
      TestBitZero(k);
    }
  }

  /** Two numbers below `2^n` with the same bits are equal. */
  lemma {:induction false} BitsEqual(x: nat, y: nat, n: nat)
    requires x < Pow2(n) && y < Pow2(n)
    requires forall k: nat :: k < n ==> TestBit(x, k) == TestBit(y, k)
    ensures x == y
    decreases n
  {
    if n > 0 {
      assert TestBit(x, 0) == TestBit(y, 0);
      forall k: nat | k < n - 1
        ensures TestBit(x / 2, k) == TestBit(y / 2, k)
      {
        assert TestBit(x, k + 1) == TestBit(y, k + 1);
      }
      BitsEqual(x / 2, y / 2, n - 1);
    }
  }

  /** `v >> c` on a signed value: the arithmetic shift, which rounds toward
      negative infinity. */
  function ArithShiftRight(v: int, c: nat): (r: int)
    ensures r * Pow2(c) <= v < r * Pow2(c) + Pow2(c)
    decreases c
  {
    if c == 0 then v
    else
      var r := ArithShiftRight(v / 2, c - 1);
      assert r * Pow2(c) == 2 * (r * Pow2(c - 1));
      r
  }

  /** Multiplying by a factor of at least one does not shrink a
      non-negative value. */
  lemma MulGe(d: int, k: int)
    requires d >= 0 && k >= 1
    ensures d * k >= d
  {
    assert d * k == d * (k - 1) + d;
  }

  lemma MulLe(d: int, k: int)
    requires d >= 0 && k <= -1
    ensures d * k <= -d
  {
    MulGe(d, -k);
    assert d * k == -(d * (-k));
  }

  /** Division by a base of at least two splits and shrinks a number. */
  lemma DivSplit(n: nat, d: nat)
    requires d >= 2
    ensures n == (n / d) * d + n % d
    ensures n >= d ==> 1 <= n / d < n
  {
  }

  /** Euclidean division has a unique quotient and remainder. */
  lemma DivModUnique(v: int, d: int, q: int, r: int)
    requires d > 0 && v == d * q + r && 0 <= r < d
    ensures v / d == q && v % d == r
  {
    var q0 := v / d;
    var r0 := v % d;
    assert d * q0 + r0 == d * q + r;
    assert d * (q0 - q) == r - r0 by {
      assert d * (q0 - q) == d * q0 - d * q;
    }
    if q0 - q >= 1 {
      MulGe(d, q0 - q);
    } else if q0 - q <= -1 {
      MulLe(d, q0 - q);
    }
  }

  /** Reducing modulo `2^64` and then modulo a divisor of `2^64` is reducing
      modulo that divisor. */
  lemma ModOfMod(x: int, p: int, k: int)
    requires p >= 1 && k >= 1 && p * k == TWO64
    ensures (x - (x % TWO64) % p) % p == 0
  {
    var Q := x / TWO64;
    var u := x % TWO64;
    var U := u / p;
    var w := u % p;
    assert x == TWO64 * Q + u;
    assert u == p * U + w;
    assert TWO64 * Q == p * (k * Q) by {
      assert TWO64 * Q == (p * k) * Q;
    }
    assert x - w == p * (k * Q + U);
    DivModUnique(x - w, p, k * Q + U, 0);
  }

  /** Two integers congruent modulo `p` inside one window of width `p` are
      equal. */
  lemma SameResidueInWindow(a: int, b: int, p: int, lo: int)
    requires p >= 1 && lo <= a < lo + p && lo <= b < lo + p
    requires (a - b) % p == 0
    ensures a == b
  {
    var d := a - b;
    assert d == p * (d / p);
    if d / p >= 1 {
      MulGe(p, d / p);
    } else if d / p <= -1 {
      MulLe(p, d / p);
    }
  }

  /** The negation of a multiple of `p` is a multiple of `p`. */
  lemma NegatedMultiple(x: int, p: int)
    requires p >= 1 && x % p == 0
    ensures (-x) % p == 0
  {
    var q := x / p;
    assert x == p * q;
    assert -x == p * (-q);
    DivModUnique(-x, p, -q, 0);
  }

  /** Congruence modulo `p` is transitive. */
  lemma CongruentTrans(a: int, b: int, c: int, p: int)
    requires p >= 1 && (a - b) % p == 0 && (c - b) % p == 0
    ensures (a - c) % p == 0
  {
    var qa := (a - b) / p;
    var qc := (c - b) / p;
    assert a - c == p * qa - p * qc;
    assert p * qa - p * qc == p * (qa - qc);
    DivModUnique(a - c, p, qa - qc, 0);
  }

  /** Reading a non-negative value below `2^64` as unsigned leaves it alone. */
  lemma U64Id(x: int)
    requires 0 <= x < TWO64
    ensures U64(x) == x && x % TWO64 == x
  {
    DivModUnique(x, TWO64, 0, x);
  }

  /** A negative `long` read as unsigned is offset by `2^64`. */
  lemma U64Negative(x: int)
    requires -TWO63 <= x < 0
    ensures U64(x) == x + TWO64
  {
    DivModUnique(x, TWO64, -1, x + TWO64);
  }

  /** A `long` offset by at most one `2^64` wraps back to itself. */
  lemma Wrap64Offset(x: int, y: int, k: int)
    requires -TWO63 <= y < TWO63 && -1 <= k <= 1 && x == y + TWO64 * k
    ensures Wrap64(x) == y
  {
    if y >= 0 {
      DivModUnique(x, TWO64, k, y);
    } else {
      DivModUnique(x, TWO64, k - 1, y + TWO64);
    }
  }
}
