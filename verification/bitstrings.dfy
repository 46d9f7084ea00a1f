/** Strings of binary digits, most significant bit first, as the assembler
    builds its machine words: `bitset<w>(v).to_string()` for each field,
    and `binToHex` for the word's hexadecimal form. */
module BitStrings {
  import opened Arith
  import opened Parse

  predicate IsBinary(s: string) {
    forall k :: 0 <= k < |s| ==> s[k] == '0' || s[k] == '1'
  }

  /** Halving and reducing modulo `p`, then putting the low bit back, is
      reducing modulo `2p`; `/` and `%` round toward negative infinity. */
  lemma LowBitSplit(v: int, p: nat)
    requires p >= 1
    ensures (v / 2) % p * 2 + v % 2 == v % (2 * p)
  {
    var q, b := v / 2, v % 2;
    var t, s := q / p, q % p;
    assert v == 2 * q + b;
    assert q == p * t + s;
    assert v == (2 * p) * t + (2 * s + b);
    DivModUnique(v, 2 * p, t, 2 * s + b);
  }

  /** `bitset<w>(v).to_string()`: the low `w` bits of `v` in two's
      complement, most significant first. (`v` in the measure keeps the
      field from being unfolded for a literal width alone.) */
  function Bits(v: int, w: nat): (r: string)
    ensures |r| == w
    decreases w, v
  {
    if w == 0 then "" else Bits(v / 2, w - 1) + [if v % 2 == 0 then '0' else '1']
  }

  /** A field holds binary digits only, and reads back as the value modulo
      `2^w`. */
  lemma {:induction false} BitsValue(v: int, w: nat)
    ensures IsBinary(Bits(v, w))
    ensures Value(Bits(v, w), 2) == v % Pow2(w)
    decreases w
  {
    if w > 0 {
      var p := Pow2(w - 1);
      var hi := Bits(v / 2, w - 1);
      var c := if v % 2 == 0 then '0' else '1';
      assert Bits(v, w) == hi + [c];
      BitsValue(v / 2, w - 1);
      assert IsBinary(hi + [c]);
      ValueAppend(hi, c, 2);
      assert DigitValue(c) == v % 2;
      LowBitSplit(v, p);
      assert Pow2(w) == 2 * p;
    }
  }

  /** Dividing by `a` and then by `b` is dividing by `a * b`, for `/`
      rounding toward negative infinity. */
  lemma DivNest(v: int, a: int, b: int)
    requires a > 0 && b > 0
    ensures (v / a) / b == v / (a * b)
  {
    var q1, r1 := v / a, v % a;
    var q2, r2 := q1 / b, q1 % b;
    assert v == a * (b * q2 + r2) + r1;
    assert a * (b * q2 + r2) == (a * b) * q2 + a * r2;
    assert a * r2 <= a * (b - 1) by { MulGe(a, b - r2); assert a * (b - r2) == a * b - a * r2; }
    assert a * (b - 1) == a * b - a;
    DivModUnique(v, a * b, q2, a * r2 + r1);
  }

  /** Reducing modulo a multiple `a * k` and then modulo `a` is reducing
      modulo `a`. */
  lemma ModNest(x: int, a: int, k: int)
    requires a > 0 && k > 0
    ensures (x % (a * k)) % a == x % a
  {
    var Q, r := x / (a * k), x % (a * k);
    var U, s := r / a, r % a;
    assert x == (a * k) * Q + r;
    assert r == a * U + s;
    assert (a * k) * Q == a * (k * Q);
    assert x == a * (k * Q + U) + s;
    DivModUnique(x, a, k * Q + U, s);
  }

  /** A field of `a + b` bits is its high `a` bits followed by its low `b`
      bits: the high part is the value shifted right by `b`. */
  lemma {:induction false} BitsSplit(v: int, a: nat, b: nat)
    ensures Bits(v, a + b) == Bits(v / Pow2(b), a) + Bits(v, b)
    decreases b
  {
    if b > 0 {
      var c := if v % 2 == 0 then '0' else '1';
      var lo := Bits(v / 2, b - 1);
      var hi := Bits((v / 2) / Pow2(b - 1), a);
      BitsSplit(v / 2, a, b - 1);
      DivNest(v, 2, Pow2(b - 1));
      assert Pow2(b) == 2 * Pow2(b - 1);
      assert Bits(v, b) == lo + [c];
      assert Bits(v, a + b) == (hi + lo) + [c];
      assert (hi + lo) + [c] == hi + (lo + [c]);
    }
  }

  /** A field of `a + b + c + d` bits is four adjacent fields, each the
      value shifted right past the fields below it. */
  lemma BitsSplit4(v: int, a: nat, b: nat, c: nat, d: nat)
    ensures Bits(v, a + b + c + d)
      == Bits(v / Pow2(b + c + d), a) + Bits(v / Pow2(c + d), b) + Bits(v / Pow2(d), c) + Bits(v, d)
  {
    var A, B, C, D := Bits(v / Pow2(b + c + d), a), Bits(v / Pow2(c + d), b), Bits(v / Pow2(d), c), Bits(v, d);
    BitsSplit(v, c, d);
    BitsSplit(v, b, c + d);
    BitsSplit(v, a, b + c + d);
    assert a + b + c + d == a + (b + c + d);
    assert Bits(v, a + b + c + d) == A + (B + (C + D));
  }

  /** The value of a binary string stays below `2^|s|`. */
  lemma {:induction false} BinaryBound(s: string)
    requires IsBinary(s)
    ensures Value(s, 2) < Pow2(|s|)
    decreases |s|
  {
    if |s| > 0 {
      BinaryBound(s[..|s| - 1]);
    }
  }

  /** A field depends only on the value modulo `2^w`. */
  lemma {:induction false} BitsCongruent(u: int, v: int, w: nat)
    requires u % Pow2(w) == v % Pow2(w)
    ensures Bits(u, w) == Bits(v, w)
    decreases w
  {
    if w > 0 {
      var p := Pow2(w - 1);
      LowBitSplit(u, p);
      LowBitSplit(v, p);
      assert u % 2 == v % 2 && (u / 2) % p == (v / 2) % p;
      BitsCongruent(u / 2, v / 2, w - 1);
    }
  }

  /** Reducing modulo `2^w` first changes no field of width `w`. */
  lemma BitsMod(v: int, w: nat)
    ensures Bits(v % Pow2(w), w) == Bits(v, w)
  {
    DivModUnique(v % Pow2(w), Pow2(w), 0, v % Pow2(w));
    BitsCongruent(v % Pow2(w), v, w);
  }

  /** The two's-complement reading of an `n`-bit pattern `v`. */
  function Signed(v: int, n: nat): (r: int)
    requires n >= 1
    ensures 0 <= v < Pow2(n) ==> -(Pow2(n - 1) as int) <= r < Pow2(n - 1) && (r - v) % Pow2(n) == 0
  {
    var p: int := Pow2(n);
    assert p == 2 * Pow2(n - 1);
    DivModUnique(-p, p, -1, 0);
    DivModUnique(0, p, 0, 0);
    if v >= Pow2(n - 1) then v - p else v
  }

  /** Round trip: a value that fits `n` signed bits is read back from its
      field. */
  lemma SignedBits(x: int, n: nat)
    requires n >= 1 && -(Pow2(n - 1) as int) <= x < Pow2(n - 1)
    ensures Signed(Value(Bits(x, n), 2), n) == x
  {
    BitsValue(x, n);
    var p := Pow2(n);
    assert p == 2 * Pow2(n - 1);
    if x >= 0 {
      DivModUnique(x, p, 0, x);
    } else {
      DivModUnique(x, p, -1, x + p);
    }
  }

  lemma BinaryConcat(a: string, b: string)
    requires IsBinary(a) && IsBinary(b)
    ensures IsBinary(a + b)
  {
  }

  /** Reading a concatenation in base `base` shifts the first part by the
      length of the second. */
  lemma {:induction false} ValueConcat(a: string, b: string, base: nat)
    ensures Value(a + b, base) == Value(a, base) * Power(base, |b|) + Value(b, base)
    decreases |b|
  {
    if |b| == 0 {
      assert a + b == a;
    } else {
      var b' := b[..|b| - 1];
      var c := b[|b| - 1];
      assert a + b == (a + b') + [c];
      ValueAppend(a + b', c, base);
      ValueConcat(a, b', base);
      ValueAppend(b', c, base);
      assert b == b' + [c];
      Distribute(Value(a, base), Power(base, |b'|), Value(b', base), base);
    }
  }

  lemma Distribute(x: int, p: int, y: int, b: int)
    ensures (x * p + y) * b == x * (p * b) + y * b
  {
  }

  function Power(base: nat, n: nat): nat {
    if n == 0 then 1 else Power(base, n - 1) * base
  }

  function Min(a: int, b: int): int {
    if a <= b then a else b
  }

  /** Group `k` of a binary string: the four characters from `4k`, or
      fewer at its end. */
  function Group(bin: string, k: nat): (r: string)
    requires IsBinary(bin) && 4 * k < |bin|
    ensures IsBinary(r) && 1 <= |r| <= 4
  {
    bin[4 * k..Min(4 * k + 4, |bin|)]
  }

  /** The hexadecimal digit for a group of at most four bits. */
  function HexDigit(group: string): (c: char)
    requires IsBinary(group) && |group| <= 4
    ensures DigitValue(c) == Value(group, 2) < 16
    ensures '0' <= c <= '9' || 'a' <= c <= 'f'
  {
    BinaryBound(group);
    Pow2Monotone(|group|, 4);
    assert Pow2(4) == 16;
    HexChar(Value(group, 2))
  }

  /** Each digit of `ans` is the digit of its group of `bin`. */
  ghost predicate HexOfGroups(bin: string, ans: string)
    requires IsBinary(bin)
  {
    forall k :: 0 <= k < |ans| ==> 4 * k < |bin| && ans[k] == HexDigit(Group(bin, k))
  }

  lemma HexOfGroupsExtend(bin: string, ans: string, digit: char)
    requires IsBinary(bin) && HexOfGroups(bin, ans) && 4 * |ans| < |bin|
    requires digit == HexDigit(Group(bin, |ans|))
    ensures HexOfGroups(bin, ans + [digit])
  {
    var ans' := ans + [digit];
    forall k | 0 <= k < |ans'|
      ensures 4 * k < |bin| && ans'[k] == HexDigit(Group(bin, k))
    {
      if k < |ans| {
        assert ans'[k] == ans[k];
      }
    }
  }

  /** Dropping the last group keeps the digits of the others. */
  lemma HexOfGroupsFront(bin: string, ans: string)
    requires IsBinary(bin) && HexOfGroups(bin, ans) && 0 < |ans| && |bin| == 4 * |ans|
    ensures IsBinary(bin[..4 * (|ans| - 1)])
    ensures HexOfGroups(bin[..4 * (|ans| - 1)], ans[..|ans| - 1])
  {
    var n := |ans| - 1;
    var front := bin[..4 * n];
    assert IsBinary(front);
    forall k | 0 <= k < n
      ensures 4 * k < |front| && ans[..n][k] == HexDigit(Group(front, k))
    {
      assert Group(front, k) == Group(bin, k);
    }
  }

  /** One more group of four bits adds one hexadecimal digit. */
  lemma HexValueStep(front: string, last: string, ans: string, digit: char)
    requires IsBinary(last) && |last| == 4 && digit == HexDigit(last)
    requires Value(ans, 16) == Value(front, 2)
    ensures Value(ans + [digit], 16) == Value(front + last, 2)
  {
    ValueAppend(ans, digit, 16);
    ValueConcat(front, last, 2);
    assert Power(2, 4) == 16;
  }

  /** When the length is a multiple of four, the digits of the groups read
      in base 16 give the value the binary string has in base 2. */
  lemma {:induction false} HexValue(bin: string, ans: string)
    requires IsBinary(bin) && |bin| == 4 * |ans| && HexOfGroups(bin, ans)
    ensures Value(ans, 16) == Value(bin, 2)
    decreases |ans|
  {
    if |ans| > 0 {
      var n := |ans| - 1;
      var front, last, rest, digit := bin[..4 * n], bin[4 * n..], ans[..n], ans[n];
      assert ans == rest + [digit];
      assert bin == front + last;
      assert last == Group(bin, n) && digit == HexDigit(Group(bin, n));
      HexOfGroupsFront(bin, ans);
      HexValue(front, rest);
      HexValueStep(front, last, rest, digit);
    }
  }

  /** `binToHex`: each group of four bits becomes one lower-case hexadecimal
      digit (`stoi` reads a non-empty string of binary digits as its
      value). */
  method BinToHex(bin: string) returns (ans: string)
    requires IsBinary(bin)
    ensures |ans| == (|bin| + 3) / 4
    ensures forall k :: 0 <= k < |ans| ==> 4 * k < |bin| && ans[k] == HexDigit(Group(bin, k))
    ensures forall k :: 0 <= k < |ans| ==> '0' <= ans[k] <= '9' || 'a' <= ans[k] <= 'f'
    ensures |bin| % 4 == 0 ==> Value(ans, 16) == Value(bin, 2)
  {
    ans := "";
    var i := 0;
    while i < |bin|
      invariant i == 4 * |ans| && |ans| <= (|bin| + 3) / 4
      invariant HexOfGroups(bin, ans)
      decreases |bin| - i
    {
      var curr := bin[i..Min(i + 4, |bin|)];
      assert curr == Group(bin, |ans|);
      var digit := HexDigit(curr);
      HexOfGroupsExtend(bin, ans, digit);
      ans := ans + [digit];
      i := i + 4;
    }
    if |bin| % 4 == 0 {
      HexValue(bin, ans);
    }
  }

}
