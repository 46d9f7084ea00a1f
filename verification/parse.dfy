/** Number parsing as the simulator performs it: the C library conversions
    `stoi` and `stoul` (which skip leading white space, take an optional
    sign and a base prefix, and read the longest run of digits), and the
    simulator's own wrappers `getDec`, `safeStoi`, `hexToInt`, `binToInt`
    and `decToHex`. */
module Parse {
  import opened Arith
  import opened Wrappers

  /** Character `i` of `s`, or the terminating NUL that `std::string`
      yields at (and, here, beyond) its end. */
  function At(s: string, i: nat): char {
    if i < |s| then s[i] else '\0'
  }

  /** White space as `isspace` defines it in the C locale. */
  predicate IsSpace(c: char) {
    c == ' ' || '\t' <= c <= '\r'
  }

  /** The value of `c` as a digit in bases up to 36, or 36 if `c` is not a
      digit in any base. */
  function DigitValue(c: char): (d: nat)
    ensures d <= 36
  {
    if '0' <= c <= '9' then c as int - '0' as int
    else if 'a' <= c <= 'z' then c as int - 'a' as int + 10
    else if 'A' <= c <= 'Z' then c as int - 'A' as int + 10
    else 36
  }

  /** The lower-case digit for `d`, as `decToHex` writes it. */
  function HexChar(d: nat): (c: char)
    requires d < 16
    ensures DigitValue(c) == d
    ensures '0' <= c <= '9' || 'a' <= c <= 'f'
  {
    if d < 10 then (48 + d) as char else (87 + d) as char
  }

  /** The value of a digit string in `base`, most significant digit first. */
  function Value(ds: string, base: nat): nat {
    if |ds| == 0 then 0 else Value(ds[..|ds| - 1], base) * base + DigitValue(ds[|ds| - 1])
  }

  /** The shortest numeral for `n` in `base`, with lower-case letters. */
  function Digits(n: nat, base: nat): (r: string)
    requires 2 <= base <= 16
    ensures |r| >= 1
    ensures forall j :: 0 <= j < |r| ==> DigitValue(r[j]) < base && ('0' <= r[j] <= '9' || 'a' <= r[j] <= 'f')
    ensures r[0] == '0' ==> n == 0
  {
    if n < base then [HexChar(n)]
    else
      DivSplit(n, base);
      var hi := Digits(n / base, base);
      assert (hi + [HexChar(n % base)])[0] == hi[0];
      hi + [HexChar(n % base)]
  }

  /** Reading a numeral back gives the number it was written from. */
  lemma {:induction false} DigitsValue(n: nat, base: nat)
    requires 2 <= base <= 16
    ensures Value(Digits(n, base), base) == n
    decreases n
  {
    if n >= base {
      DivSplit(n, base);
      var q := n / base;
      var r := n % base;
      var c := HexChar(r);
      var ds := Digits(q, base);
      assert Digits(n, base) == ds + [c];
      DigitsValue(q, base);
      ValueAppend(ds, c, base);
    }
  }

  /** Appending a digit multiplies the value by the base and adds the
      digit. */
  lemma ValueAppend(ds: string, c: char, base: nat)
    ensures Value(ds + [c], base) == Value(ds, base) * base + DigitValue(c)
  {
    assert (ds + [c])[..|ds|] == ds;
  }

  /** The end of the white space from `i` on. */
  function SkipSpaces(s: string, i: nat): (j: nat)
    requires i <= |s|
    ensures i <= j <= |s|
    ensures forall k :: i <= k < j ==> IsSpace(s[k])
    ensures j == |s| || !IsSpace(s[j])
    decreases |s| - i
  {
    if i < |s| && IsSpace(s[i]) then SkipSpaces(s, i + 1) else i
  }

  /** The end of the run of `base` digits from `i` on. */
  function DigitsEnd(s: string, i: nat, base: nat): (e: nat)
    requires i <= |s|
    ensures i <= e <= |s|
    ensures forall k :: i <= k < e ==> DigitValue(s[k]) < base
    ensures e == |s| || DigitValue(s[e]) >= base
    decreases |s| - i
  {
    if i < |s| && DigitValue(s[i]) < base then DigitsEnd(s, i + 1, base) else i
  }

  /** A run of digits reaching the end of the string is read whole. */
  lemma {:induction false} DigitsEndAll(s: string, i: nat, base: nat)
    requires i <= |s|
    requires forall k :: i <= k < |s| ==> DigitValue(s[k]) < base
    ensures DigitsEnd(s, i, base) == |s|
    decreases |s| - i
  {
    if i < |s| {
      DigitsEndAll(s, i + 1, base);
    }
  }

  /** The `0x` (base 16) or `0b` (base 2) prefix at `i`. As in the C library,
      the prefix counts only when a digit of the base follows it; otherwise
      the conversion reads just the `0`. Base 2 prefixes are accepted as
      C libraries implementing C23 accept them. */
  predicate HasPrefix(s: string, i: nat, base: nat) {
    && At(s, i) == '0'
    && ((base == 16 && (At(s, i + 1) == 'x' || At(s, i + 1) == 'X'))
        || (base == 2 && (At(s, i + 1) == 'b' || At(s, i + 1) == 'B')))
    && DigitValue(At(s, i + 2)) < base
  }

  /** What the C library's integer scan finds: the sign, the magnitude of
      the digits, and the index just past them. */
  datatype Numeral = Numeral(negative: bool, magnitude: nat, end: nat)

  /** The scan shared by `strtol` and `strtoul`; `None` when no digit is
      found, which the C++ wrappers report as `invalid_argument`. */
  function ScanInteger(s: string, base: nat): (r: Option<Numeral>)
    requires base == 2 || base == 10 || base == 16
    ensures r.Some? ==> 1 <= r.value.end <= |s| && DigitValue(s[r.value.end - 1]) < base
    ensures r.Some? ==> r.value.end == |s| || DigitValue(s[r.value.end]) >= base
  {
    var i0 := SkipSpaces(s, 0);
    var i1 := if At(s, i0) == '-' || At(s, i0) == '+' then i0 + 1 else i0;
    var i2 := if HasPrefix(s, i1, base) then i1 + 2 else i1;
    var e := DigitsEnd(s, i2, base);
    if e == i2 then None else Some(Numeral(At(s, i0) == '-', Value(s[i2..e], base), e))
  }

  /** The outcome of a conversion that succeeded: its value and `pos`, the
      number of characters it consumed. */
  datatype Parsed = Parsed(value: int, pos: nat)

  /** `stoul(s, &pos, base)`: `None` where it throws. A magnitude beyond
      the range of `unsigned long` is `out_of_range`; a leading minus sign
      negates modulo `2^64`. */
  function Stoul(s: string, base: nat): (r: Option<Parsed>)
    requires base == 2 || base == 10 || base == 16
    ensures r.Some? ==> 0 <= r.value.value < TWO64 && 1 <= r.value.pos <= |s|
    ensures r.Some? <==> ScanInteger(s, base).Some? && ScanInteger(s, base).value.magnitude < TWO64
  {
    match ScanInteger(s, base)
    case None => None
    case Some(n) =>
      if n.magnitude >= TWO64 then None
      else Some(Parsed(if n.negative then U64(-(n.magnitude as int)) else n.magnitude, n.end))
  }

  /** `stoi(s, &pos, base)`: `None` where it throws, that is when there is
      no digit or the value does not fit an `int`. */
  function Stoi(s: string, base: nat): (r: Option<Parsed>)
    requires base == 2 || base == 10 || base == 16
    ensures r.Some? ==> IsInt32(r.value.value) && 1 <= r.value.pos <= |s|
  {
    match ScanInteger(s, base)
    case None => None
    case Some(n) =>
      var v := if n.negative then -(n.magnitude as int) else n.magnitude;
      if IsInt32(v) then Some(Parsed(v, n.end)) else None
  }

  /** `safeStoi`: whether `s` converts with `stoi` and the conversion
      consumes all of `s`, or, for text starting with a minus sign, all but
      the last three characters. */
  predicate SafeStoi(s: string, base: nat)
    requires base == 2 || base == 10 || base == 16
  {
    match Stoi(s, base)
    case None => false
    case Some(p) => p.pos == |s| || (At(s, 0) == '-' && p.pos + 3 == |s|)
  }

  /** `hexToInt` and `binToInt`: the `stoi` value when `safeStoi` accepts the
      text, `None` (the source's `(0, true)`) otherwise. */
  function ToInt(s: string, base: nat): (r: Option<int>)
    requires base == 2 || base == 16
    ensures r.Some? <==> SafeStoi(s, base)
    ensures r.Some? ==> IsInt32(r.value) && Stoi(s, base).Some? && r.value == Stoi(s, base).value.value
  {
    if SafeStoi(s, base) then Some(Stoi(s, base).value.value) else None
  }

  /** The base `getDec` picks from the leading characters. */
  function DecBase(s: string): (base: nat)
    ensures base == 2 || base == 10 || base == 16
  {
    if At(s, 0) == '0' && (At(s, 1) == 'x' || At(s, 1) == 'X') then 16
    else if At(s, 0) == '0' && (At(s, 1) == 'b' || At(s, 1) == 'B') then 2
    else 10
  }

  /** `getDec`: a `.data` literal in decimal, hexadecimal (`0x`) or binary
      (`0b`), possibly negated by leading minus signs; `None` where the
      source reports an error. The `unsigned long` read by `stoul` is
      returned as a `long`, and each minus sign negates with wrap-around. */
  function GetDec(s: string): (r: Option<i64>)
    ensures r.Some? ==> |s| >= 1
    decreases |s|
  {
    if At(s, 0) == '-' then
      match GetDec(s[1..])
      case None => None
      case Some(v) => Some(Wrap64(-(v as int)))
    else
      match Stoul(s, DecBase(s))
      case None => None
      case Some(p) => if p.pos != |s| then None else Some(Signed64(p.value))
  }

  /** `decToHex`: the 64-bit pattern of `num` in lower-case hexadecimal
      without leading zeros. */
  function DecToHex(num: i64): (h: string)
    ensures |h| >= 1 && (h[0] == '0' ==> num == 0)
    ensures forall j :: 0 <= j < |h| ==> '0' <= h[j] <= '9' || 'a' <= h[j] <= 'f'
    ensures Value(h, 16) == U64(num)
  {
    DigitsValue(U64(num), 16);
    Digits(U64(num), 16)
  }

  /** The text `decToHex` produces for a negative value names the value's
      two's-complement pattern, sixteen digits long. */
  lemma DecToHexNegative(num: i64)
    requires num < 0
    ensures U64(num) == num + TWO64 && Value(DecToHex(num), 16) == num + TWO64
  {
    U64Negative(num);
  }

  /** A digit string `ds` that fills `s` from `i` on converts to its value. */
  lemma ScanDigits(s: string, i: nat, ds: string, base: nat)
    requires base == 2 || base == 10 || base == 16
    requires i <= |s| && s[i..] == ds && |ds| >= 1
    requires forall j :: 0 <= j < |ds| ==> DigitValue(ds[j]) < base
    ensures DigitsEnd(s, i, base) == |s| && Value(s[i..DigitsEnd(s, i, base)], base) == Value(ds, base)
  {
    forall k | i <= k < |s|
      ensures DigitValue(s[k]) < base
    {
      assert s[k] == ds[k - i];
    }
    DigitsEndAll(s, i, base);
    assert s[i..|s|] == ds;
  }

  /** The C library's scan reads a decimal numeral whole. */
  lemma ScanDecimal(n: nat)
    ensures ScanInteger(Digits(n, 10), 10) == Some(Numeral(false, n, |Digits(n, 10)|))
  {
    var s := Digits(n, 10);
    DigitsValue(n, 10);
    assert !IsSpace(s[0]) && DigitValue(s[0]) < 10;
    assert SkipSpaces(s, 0) == 0;
    assert !HasPrefix(s, 0, 10);
    assert s[0..] == s;
    ScanDigits(s, 0, s, 10);
  }

  /** Round trip: a decimal numeral for a non-negative `long` reads back as
      that value. */
  lemma GetDecDecimal(n: nat)
    requires n < TWO63
    ensures GetDec(Digits(n, 10)) == Some(n)
  {
    var s := Digits(n, 10);
    assert At(s, 0) != '-' && DecBase(s) == 10 by {
      assert DigitValue(s[0]) < 10;
      assert |s| >= 2 ==> DigitValue(s[1]) < 10;
    }
    ScanDecimal(n);
    assert Stoul(s, 10) == Some(Parsed(n, |s|));
  }

  /** Round trip: a minus sign before a decimal numeral reads back as the
      negated value. */
  lemma GetDecNegative(n: nat)
    requires n < TWO63
    ensures GetDec("-" + Digits(n, 10)) == Some(-(n as int))
  {
    var d := Digits(n, 10);
    var s := "-" + d;
    assert At(s, 0) == '-' && s[1..] == d;
    assert GetDec(s) == Some(Wrap64(-(n as int))) by {
      GetDecDecimal(n);
    }
    assert Wrap64(-(n as int)) == -(n as int) by {
      if n > 0 {
        U64Negative(-(n as int));
      } else {
        U64Id(0);
      }
    }
  }

  /** Round trip: the `0x` form of `decToHex`'s text reads back as the
      original value, for every `long`. */
  lemma GetDecHex(v: i64)
    ensures GetDec("0x" + DecToHex(v)) == Some(v)
  {
    var h := DecToHex(v);
    var s := "0x" + h;
    assert At(s, 0) == '0' && At(s, 1) == 'x' && At(s, 2) == h[0];
    assert DecBase(s) == 16;
    assert HasPrefix(s, 0, 16);
    assert s[2..] == h;
    ScanDigits(s, 2, h, 16);
    assert ScanInteger(s, 16) == Some(Numeral(false, U64(v), |s|));
    SignedU64(v);
  }

  /** Round trip for `stoi`: a decimal numeral for a value that fits an
      `int` converts fully, so `safeStoi` accepts it. */
  lemma StoiDecimal(n: nat)
    requires n < TWO31
    ensures Stoi(Digits(n, 10), 10) == Some(Parsed(n, |Digits(n, 10)|))
    ensures SafeStoi(Digits(n, 10), 10)
  {
    ScanDecimal(n);
  }

  /** Round trip for `stoi`: a minus sign before a decimal numeral of a
      magnitude up to `2^31` converts fully to the negated value. */
  lemma StoiNegative(n: nat)
    requires n <= TWO31
    ensures Stoi("-" + Digits(n, 10), 10) == Some(Parsed(-(n as int), |Digits(n, 10)| + 1))
    ensures SafeStoi("-" + Digits(n, 10), 10)
  {
    ScanNegative(n);
  }

  /** The C library's scan reads a minus sign and a decimal numeral whole. */
  lemma ScanNegative(n: nat)
    ensures ScanInteger("-" + Digits(n, 10), 10) == Some(Numeral(true, n, |Digits(n, 10)| + 1))
  {
    var d := Digits(n, 10);
    var s := "-" + d;
    DigitsValue(n, 10);
    assert !IsSpace(s[0]);
    assert SkipSpaces(s, 0) == 0;
    assert At(s, 0) == '-';
    assert !HasPrefix(s, 1, 10);
    assert s[1..] == d;
    ScanDigits(s, 1, d, 10);
  }

  /** A `0x`-prefixed hexadecimal numeral is scanned whole, as its value. */
  lemma ScanHex(n: nat)
    ensures ScanInteger("0x" + Digits(n, 16), 16) == Some(Numeral(false, n, |Digits(n, 16)| + 2))
  {
    var h := Digits(n, 16);
    var s := "0x" + h;
    DigitsValue(n, 16);
    assert At(s, 0) == '0' && At(s, 1) == 'x' && At(s, 2) == h[0];
    assert SkipSpaces(s, 0) == 0;
    assert HasPrefix(s, 0, 16);
    assert s[2..] == h;
    ScanDigits(s, 2, h, 16);
  }

  /** Round trip for `stoi` in base 16: the `0x` form of the lower-case
      hexadecimal numeral of a value that fits an `int` converts fully. */
  lemma StoiHex(n: nat)
    requires n < TWO31
    ensures Stoi("0x" + Digits(n, 16), 16) == Some(Parsed(n, |Digits(n, 16)| + 2))
    ensures SafeStoi("0x" + Digits(n, 16), 16)
  {
    ScanHex(n);
  }


  /** `safeStoi` accepts a negative number followed by any three characters
      that end the digit run, and `stoi` then yields the number alone:
      `-1abc` is accepted as `-1`. */
  lemma SafeStoiTrailingThree(d: char, t: string)
    requires '1' <= d <= '9' && |t| == 3 && DigitValue(t[0]) >= 10
    ensures SafeStoi(['-', d] + t, 10)
    ensures Stoi(['-', d] + t, 10) == Some(Parsed(-(DigitValue(d) as int), 2))
  {
    var s := ['-', d] + t;
    assert SkipSpaces(s, 0) == 0;
    assert DigitsEnd(s, 2, 10) == 2;
    assert DigitsEnd(s, 1, 10) == 2;
    assert s[1..2] == [d];
    assert Value([d], 10) == DigitValue(d) by {
      assert [d][..0] == [];
    }
  }
}
