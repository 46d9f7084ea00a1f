/** Immediate operands (`getImmediate`): a label, or a number in decimal,
    hexadecimal (`0x`) or binary (`0b`), possibly negative. The simulator
    reports a bad immediate through its error flag; the assembler stops
    instead. */
module Immediates {
  import opened Arith
  import opened Wrappers
  import opened Parse

  /** The pair `getImmediate` returns: the value and the flag, which is set
      for a resolved label and for an error. */
  datatype Imm = Imm(value: int, flag: bool)

  /** The test `c >= 'A'` on a plain `char`, which is signed on x86: the
      bytes from 0x80 up are negative there and so compare below `A`. */
  predicate AtLeastA(c: char) {
    'A' <= c && c as int <= 0x7f
  }

  /** Whether the operand is taken as a label: it starts with a character
      at or above `A` (after a minus sign, if any) and labels are allowed. */
  predicate LabelLike(str: string, flag: bool) {
    (AtLeastA(At(str, 0)) || (At(str, 0) == '-' && AtLeastA(At(str, 1)))) && flag
  }

  /** Whether the operand carries the prefix `0x`/`0X` (hexadecimal, when
      `letter` is `x`) or `0b`/`0B` (binary, when `letter` is `b`), possibly
      after a minus sign. */
  predicate Prefixed(str: string, lower: char, upper: char) {
    || (At(str, 0) == '0' && (At(str, 1) == lower || At(str, 1) == upper))
    || (At(str, 0) == '-' && At(str, 1) == '0' && (At(str, 2) == lower || At(str, 2) == upper))
  }

  /** The simulator's `getImmediate`. A known label gives its distance from
      `pc` with the flag set; an unknown label, a rejected hexadecimal or
      binary text and a rejected decimal text give the flag set and the
      value 0 (the source leaves the value uninitialised in two of these
      cases). */
  function GetImmediate(str: string, pc: int, labels: map<string, int>, flag: bool): (r: Imm)
    ensures IsInt32(r.value)
    ensures r.flag && !(LabelLike(str, flag) && str in labels) ==> r.value == 0
    ensures !r.flag ==> !LabelLike(str, flag)
    ensures !LabelLike(str, flag) && !Prefixed(str, 'x', 'X') && !Prefixed(str, 'b', 'B') ==>
      (r.flag <==> !SafeStoi(str, 10))
  {
    if LabelLike(str, flag) then
      if str in labels then Imm(Wrap32(labels[str] - pc), true) else Imm(0, true)
    else if Prefixed(str, 'x', 'X') then
      match ToInt(str, 16)
      case None => Imm(0, true)
      case Some(v) => Imm(v, false)
    else if Prefixed(str, 'b', 'B') then
      match ToInt(str, 2)
      case None => Imm(0, true)
      case Some(v) => Imm(v, false)
    else if SafeStoi(str, 10) then Imm(Stoi(str, 10).value.value, false)
    else Imm(0, true)
  }

  /** The assembler's `getImmediate`: the same reading, except that every
      error ends the assembly (`None`) instead of setting the flag. */
  function AsmImmediate(str: string, pc: int, labels: map<string, int>, flag: bool): (r: Option<Imm>)
  {
    if LabelLike(str, flag) then
      if str in labels then Some(Imm(Wrap32(labels[str] - pc), true)) else None
    else if Prefixed(str, 'x', 'X') then
      if SafeStoi(str, 16) then Some(Imm(Stoi(str, 16).value.value, false)) else None
    else if Prefixed(str, 'b', 'B') then
      if SafeStoi(str, 2) then Some(Imm(Stoi(str, 2).value.value, false)) else None
    else if SafeStoi(str, 10) then Some(Imm(Stoi(str, 10).value.value, false))
    else None
  }

  /** The assembler reads an immediate exactly as the simulator does
      wherever the simulator's reading succeeds or finds a label, and
      stops wherever the simulator reports an error. */
  lemma AssemblerAgrees(str: string, pc: int, labels: map<string, int>, flag: bool)
    ensures var sim := GetImmediate(str, pc, labels, flag);
      AsmImmediate(str, pc, labels, flag) ==
        (if sim.flag && !(LabelLike(str, flag) && str in labels) then None else Some(sim))
  {
  }

  /** A decimal numeral that fits an `int` reads as its value, with the
      flag clear, whether or not labels are allowed. */
  lemma ImmediateDecimal(n: nat, pc: int, labels: map<string, int>, flag: bool)
    requires n < TWO31
    ensures GetImmediate(Digits(n, 10), pc, labels, flag) == Imm(n, false)
  {
    var s := Digits(n, 10);
    assert !LabelLike(s, flag) by {
      assert DigitValue(s[0]) < 10;
    }
    assert !Prefixed(s, 'x', 'X') && !Prefixed(s, 'b', 'B') by {
      assert |s| >= 2 ==> DigitValue(s[1]) < 10;
    }
    StoiDecimal(n);
  }

  /** A negative decimal operand down to `-2^31` reads as its value. */
  lemma ImmediateNegative(n: nat, pc: int, labels: map<string, int>, flag: bool)
    requires 1 <= n <= TWO31
    ensures GetImmediate("-" + Digits(n, 10), pc, labels, flag) == Imm(-(n as int), false)
  {
    var d := Digits(n, 10);
    var s := "-" + d;
    assert At(s, 1) == d[0] && DigitValue(d[0]) < 10;
    assert |d| >= 2 ==> At(s, 2) == d[1] && DigitValue(d[1]) < 10;
    assert !LabelLike(s, flag);
    assert !Prefixed(s, 'x', 'X') && !Prefixed(s, 'b', 'B');
    StoiNegative(n);
  }

  /** The `0x` form of a value that fits an `int` reads back as the value. */
  lemma ImmediateHex(n: nat, pc: int, labels: map<string, int>, flag: bool)
    requires n < TWO31
    ensures GetImmediate("0x" + Digits(n, 16), pc, labels, flag) == Imm(n, false)
  {
    var s := "0x" + Digits(n, 16);
    assert At(s, 0) == '0' && At(s, 1) == 'x';
    assert !LabelLike(s, flag);
    StoiHex(n);
  }

  /** A known label, where labels are allowed, resolves to its distance
      from `pc` with the flag set; an unknown one is an error. */
  lemma ImmediateLabel(str: string, pc: int, labels: map<string, int>)
    requires AtLeastA(At(str, 0))
    ensures str in labels ==> GetImmediate(str, pc, labels, true) == Imm(Wrap32(labels[str] - pc), true)
    ensures str !in labels ==> GetImmediate(str, pc, labels, true) == Imm(0, true)
    ensures str !in labels ==> AsmImmediate(str, pc, labels, true).None?
  {
  }

  /** An operand starting with a byte from 0x80 up (a UTF-8 lead byte, say)
      is never a label, even when a label of that name exists: it is read
      as a decimal number, has no digit, and so is an error in the
      simulator and stops the assembler. */
  lemma HighByteNotLabel(str: string, pc: int, labels: map<string, int>, flag: bool)
    requires 0x80 <= At(str, 0) as int <= 0xff
    ensures !LabelLike(str, flag)
    ensures GetImmediate(str, pc, labels, flag) == Imm(0, true)
    ensures AsmImmediate(str, pc, labels, flag).None?
  {
  }
}
