/** Register operands: `x0` … `x31` written by number, or one of the ABI
    names (`zero`, `ra`, `sp`, …) that the alias table maps to a numbered
    register. The simulator and the assembler resolve them the same way. */
module Registers {
  import opened Arith
  import opened Wrappers
  import opened Parse

  /** A register number. */
  type RegIndex = k: nat | k < 32

  /** The alias table: each ABI name with the number of the register it
      stands for. The table's entries are the texts `"x" + number`. */
  const AliasIndex: map<string, RegIndex> := map[
    "zero" := 0, "ra" := 1, "sp" := 2, "gp" := 3, "tp" := 4,
    "t0" := 5, "t1" := 6, "t2" := 7, "s0" := 8, "fp" := 8, "s1" := 9,
    "a0" := 10, "a1" := 11, "a2" := 12, "a3" := 13, "a4" := 14,
    "a5" := 15, "a6" := 16, "a7" := 17,
    "s2" := 18, "s3" := 19, "s4" := 20, "s5" := 21, "s6" := 22,
    "s7" := 23, "s8" := 24, "s9" := 25, "s10" := 26, "s11" := 27,
    "t3" := 28, "t4" := 29, "t5" := 30, "t6" := 31]

  /** The numbered name of register `k`: `x` followed by `k` in decimal. */
  function RegName(k: nat): (r: string)
    ensures |r| >= 2 && r[0] == 'x' && r[1..] == Digits(k, 10)
  {
    "x" + Digits(k, 10)
  }

  /** The alias table's text for `name`, if `name` is an ABI name. */
  function AliasText(name: string): (r: Option<string>)
    ensures r.Some? <==> name in AliasIndex
  {
    if name in AliasIndex then Some(RegName(AliasIndex[name])) else None
  }

  /** `getRegister`: the number `stoi` reads after the `x` of a numbered
      name, or after the `x` of the alias table's text for an ABI name;
      `-1` when `safeStoi` rejects that text or the name is unknown. The
      number is not yet checked against the register file's size. */
  function GetRegister(reg: string): (r: int)
    ensures IsInt32(r)
    ensures At(reg, 0) != 'x' && reg !in AliasIndex ==> r == -1
  {
    if At(reg, 0) == 'x' then
      var t := reg[1..];
      if SafeStoi(t, 10) then Stoi(t, 10).value.value else -1
    else
      match AliasText(reg)
      case None => -1
      case Some(text) =>
        var t := text[1..];
        if SafeStoi(t, 10) then Stoi(t, 10).value.value else -1
  }

  /** `checkRegister`: whether a number is outside the register file. */
  predicate CheckRegister(r: int) {
    r < 0 || r > 31
  }

  /** A register operand as the instruction handlers accept it: the result
      of `getRegister` when it is neither `-1` nor rejected by
      `checkRegister`. */
  function Register(reg: string): (r: Option<nat>)
    ensures r.Some? <==> 0 <= GetRegister(reg) <= 31
    ensures r.Some? ==> r.value < 32 && r.value == GetRegister(reg)
  {
    var n := GetRegister(reg);
    if n == -1 || CheckRegister(n) then None else Some(n)
  }

  /** Round trip: the numbered name of a number that fits an `int` reads
      back as that number, and names a register exactly when it is below
      32. */
  lemma NumberedRegister(k: nat)
    requires k < TWO31
    ensures GetRegister(RegName(k)) == k
    ensures Register(RegName(k)) == (if k < 32 then Some(k) else None)
  {
    var s := RegName(k);
    assert At(s, 0) == 'x';
    StoiDecimal(k);
  }

  /** Every ABI name resolves to the register the alias table gives it. */
  lemma AliasRegister(name: string)
    requires name in AliasIndex
    ensures Register(name) == Some(AliasIndex[name] as nat)
  {
    var k := AliasIndex[name];
    AliasNamesPlain(name);
    StoiDecimal(k);
  }

  /** No ABI name starts with `x`, so none is read as a numbered name. */
  lemma AliasNamesPlain(name: string)
    requires name in AliasIndex
    ensures At(name, 0) != 'x'
  {
    assert name != [] && name[0] != 'x';
  }

  /** Only texts starting with `x` and ABI names can name a register. */
  lemma RegisterNames(reg: string)
    requires Register(reg).Some?
    ensures At(reg, 0) == 'x' || reg in AliasIndex
  {
  }
}
