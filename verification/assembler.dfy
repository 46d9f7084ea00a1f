/** The assembler's encoder (`convert`): each instruction line becomes one
    32-bit machine word, built as a string of binary digits with the field
    layouts of section 2.2 of the RISC-V Unprivileged ISA and printed in
    hexadecimal. The reference decoders below read the fields back as
    sections 2.2 and 2.3 of that manual define them. */
module Assembler {
  import opened Arith
  import opened Wrappers
  import opened Parse
  import opened BitStrings
  import Immediates
  import Registers
  import Operands
  import Engine

  // ---------------------------------------------------------------------
  // Tables
  // ---------------------------------------------------------------------

  /** A `funct3` entry: three binary digits. */
  type Funct3Bits = s: string | |s| == 3 && IsBinary(s) witness "000"

  /** A `funct7` entry or an opcode: seven binary digits. */
  type Funct7Bits = s: string | |s| == 7 && IsBinary(s) witness "0000000"

  /** The `funct3` table. */
  const Funct3: map<string, Funct3Bits> := map[
    "add" := "000", "sub" := "000", "and" := "111", "or" := "110",
    "xor" := "100", "sll" := "001", "srl" := "101", "sra" := "101",
    "addi" := "000", "andi" := "111", "ori" := "110", "xori" := "100",
    "slli" := "001", "srli" := "101", "srai" := "101",
    "lw" := "010", "sw" := "010",
    "beq" := "000", "bne" := "001", "blt" := "100", "bge" := "101", "bltu" := "110", "bgeu" := "111",
    "jalr" := "000", "ld" := "011", "sd" := "011", "sh" := "001", "sb" := "000",
    "lh" := "001", "lb" := "000", "lbu" := "100", "lhu" := "101",
    "slt" := "010", "sltu" := "011", "slti" := "010", "sltiu" := "011", "lwu" := "110"]

  /** The `funct7` table, for the register-register instructions. */
  const Funct7: map<string, Funct7Bits> := map[
    "add" := "0000000", "sub" := "0100000", "and" := "0000000", "or" := "0000000",
    "xor" := "0000000", "sll" := "0000000", "srl" := "0000000", "sra" := "0100000",
    "slt" := "0000000", "sltu" := "0000000"]

  /** `table[key]` on an `unordered_map<string, string>`: a missing key
      reads as the empty string. */
  function Lookup(table: map<string, string>, key: string): string {
    if key in table then table[key] else ""
  }

  /** Every mnemonic has an opcode of seven binary digits. */
  lemma OpcodeShape(instr: string)
    requires instr in Engine.OpcodeTable
    ensures |Engine.OpcodeTable[instr]| == 7 && IsBinary(Engine.OpcodeTable[instr])
  {
  }

  /** Every mnemonic whose format has a `funct3` field (all but `lui`,
      `auipc` and `jal`) has one of three binary digits. */
  lemma Funct3Shape(instr: string)
    requires instr in Engine.OpcodeTable
    requires Engine.OpcodeTable[instr] !in {"0110111", "0010111", "1101111"}
    ensures |Lookup(Funct3, instr)| == 3 && IsBinary(Lookup(Funct3, instr))
  {
    assert instr in Funct3;
  }

  /** Every register-register mnemonic has a `funct7` of seven binary
      digits. */
  lemma Funct7Shape(instr: string)
    requires instr in Engine.OpcodeTable && Engine.OpcodeTable[instr] == "0110011"
    ensures |Lookup(Funct7, instr)| == 7 && IsBinary(Lookup(Funct7, instr))
  {
    assert instr in Funct7;
  }

  /** The opcodes of `lui`, `auipc` and `jal` are not those of the formats
      that read `funct3`. */
  lemma SpecialOpcodes()
    ensures Engine.OpcodeTable["lui"] == "0110111" && Engine.OpcodeTable["auipc"] == "0010111"
    ensures Engine.OpcodeTable["jal"] == "1101111"
  {
  }

  // ---------------------------------------------------------------------
  // Reference decoders
  // ---------------------------------------------------------------------

  /** A machine word: 32 binary digits, bit 31 first. */
  predicate IsWord(w: string) {
    |w| == 32 && IsBinary(w)
  }

  /** Bits `hi` down to `lo` of a word. */
  function Field(w: string, hi: nat, lo: nat): (f: string)
    requires |w| == 32 && lo <= hi < 32
    ensures |f| == hi - lo + 1
  {
    w[31 - hi..32 - lo]
  }

  function OpcodeOf(w: string): string requires |w| == 32 { Field(w, 6, 0) }
  function RdOf(w: string): nat requires |w| == 32 { Value(Field(w, 11, 7), 2) }
  function Funct3Of(w: string): string requires |w| == 32 { Field(w, 14, 12) }
  function Rs1Of(w: string): nat requires |w| == 32 { Value(Field(w, 19, 15), 2) }
  function Rs2Of(w: string): nat requires |w| == 32 { Value(Field(w, 24, 20), 2) }
  function Funct7Of(w: string): string requires |w| == 32 { Field(w, 31, 25) }

  /** The I-immediate: bits 31..20, sign-extended. */
  function ImmI(w: string): int requires |w| == 32 {
    Signed(Value(Field(w, 31, 20), 2), 12)
  }

  /** The S-immediate: bits 31..25 above bits 11..7, sign-extended. */
  function ImmS(w: string): int requires |w| == 32 {
    Signed(Value(Field(w, 31, 25) + Field(w, 11, 7), 2), 12)
  }

  /** The B-immediate: offset bits 12, 11, 10..5 and 4..1 come from word
      bits 31, 7, 30..25 and 11..8; bit 0 is zero. */
  function ImmB(w: string): int requires |w| == 32 {
    Signed(2 * Value(Field(w, 31, 31) + Field(w, 7, 7) + Field(w, 30, 25) + Field(w, 11, 8), 2), 13)
  }

  /** The J-immediate: offset bits 20, 19..12, 11 and 10..1 come from word
      bits 31, 19..12, 20 and 30..21; bit 0 is zero. */
  function ImmJ(w: string): int requires |w| == 32 {
    Signed(2 * Value(Field(w, 31, 31) + Field(w, 19, 12) + Field(w, 20, 20) + Field(w, 30, 21), 2), 21)
  }

  /** The U-immediate: bits 31..12 above twelve zero bits, sign-extended
      from 32 bits. */
  function ImmU(w: string): int requires |w| == 32 {
    Signed(Value(Field(w, 31, 12), 2) * 4096, 32)
  }

  // ---------------------------------------------------------------------
  // Layouts: the word is the concatenation of its fields
  // ---------------------------------------------------------------------

  /** R-type and S-type: 7 | 5 | 5 | 3 | 5 | 7. */
  lemma RLayout(a: string, b: string, c: string, d: string, e: string, f: string)
    requires |a| == 7 && |b| == 5 && |c| == 5 && |d| == 3 && |e| == 5 && |f| == 7
    ensures var w := a + b + c + d + e + f;
      |w| == 32 && Field(w, 31, 25) == a && Field(w, 24, 20) == b && Field(w, 19, 15) == c
      && Field(w, 14, 12) == d && Field(w, 11, 7) == e && Field(w, 6, 0) == f
  {
    var w := a + b + c + d + e + f;
    assert w[0..7] == a;
    assert w[7..12] == b;
    assert w[12..17] == c;
    assert w[17..20] == d;
    assert w[20..25] == e;
    assert w[25..32] == f;
  }

  /** I-type: 12 | 5 | 3 | 5 | 7. */
  lemma ILayout(a: string, c: string, d: string, e: string, f: string)
    requires |a| == 12 && |c| == 5 && |d| == 3 && |e| == 5 && |f| == 7
    ensures var w := a + c + d + e + f;
      |w| == 32 && Field(w, 31, 20) == a && Field(w, 19, 15) == c
      && Field(w, 14, 12) == d && Field(w, 11, 7) == e && Field(w, 6, 0) == f
  {
    var w := a + c + d + e + f;
    assert w[0..12] == a;
    assert w[12..17] == c;
    assert w[17..20] == d;
    assert w[20..25] == e;
    assert w[25..32] == f;
  }

  /** B-type: 1 | 6 | 5 | 5 | 3 | 4 | 1 | 7. */
  lemma BLayout(a: string, a2: string, b: string, c: string, d: string, e: string, e2: string, f: string)
    requires |a| == 1 && |a2| == 6 && |b| == 5 && |c| == 5 && |d| == 3 && |e| == 4 && |e2| == 1 && |f| == 7
    ensures var w := a + a2 + b + c + d + e + e2 + f;
      |w| == 32 && Field(w, 31, 31) == a && Field(w, 30, 25) == a2 && Field(w, 24, 20) == b
      && Field(w, 19, 15) == c && Field(w, 14, 12) == d && Field(w, 11, 8) == e
      && Field(w, 7, 7) == e2 && Field(w, 6, 0) == f
  {
    var w := a + a2 + b + c + d + e + e2 + f;
    assert w[0..1] == a;
    assert w[1..7] == a2;
    assert w[7..12] == b;
    assert w[12..17] == c;
    assert w[17..20] == d;
    assert w[20..24] == e;
    assert w[24..25] == e2;
    assert w[25..32] == f;
  }

  /** J-type: 1 | 10 | 1 | 8 | 5 | 7. */
  lemma JLayout(a: string, b: string, c: string, d: string, e: string, f: string)
    requires |a| == 1 && |b| == 10 && |c| == 1 && |d| == 8 && |e| == 5 && |f| == 7
    ensures var w := a + b + c + d + e + f;
      |w| == 32 && Field(w, 31, 31) == a && Field(w, 30, 21) == b && Field(w, 20, 20) == c
      && Field(w, 19, 12) == d && Field(w, 11, 7) == e && Field(w, 6, 0) == f
  {
    var w := a + b + c + d + e + f;
    assert w[0..1] == a;
    assert w[1..11] == b;
    assert w[11..12] == c;
    assert w[12..20] == d;
    assert w[20..25] == e;
    assert w[25..32] == f;
  }

  /** U-type: 20 | 5 | 7. */
  lemma ULayout(a: string, e: string, f: string)
    requires |a| == 20 && |e| == 5 && |f| == 7
    ensures var w := a + e + f;
      |w| == 32 && Field(w, 31, 12) == a && Field(w, 11, 7) == e && Field(w, 6, 0) == f
  {
    var w := a + e + f;
    assert w[0..20] == a;
    assert w[20..25] == e;
    assert w[25..32] == f;
  }

  // ---------------------------------------------------------------------
  // Encoders, one per format
  // ---------------------------------------------------------------------

  /** R-type: `funct7 | rs2 | rs1 | funct3 | rd | opcode`. */
  function EncodeR(instr: string, rd: nat, rs1: nat, rs2: nat): string {
    Lookup(Funct7, instr) + Bits(rs2, 5) + Bits(rs1, 5) + Lookup(Funct3, instr) + Bits(rd, 5)
      + Lookup(Engine.OpcodeTable, instr)
  }

  /** The 12-bit field of a register-immediate instruction: the immediate,
      or for `srai` the shift amount with `0x10` in the six bits above it. */
  function IField(instr: string, imm: int): int
    requires Engine.IsShift(instr) ==> 0 <= imm < 64
  {
    if instr == "srai" then Engine.SraiOperand(imm) else imm
  }

  /** Register-immediate instructions: the immediate must fit 12 bits and a
      shift amount must be `0..63`; the word is
      `imm | rs1 | funct3 | rd | opcode`. */
  function EncodeI(instr: string, rd: nat, rs1: nat, imm: int): Option<string> {
    if imm > 2047 || imm < -2048 then None
    else if Engine.IsShift(instr) && (imm > 63 || imm < 0) then None
    else
      Some(Bits(IField(instr, imm), 12) + Bits(rs1, 5) + Lookup(Funct3, instr) + Bits(rd, 5)
        + Lookup(Engine.OpcodeTable, instr))
  }

  /** Loads and `jalr`: the same layout, with the 12-bit range check only. */
  function EncodeLoad(instr: string, rd: nat, rs1: nat, imm: int): Option<string> {
    if imm > 2047 || imm < -2048 then None
    else
      Some(Bits(imm, 12) + Bits(rs1, 5) + Lookup(Funct3, instr) + Bits(rd, 5)
        + Lookup(Engine.OpcodeTable, instr))
  }

  /** Stores: `imm >> 5 | rs2 | rs1 | funct3 | imm & 31 | opcode`. */
  function EncodeS(instr: string, rs2: nat, rs1: nat, imm: int): Option<string> {
    if imm > 2047 || imm < -2048 then None
    else
      Some(Bits(imm / 32, 7) + Bits(rs2, 5) + Bits(rs1, 5) + Lookup(Funct3, instr) + Bits(imm % 32, 5)
        + Lookup(Engine.OpcodeTable, instr))
  }

  /** The offset field of a branch or `jal`, in half-words, from the
      distance `d`: `d / 4 * 2` for a label, otherwise `(d - 1) / 2` when
      the operand is written with a minus sign and `d / 2` when it is not,
      all with C's truncating division. */
  function Halves(d: int, isLabel: bool, neg: bool): int {
    if isLabel then CDiv(d, 4) * 2 else CDiv(d + (if neg then -1 else 0), 2)
  }

  /** Branches: the distance must fit 13 bits; the word is
      `imm[12] | imm[10:5] | rs2 | rs1 | funct3 | imm[4:1] | imm[11] | opcode`,
      cut from the half-word field with shifts and masks. */
  function EncodeB(instr: string, rs1: nat, rs2: nat, target: Immediates.Imm, neg: bool): Option<string> {
    if target.value > 4095 || target.value < -4096 then None
    else
      var imm := Halves(target.value, target.flag, neg);
      var mid := (imm / 16) % 128;
      Some(Bits(imm / 2048, 1) + Bits(mid % 64, 6) + Bits(rs2, 5) + Bits(rs1, 5) + Lookup(Funct3, instr)
        + Bits(imm % 16, 4) + Bits(mid / 64, 1) + Lookup(Engine.OpcodeTable, instr))
  }

  /** `jal`: the distance must fit 21 bits; the word is
      `imm[20] | imm[10:1] | imm[11] | imm[19:12] | rd | opcode`. */
  function EncodeJ(instr: string, rd: nat, target: Immediates.Imm, neg: bool): Option<string> {
    if target.value > 1048575 || target.value < -1048576 then None
    else
      var imm := Halves(target.value, target.flag, neg);
      Some(Bits(imm / 0x8_0000, 1) + Bits(imm % 1024, 10) + Bits((imm / 1024) % 2, 1)
        + Bits((imm / 2048) % 256, 8) + Bits(rd, 5) + Lookup(Engine.OpcodeTable, instr))
  }

  /** `stoll(s, &pos, base)`: `None` where it throws, that is when there is
      no digit or the value does not fit a `long long`. */
  function Stoll(s: string, base: nat): (r: Option<Parsed>)
    requires base == 10 || base == 16
    ensures r.Some? ==> -TWO63 <= r.value.value < TWO63 && 1 <= r.value.pos <= |s|
    ensures ScanInteger(s, base).Some? && !ScanInteger(s, base).value.negative ==>
      (r.Some? <==> ScanInteger(s, base).value.magnitude < TWO63)
  {
    match ScanInteger(s, base)
    case None => None
    case Some(n) =>
      var v := if n.negative then -(n.magnitude as int) else n.magnitude;
      if -TWO63 <= v < TWO63 then Some(Parsed(v, n.end)) else None
  }

  /** The 20-bit field of `lui` and `auipc`: a value with bit 31 set
      (`imm >> 31 > 0`) gives its bits 31..12, any other value is used as
      it is and so gives its low 20 bits. */
  function UpperField(imm: int): int {
    if imm / TWO31 > 0 then imm / 4096 else imm
  }

  /** U-type: `field | rd | opcode`. */
  function EncodeU(instr: string, rd: nat, imm: int): string {
    Bits(UpperField(imm), 20) + Bits(rd, 5) + Lookup(Engine.OpcodeTable, instr)
  }

  /** The `lui` operand: the text must not start with a minus sign, is read
      by `stoll` in base 16 after `0x` and in base 10 otherwise, must be
      consumed entirely and must not exceed `4294967295`. */
  function LuiOperand(val: string): (r: Option<int>)
    ensures r.Some? ==> -TWO63 <= r.value <= 4294967295 && At(val, 0) != '-'
  {
    if At(val, 0) == '-' then None
    else
      var base := if At(val, 0) == '0' && At(val, 1) == 'x' then 16 else 10;
      match Stoll(val, base)
      case None => None
      case Some(p) =>
        if p.pos != |val| || p.value > 4294967295 then None
        else Some(p.value)
  }

  /** `lui`: a U-type word of the operand, or nothing when it is refused. */
  function EncodeLui(instr: string, rd: nat, val: string): Option<string> {
    match LuiOperand(val)
    case None => None
    case Some(v) => Some(EncodeU(instr, rd, v))
  }

  // ---------------------------------------------------------------------
  // Round trips: the reference decoders read back what was encoded
  // ---------------------------------------------------------------------

  lemma Pow2Fields()
    ensures Pow2(1) == 2 && Pow2(4) == 16 && Pow2(5) == 32 && Pow2(6) == 64
    ensures Pow2(8) == 256 && Pow2(10) == 1024 && Pow2(11) == 2048 && Pow2(12) == 4096
    ensures Pow2(19) == 0x8_0000 && Pow2(20) == 0x10_0000 && Pow2(31) == TWO31 && Pow2(32) == TWO32
  {
    Pow2Byte();
    Pow2Word();
    Pow2Add(8, 2);
    Pow2Add(8, 3);
    Pow2Add(8, 4);
    Pow2Add(16, 3);
    Pow2Add(16, 4);
    assert Pow2(4) == 16;
    Pow2Add(1, 4);
    Pow2Add(2, 4);
  }

  /** A register field reads back as the register number. */
  lemma RegisterField(r: nat)
    requires r < 32
    ensures |Bits(r, 5)| == 5 && IsBinary(Bits(r, 5)) && Value(Bits(r, 5), 2) == r
  {
    BitsValue(r, 5);
    Pow2Fields();
    DivModUnique(r, Pow2(5), 0, r);
  }

  /** An R-type word reads back field by field. */
  lemma RWord(f7: string, rs2: nat, rs1: nat, f3: string, rd: nat, op: string)
    requires rd < 32 && rs1 < 32 && rs2 < 32
    requires |f7| == 7 && IsBinary(f7) && |f3| == 3 && IsBinary(f3) && |op| == 7 && IsBinary(op)
    ensures var w := f7 + Bits(rs2, 5) + Bits(rs1, 5) + f3 + Bits(rd, 5) + op;
      && IsWord(w) && OpcodeOf(w) == op && Funct3Of(w) == f3 && Funct7Of(w) == f7
      && RdOf(w) == rd && Rs1Of(w) == rs1 && Rs2Of(w) == rs2
  {
    RegisterField(rd);
    RegisterField(rs1);
    RegisterField(rs2);
    var b, c, e := Bits(rs2, 5), Bits(rs1, 5), Bits(rd, 5);
    RLayout(f7, b, c, f3, e, op);
    BinaryConcat(f7, b);
    BinaryConcat(f7 + b, c);
    BinaryConcat(f7 + b + c, f3);
    BinaryConcat(f7 + b + c + f3, e);
    BinaryConcat(f7 + b + c + f3 + e, op);
  }

  /** R-type words carry the opcode, both function codes and the three
      registers. */
  lemma RRoundTrip(instr: string, rd: nat, rs1: nat, rs2: nat)
    requires instr in Engine.OpcodeTable && Engine.OpcodeTable[instr] == "0110011"
    requires rd < 32 && rs1 < 32 && rs2 < 32
    ensures var w := EncodeR(instr, rd, rs1, rs2);
      && IsWord(w) && OpcodeOf(w) == "0110011"
      && Funct3Of(w) == Lookup(Funct3, instr) && Funct7Of(w) == Lookup(Funct7, instr)
      && RdOf(w) == rd && Rs1Of(w) == rs1 && Rs2Of(w) == rs2
  {
    Funct3Shape(instr);
    Funct7Shape(instr);
    OpcodeShape(instr);
    RWord(Lookup(Funct7, instr), rs2, rs1, Lookup(Funct3, instr), rd, Lookup(Engine.OpcodeTable, instr));
  }

  /** An I-type word built from a field that fits 12 signed bits reads
      back field by field. */
  lemma IWord(field: int, rs1: nat, f3: string, rd: nat, op: string)
    requires -2048 <= field < 2048 && rs1 < 32 && rd < 32
    requires |f3| == 3 && IsBinary(f3) && |op| == 7 && IsBinary(op)
    ensures var w := Bits(field, 12) + Bits(rs1, 5) + f3 + Bits(rd, 5) + op;
      && IsWord(w) && OpcodeOf(w) == op && Funct3Of(w) == f3
      && RdOf(w) == rd && Rs1Of(w) == rs1 && ImmI(w) == field
  {
    Pow2Fields();
    SignedBits(field, 12);
    BitsValue(field, 12);
    RegisterField(rd);
    RegisterField(rs1);
    var a, c, e := Bits(field, 12), Bits(rs1, 5), Bits(rd, 5);
    ILayout(a, c, f3, e, op);
    BinaryConcat(a, c);
    BinaryConcat(a + c, f3);
    BinaryConcat(a + c + f3, e);
    BinaryConcat(a + c + f3 + e, op);
  }

  /** I-type words carry the opcode, `funct3`, both registers and the
      12-bit field; the field reads back as the immediate, or for `srai` as
      the shift amount with `0x10` above it. The assembler refuses exactly
      the immediates the simulator refuses for these instructions. */
  lemma IRoundTrip(instr: string, rd: nat, rs1: nat, imm: int)
    requires instr in Engine.OpcodeTable && Engine.OpcodeTable[instr] == "0010011"
    requires rd < 32 && rs1 < 32
    ensures var r := EncodeI(instr, rd, rs1, imm);
      && (r.None? <==> !Engine.Fits12(imm) || (Engine.IsShift(instr) && !(0 <= imm < 64)))
      && (r.Some? ==>
            && IsWord(r.value) && OpcodeOf(r.value) == "0010011" && Funct3Of(r.value) == Lookup(Funct3, instr)
            && RdOf(r.value) == rd && Rs1Of(r.value) == rs1
            && (instr != "srai" ==> ImmI(r.value) == imm)
            && (instr == "srai" ==> ImmI(r.value) % 64 == imm && ImmI(r.value) / 64 == 0x10))
  {
    if EncodeI(instr, rd, rs1, imm).Some? {
      Funct3Shape(instr);
      OpcodeShape(instr);
      IWord(IField(instr, imm), rs1, Lookup(Funct3, instr), rd, Lookup(Engine.OpcodeTable, instr));
    }
  }

  /** Load and `jalr` words carry the opcode, `funct3`, both registers and
      the offset; only an offset outside 12 bits is refused. */
  lemma LoadRoundTrip(instr: string, rd: nat, rs1: nat, imm: int)
    requires instr in Engine.OpcodeTable
    requires Engine.OpcodeTable[instr] == "0000011" || Engine.OpcodeTable[instr] == "1100111"
    requires rd < 32 && rs1 < 32
    ensures var r := EncodeLoad(instr, rd, rs1, imm);
      && (r.None? <==> !Engine.Fits12(imm))
      && (r.Some? ==>
            && IsWord(r.value) && OpcodeOf(r.value) == Engine.OpcodeTable[instr]
            && Funct3Of(r.value) == Lookup(Funct3, instr)
            && RdOf(r.value) == rd && Rs1Of(r.value) == rs1 && ImmI(r.value) == imm)
  {
    if EncodeLoad(instr, rd, rs1, imm).Some? {
      Funct3Shape(instr);
      OpcodeShape(instr);
      IWord(imm, rs1, Lookup(Funct3, instr), rd, Lookup(Engine.OpcodeTable, instr));
    }
  }

  /** The two pieces of a store offset, `imm >> 5` and `imm & 31`, are its
      12-bit field. */
  lemma SImmediate(imm: int)
    ensures Bits(imm / 32, 7) + Bits(imm % 32, 5) == Bits(imm, 12)
  {
    Pow2Fields();
    BitsSplit(imm, 7, 5);
    BitsMod(imm, 5);
  }

  /** The two pieces of a store offset that fits 12 signed bits are
      binary and read back, together, as the offset. */
  lemma SFields(imm: int)
    requires -2048 <= imm < 2048
    ensures IsBinary(Bits(imm / 32, 7)) && IsBinary(Bits(imm % 32, 5))
    ensures Signed(Value(Bits(imm / 32, 7) + Bits(imm % 32, 5), 2), 12) == imm
  {
    Pow2Fields();
    SImmediate(imm);
    SignedBits(imm, 12);
    BitsValue(imm / 32, 7);
    BitsValue(imm % 32, 5);
  }

  /** An S-type word built from an offset that fits 12 signed bits reads
      back field by field. */
  lemma SWord(imm: int, rs2: nat, rs1: nat, f3: string, op: string)
    requires -2048 <= imm < 2048 && rs2 < 32 && rs1 < 32
    requires |f3| == 3 && IsBinary(f3) && |op| == 7 && IsBinary(op)
    ensures var w := Bits(imm / 32, 7) + Bits(rs2, 5) + Bits(rs1, 5) + f3 + Bits(imm % 32, 5) + op;
      && IsWord(w) && OpcodeOf(w) == op && Funct3Of(w) == f3
      && Rs1Of(w) == rs1 && Rs2Of(w) == rs2 && ImmS(w) == imm
  {
    RegisterField(rs2);
    RegisterField(rs1);
    var hi, b, c, lo := Bits(imm / 32, 7), Bits(rs2, 5), Bits(rs1, 5), Bits(imm % 32, 5);
    SFields(imm);
    RLayout(hi, b, c, f3, lo, op);
    BinaryConcat(hi, b);
    BinaryConcat(hi + b, c);
    BinaryConcat(hi + b + c, f3);
    BinaryConcat(hi + b + c + f3, lo);
    BinaryConcat(hi + b + c + f3 + lo, op);
  }

  /** S-type words carry the opcode, `funct3`, both registers and the
      offset, split around the `rs2` and `rs1` fields. */
  lemma SRoundTrip(instr: string, rs2: nat, rs1: nat, imm: int)
    requires instr in Engine.OpcodeTable && Engine.OpcodeTable[instr] == "0100011"
    requires rs2 < 32 && rs1 < 32
    ensures var r := EncodeS(instr, rs2, rs1, imm);
      && (r.None? <==> !Engine.Fits12(imm))
      && (r.Some? ==>
            && IsWord(r.value) && OpcodeOf(r.value) == "0100011" && Funct3Of(r.value) == Lookup(Funct3, instr)
            && Rs1Of(r.value) == rs1 && Rs2Of(r.value) == rs2 && ImmS(r.value) == imm)
  {
    if EncodeS(instr, rs2, rs1, imm).Some? {
      Funct3Shape(instr);
      OpcodeShape(instr);
      SWord(imm, rs2, rs1, Lookup(Funct3, instr), Lookup(Engine.OpcodeTable, instr));
    }
  }

  /** Doubling an `n`-bit signed value and reading the `n + 1`-bit pattern
      back gives twice the value: the encoders store offsets halved. */
  lemma SignedDouble(h: int, n: nat)
    requires n >= 1 && -(Pow2(n - 1) as int) <= h < Pow2(n - 1)
    ensures Signed(2 * (h % Pow2(n)), n + 1) == 2 * h
  {
    var p: int := Pow2(n);
    assert p == 2 * Pow2(n - 1);
    assert Pow2(n + 1) == 2 * p;
    if h >= 0 {
      DivModUnique(h, p, 0, h);
    } else {
      DivModUnique(h, p, -1, h + p);
    }
  }

  /** Bit 6 of `q mod 128` is bit 6 of `q`. */
  lemma HighBit(q: int)
    ensures ((q % 128) / 64) % 2 == (q / 64) % 2 && 0 <= (q % 128) / 64 < 2
  {
    var A, m := q / 128, q % 128;
    var t, u := m / 64, m % 64;
    assert q == 64 * (2 * A + t) + u;
    DivModUnique(q, 64, 2 * A + t, u);
    DivModUnique(2 * A + t, 2, A, t);
  }

  /** The four pieces of a halved branch offset, in the order the B-type
      word reads them (bit 12, bit 11, bits 10..5, bits 4..1), are its
      12-bit field. */
  lemma BImmediate(h: int)
    ensures var mid := (h / 16) % 128;
      Bits(h / 2048, 1) + Bits(mid / 64, 1) + Bits(mid % 64, 6) + Bits(h % 16, 4) == Bits(h, 12)
  {
    BPieces(h);
    BSplits(h);
  }

  /** The pieces of a halved branch offset, each as a field of the offset
      itself. */
  lemma BPieces(h: int)
    ensures var mid := (h / 16) % 128;
      && Bits(h % 16, 4) == Bits(h, 4) && Bits(mid % 64, 6) == Bits(h / 16, 6)
      && Bits(mid / 64, 1) == Bits(h / 1024, 1)
  {
    var q := h / 16;
    var mid := q % 128;
    assert Bits(h % 16, 4) == Bits(h, 4) by {
      Pow2Fields();
      BitsMod(h, 4);
    }
    assert Bits(mid % 64, 6) == Bits(q, 6) by {
      Pow2Fields();
      ModNest(q, 64, 2);
      BitsMod(q, 6);
    }
    assert Bits(mid / 64, 1) == Bits(h / 1024, 1) by {
      Pow2Fields();
      DivNest(h, 16, 64);
      HighBit(q);
      BitsCongruent(mid / 64, h / 1024, 1);
    }
  }

  /** A 12-bit field is bit 11, bit 10, bits 9..4 and bits 3..0. */
  lemma BSplits(h: int)
    ensures Bits(h, 12) == Bits(h / 2048, 1) + Bits(h / 1024, 1) + Bits(h / 16, 6) + Bits(h, 4)
  {
    Pow2Fields();
    BitsSplit4(h, 1, 1, 6, 4);
  }

  /** A B-type word built from a halved offset that fits 12 signed bits
      reads back field by field; its immediate is twice the halved offset. */
  lemma BWord(h: int, rs2: nat, rs1: nat, f3: string, op: string)
    requires -2048 <= h < 2048 && rs2 < 32 && rs1 < 32
    requires |f3| == 3 && IsBinary(f3) && |op| == 7 && IsBinary(op)
    ensures var mid := (h / 16) % 128;
      var w := Bits(h / 2048, 1) + Bits(mid % 64, 6) + Bits(rs2, 5) + Bits(rs1, 5) + f3
        + Bits(h % 16, 4) + Bits(mid / 64, 1) + op;
      && IsWord(w) && OpcodeOf(w) == op && Funct3Of(w) == f3
      && Rs1Of(w) == rs1 && Rs2Of(w) == rs2 && ImmB(w) == 2 * h
  {
    Pow2Fields();
    var mid := (h / 16) % 128;
    var a, a2, b, c, e, e2 := Bits(h / 2048, 1), Bits(mid % 64, 6), Bits(rs2, 5), Bits(rs1, 5), Bits(h % 16, 4), Bits(mid / 64, 1);
    RegisterField(rs2);
    RegisterField(rs1);
    BitsValue(h / 2048, 1);
    BitsValue(mid % 64, 6);
    BitsValue(h % 16, 4);
    BitsValue(mid / 64, 1);
    BLayout(a, a2, b, c, f3, e, e2, op);
    BinaryConcat(a, a2);
    BinaryConcat(a + a2, b);
    BinaryConcat(a + a2 + b, c);
    BinaryConcat(a + a2 + b + c, f3);
    BinaryConcat(a + a2 + b + c + f3, e);
    BinaryConcat(a + a2 + b + c + f3 + e, e2);
    BinaryConcat(a + a2 + b + c + f3 + e + e2, op);
    BImmediate(h);
    BitsValue(h, 12);
    SignedDouble(h, 12);
  }

  /** Halving keeps a distance below `2p` in magnitude below `p`. */
  lemma HalvesRange(d: int, isLabel: bool, neg: bool, p: int)
    requires p >= 2 && -2 * p <= d < 2 * p
    ensures -p <= Halves(d, isLabel, neg) < p
  {
  }

  /** What halving keeps: a label distance that is a multiple of 4 is kept
      whole, and a number whose sign the minus flag reports truthfully is
      rounded down to even. A negative number written without a minus sign
      (hexadecimal or binary text) is rounded toward zero instead. */
  lemma HalvesExact(d: int, isLabel: bool, neg: bool)
    ensures isLabel && d % 4 == 0 ==> 2 * Halves(d, isLabel, neg) == d
    ensures !isLabel && (d < 0 ==> neg) && (d > 0 ==> !neg) ==> 2 * Halves(d, isLabel, neg) == d - d % 2
    ensures !isLabel && d < 0 && !neg ==> 2 * Halves(d, isLabel, neg) == d + d % 2
  {
  }

  /** B-type words carry the opcode, `funct3` and both registers, and the
      offset the branch will add to `pc` is twice the halved target. The
      assembler refuses exactly the targets the simulator refuses for a
      branch. */
  lemma BRoundTrip(instr: string, rs1: nat, rs2: nat, target: Immediates.Imm, neg: bool)
    requires instr in Engine.OpcodeTable && Engine.OpcodeTable[instr] == "1100011"
    requires rs1 < 32 && rs2 < 32
    ensures var r := EncodeB(instr, rs1, rs2, target, neg);
      && (r.None? <==> !Engine.Fits13(target.value))
      && (r.Some? ==>
            && IsWord(r.value) && OpcodeOf(r.value) == "1100011" && Funct3Of(r.value) == Lookup(Funct3, instr)
            && Rs1Of(r.value) == rs1 && Rs2Of(r.value) == rs2
            && ImmB(r.value) == 2 * Halves(target.value, target.flag, neg))
  {
    if EncodeB(instr, rs1, rs2, target, neg).Some? {
      Funct3Shape(instr);
      OpcodeShape(instr);
      HalvesRange(target.value, target.flag, neg, 2048);
      BWord(Halves(target.value, target.flag, neg), rs2, rs1, Lookup(Funct3, instr), Lookup(Engine.OpcodeTable, instr));
    }
  }

  /** The pieces of a halved jump offset, each as a field of the offset
      itself. */
  lemma JPieces(h: int)
    ensures Bits((h / 2048) % 256, 8) == Bits(h / 2048, 8)
    ensures Bits((h / 1024) % 2, 1) == Bits(h / 1024, 1)
    ensures Bits(h % 1024, 10) == Bits(h, 10)
  {
    Pow2Fields();
    BitsMod(h / 2048, 8);
    BitsMod(h / 1024, 1);
    BitsMod(h, 10);
  }

  /** The four pieces of a halved jump offset, in the order the J-type word
      reads them (bit 20, bits 19..12, bit 11, bits 10..1), are its 20-bit
      field. */
  lemma JImmediate(h: int)
    ensures Bits(h / 0x8_0000, 1) + Bits((h / 2048) % 256, 8) + Bits((h / 1024) % 2, 1) + Bits(h % 1024, 10)
      == Bits(h, 20)
  {
    JPieces(h);
    Pow2Fields();
    BitsSplit4(h, 1, 8, 1, 10);
  }

  /** A J-type word built from a halved offset that fits 20 signed bits
      reads back field by field; its immediate is twice the halved offset. */
  lemma JWord(h: int, rd: nat, op: string)
    requires -0x8_0000 <= h < 0x8_0000 && rd < 32 && |op| == 7 && IsBinary(op)
    ensures var w := Bits(h / 0x8_0000, 1) + Bits(h % 1024, 10) + Bits((h / 1024) % 2, 1)
        + Bits((h / 2048) % 256, 8) + Bits(rd, 5) + op;
      && IsWord(w) && OpcodeOf(w) == op && RdOf(w) == rd && ImmJ(w) == 2 * h
  {
    Pow2Fields();
    var a, b, c, d, e := Bits(h / 0x8_0000, 1), Bits(h % 1024, 10), Bits((h / 1024) % 2, 1), Bits((h / 2048) % 256, 8), Bits(rd, 5);
    RegisterField(rd);
    BitsValue(h / 0x8_0000, 1);
    BitsValue(h % 1024, 10);
    BitsValue((h / 1024) % 2, 1);
    BitsValue((h / 2048) % 256, 8);
    JLayout(a, b, c, d, e, op);
    BinaryConcat(a, b);
    BinaryConcat(a + b, c);
    BinaryConcat(a + b + c, d);
    BinaryConcat(a + b + c + d, e);
    BinaryConcat(a + b + c + d + e, op);
    JImmediate(h);
    BitsValue(h, 20);
    SignedDouble(h, 20);
  }

  /** J-type words carry the opcode and the destination register, and the
      offset the jump will add to `pc` is twice the halved target. The
      assembler refuses exactly the targets the simulator refuses for
      `jal`. */
  lemma JRoundTrip(instr: string, rd: nat, target: Immediates.Imm, neg: bool)
    requires instr in Engine.OpcodeTable && Engine.OpcodeTable[instr] == "1101111"
    requires rd < 32
    ensures var r := EncodeJ(instr, rd, target, neg);
      && (r.None? <==> !Engine.Fits21(target.value))
      && (r.Some? ==>
            && IsWord(r.value) && OpcodeOf(r.value) == "1101111" && RdOf(r.value) == rd
            && ImmJ(r.value) == 2 * Halves(target.value, target.flag, neg))
  {
    if EncodeJ(instr, rd, target, neg).Some? {
      OpcodeShape(instr);
      HalvesRange(target.value, target.flag, neg, 0x8_0000);
      JWord(Halves(target.value, target.flag, neg), rd, Lookup(Engine.OpcodeTable, instr));
    }
  }

  /** A U-type word reads back its opcode, its destination and, as the
      immediate, the low 20 bits of the field above twelve zero bits. */
  lemma UWord(field: int, rd: nat, op: string)
    requires rd < 32 && |op| == 7 && IsBinary(op)
    ensures var w := Bits(field, 20) + Bits(rd, 5) + op;
      && IsWord(w) && OpcodeOf(w) == op && RdOf(w) == rd
      && ImmU(w) == Signed((field % 0x10_0000) * 4096, 32)
  {
    Pow2Fields();
    var a, e := Bits(field, 20), Bits(rd, 5);
    RegisterField(rd);
    BitsValue(field, 20);
    ULayout(a, e, op);
    BinaryConcat(a, e);
    BinaryConcat(a + e, op);
  }

  /** `lui` and `auipc` words: below `2^31` the upper immediate is the
      value the simulator's `lui` loads (the low 20 bits, sign-extended,
      shifted left by 12); from `2^31` to `2^32` it is the value with its low
      12 bits cleared, read as a signed 32-bit word. */
  lemma URoundTrip(instr: string, rd: nat, v: int)
    requires instr in Engine.OpcodeTable
    requires Engine.OpcodeTable[instr] == "0110111" || Engine.OpcodeTable[instr] == "0010111"
    requires rd < 32
    ensures var w := EncodeU(instr, rd, v);
      && IsWord(w) && OpcodeOf(w) == Engine.OpcodeTable[instr] && RdOf(w) == rd
      && (v < TWO31 ==> ImmU(w) == Engine.LuiValue(v))
      && (TWO31 <= v < TWO32 ==> ImmU(w) == v - v % 4096 - TWO32)
  {
    OpcodeShape(instr);
    UWord(UpperField(v), rd, Lookup(Engine.OpcodeTable, instr));
    if v < TWO31 {
      UpperLow(v);
    } else if v < TWO32 {
      UpperHigh(v);
    }
  }

  /** Below `2^31` the field is the value itself, and its low 20 bits above
      twelve zero bits read as `lui`'s value. */
  lemma UpperLow(v: int)
    requires v < TWO31
    ensures Signed((UpperField(v) % 0x10_0000) * 4096, 32) == Engine.LuiValue(v)
  {
    Pow2Fields();
    assert v / TWO31 <= 0;
    assert U64(v) % 0x10_0000 == v % 0x10_0000 by {
      assert TWO64 == 0x10_0000 * 0x1000_0000_0000;
      ModNest(v, 0x10_0000, 0x1000_0000_0000);
    }
  }

  /** From `2^31` to `2^32` the field is the value shifted right by 12. */
  lemma UpperHigh(v: int)
    requires TWO31 <= v < TWO32
    ensures Signed((UpperField(v) % 0x10_0000) * 4096, 32) == v - v % 4096 - TWO32
  {
    Pow2Fields();
    assert v / TWO31 == 1;
    var field := v / 4096;
    assert UpperField(v) == field;
    DivModUnique(field, 0x10_0000, 0, field);
    assert field * 4096 == v - v % 4096;
  }

  /** A `lui` operand that is scanned whole as a non-negative numeral in
      the base its prefix selects is accepted exactly when it is at most
      `2^32 - 1`. */
  lemma LuiWhole(val: string, n: nat)
    requires At(val, 0) != '-'
    requires var base := if At(val, 0) == '0' && At(val, 1) == 'x' then 16 else 10;
      ScanInteger(val, base) == Some(Numeral(false, n, |val|))
    ensures LuiOperand(val) == if n <= 4294967295 then Some(n) else None
  {
    var base := if At(val, 0) == '0' && At(val, 1) == 'x' then 16 else 10;
    assert Stoll(val, base) == if n < TWO63 then Some(Parsed(n, |val|)) else None;
  }

  /** A decimal `lui` operand is accepted exactly when it is at most
      `2^32 - 1`, as its value; a leading minus sign is refused. */
  lemma LuiDecimal(n: nat)
    ensures LuiOperand(Digits(n, 10)) == if n <= 4294967295 then Some(n) else None
    ensures LuiOperand("-" + Digits(n, 10)).None?
  {
    var s := Digits(n, 10);
    ScanDecimal(n);
    assert At(s, 0) != '-' && !(At(s, 0) == '0' && At(s, 1) == 'x') by {
      assert DigitValue(s[0]) < 10;
      if |s| > 1 {
        assert DigitValue(s[1]) < 10;
      }
    }
    LuiWhole(s, n);
    assert At("-" + s, 0) == '-';
  }

  /** A `0x` hexadecimal `lui` operand is accepted exactly when it is at
      most `0xffffffff`, as its value. */
  lemma LuiHex(n: nat)
    ensures LuiOperand("0x" + Digits(n, 16)) == if n <= 4294967295 then Some(n) else None
  {
    var s := "0x" + Digits(n, 16);
    ScanHex(n);
    assert At(s, 0) == '0' && At(s, 1) == 'x';
    LuiWhole(s, n);
  }

  // ---------------------------------------------------------------------
  // Labels: the assembled offset is the one the simulator takes
  // ---------------------------------------------------------------------

  /** A branch to a known label: the assembler refuses it exactly when the
      simulator does for its distance, and a distance that is a multiple
      of 4 is encoded exactly, as the displacement the simulator's branch
      adds to `pc`. */
  lemma BranchToLabel(instr: string, rs1: nat, rs2: nat, str: string, pc: int, labels: map<string, int>)
    requires instr in Engine.OpcodeTable && Engine.OpcodeTable[instr] == "1100011"
    requires rs1 < 32 && rs2 < 32
    requires Immediates.LabelLike(str, true) && str in labels
    ensures var d := Immediates.GetImmediate(str, pc, labels, true).value;
      var t := Immediates.AsmImmediate(str, pc, labels, true);
      && t == Some(Immediates.Imm(d, true))
      && var r := EncodeB(instr, rs1, rs2, t.value, At(str, 0) == '-');
      && (r.None? <==> !Engine.Fits13(d))
      && (r.Some? && d % 4 == 0 ==> ImmB(r.value) == d && Engine.Displacement(d) == Some(d))
  {
    Immediates.AssemblerAgrees(str, pc, labels, true);
    var d := Immediates.GetImmediate(str, pc, labels, true).value;
    BRoundTrip(instr, rs1, rs2, Immediates.Imm(d, true), At(str, 0) == '-');
    HalvesExact(d, true, At(str, 0) == '-');
  }

  /** A jump to a known label, likewise against the simulator's `jal`. */
  lemma JumpToLabel(instr: string, rd: nat, str: string, pc: int, labels: map<string, int>)
    requires instr in Engine.OpcodeTable && Engine.OpcodeTable[instr] == "1101111"
    requires rd < 32
    requires Immediates.LabelLike(str, true) && str in labels
    ensures var d := Immediates.GetImmediate(str, pc, labels, true).value;
      var t := Immediates.AsmImmediate(str, pc, labels, true);
      && t == Some(Immediates.Imm(d, true))
      && var r := EncodeJ(instr, rd, t.value, At(str, 0) == '-');
      && (r.None? <==> !Engine.Fits21(d))
      && (r.Some? && d % 4 == 0 ==> ImmJ(r.value) == d && Engine.Displacement(d) == Some(d))
  {
    Immediates.AssemblerAgrees(str, pc, labels, true);
    var d := Immediates.GetImmediate(str, pc, labels, true).value;
    JRoundTrip(instr, rd, Immediates.Imm(d, true), At(str, 0) == '-');
    HalvesExact(d, true, At(str, 0) == '-');
  }

  // ---------------------------------------------------------------------
  // Lines: the branches of `convert`
  // ---------------------------------------------------------------------

  /** What `convert` makes of a line: nothing (a comment or a line without
      a mnemonic), a machine word, or the end of the assembly (an unknown
      mnemonic, a malformed operand or a value out of range). */
  datatype Assembled = Skip | Word(bits: string) | Stop

  function Emit(w: Option<string>): Assembled {
    if w.None? then Stop else Word(w.value)
  }

  /** `getArguments` in the assembler: the same reading as the simulator's,
      except that every error ends the assembly. */
  function Arguments(count: nat, args: string): (r: Option<seq<string>>)
    ensures r.Some? ==> |r.value| == count
  {
    var a := Operands.GetArguments(count, args);
    if a.err then None else Some(a.arguments)
  }

  /** `rd, rs1, rs2`: the word names the three registers. */
  function RLine(instr: string, args: string): (r: Assembled)
    requires instr in Engine.OpcodeTable && Engine.OpcodeTable[instr] == "0110011"
    ensures r != Skip
    ensures r.Word? ==>
      && Arguments(3, args).Some?
      && var a := Arguments(3, args).value;
      && IsWord(r.bits) && OpcodeOf(r.bits) == "0110011"
      && RdOf(r.bits) == Registers.GetRegister(a[0]) && Rs1Of(r.bits) == Registers.GetRegister(a[1])
      && Rs2Of(r.bits) == Registers.GetRegister(a[2])
  {
    match Arguments(3, args)
    case None => Stop
    case Some(a) =>
      var rd, rs1, rs2 := Registers.Register(a[0]), Registers.Register(a[1]), Registers.Register(a[2]);
      if rd.None? || rs1.None? || rs2.None? then Stop
      else
        RRoundTrip(instr, rd.value, rs1.value, rs2.value);
        Word(EncodeR(instr, rd.value, rs1.value, rs2.value))
  }

  /** `rd, rs1, imm`: the word names both registers and carries the
      immediate as the simulator reads it. */
  function ILine(instr: string, args: string, pc: int, labels: map<string, int>): (r: Assembled)
    requires instr in Engine.OpcodeTable && Engine.OpcodeTable[instr] == "0010011"
    ensures r != Skip
    ensures r.Word? ==>
      && Arguments(3, args).Some?
      && var a := Arguments(3, args).value;
      && IsWord(r.bits) && OpcodeOf(r.bits) == "0010011"
      && RdOf(r.bits) == Registers.GetRegister(a[0]) && Rs1Of(r.bits) == Registers.GetRegister(a[1])
      && (instr != "srai" ==> ImmI(r.bits) == Immediates.GetImmediate(a[2], pc, labels, false).value)
  {
    match Arguments(3, args)
    case None => Stop
    case Some(a) =>
      var rd, rs1 := Registers.Register(a[0]), Registers.Register(a[1]);
      var imm := Immediates.AsmImmediate(a[2], pc, labels, false);
      if rd.None? || rs1.None? || imm.None? then Stop
      else
        IRoundTrip(instr, rd.value, rs1.value, imm.value.value);
        Immediates.AssemblerAgrees(a[2], pc, labels, false);
        Emit(EncodeI(instr, rd.value, rs1.value, imm.value.value))
  }

  /** `rd, imm(rs1)`: loads and `jalr`. */
  function LoadLine(instr: string, args: string, pc: int, labels: map<string, int>): (r: Assembled)
    requires instr in Engine.OpcodeTable
    requires Engine.OpcodeTable[instr] == "0000011" || Engine.OpcodeTable[instr] == "1100111"
    ensures r != Skip
    ensures r.Word? ==>
      && Arguments(3, args).Some?
      && var a := Arguments(3, args).value;
      && IsWord(r.bits) && OpcodeOf(r.bits) == Engine.OpcodeTable[instr]
      && RdOf(r.bits) == Registers.GetRegister(a[0]) && Rs1Of(r.bits) == Registers.GetRegister(a[2])
      && ImmI(r.bits) == Immediates.GetImmediate(a[1], pc, labels, false).value
  {
    match Arguments(3, args)
    case None => Stop
    case Some(a) =>
      var rd, rs1 := Registers.Register(a[0]), Registers.Register(a[2]);
      var imm := Immediates.AsmImmediate(a[1], pc, labels, false);
      if rd.None? || rs1.None? || imm.None? then Stop
      else
        LoadRoundTrip(instr, rd.value, rs1.value, imm.value.value);
        Immediates.AssemblerAgrees(a[1], pc, labels, false);
        Emit(EncodeLoad(instr, rd.value, rs1.value, imm.value.value))
  }

  /** `rs2, imm(rs1)`: stores. */
  function SLine(instr: string, args: string, pc: int, labels: map<string, int>): (r: Assembled)
    requires instr in Engine.OpcodeTable && Engine.OpcodeTable[instr] == "0100011"
    ensures r != Skip
    ensures r.Word? ==>
      && Arguments(3, args).Some?
      && var a := Arguments(3, args).value;
      && IsWord(r.bits) && OpcodeOf(r.bits) == "0100011"
      && Rs2Of(r.bits) == Registers.GetRegister(a[0]) && Rs1Of(r.bits) == Registers.GetRegister(a[2])
      && ImmS(r.bits) == Immediates.GetImmediate(a[1], pc, labels, false).value
  {
    match Arguments(3, args)
    case None => Stop
    case Some(a) =>
      var rs2, rs1 := Registers.Register(a[0]), Registers.Register(a[2]);
      var imm := Immediates.AsmImmediate(a[1], pc, labels, false);
      if rs2.None? || rs1.None? || imm.None? then Stop
      else
        SRoundTrip(instr, rs2.value, rs1.value, imm.value.value);
        Immediates.AssemblerAgrees(a[1], pc, labels, false);
        Emit(EncodeS(instr, rs2.value, rs1.value, imm.value.value))
  }

  /** `rs1, rs2, target`: branches. */
  function BLine(instr: string, args: string, pc: int, labels: map<string, int>): (r: Assembled)
    requires instr in Engine.OpcodeTable && Engine.OpcodeTable[instr] == "1100011"
    ensures r != Skip
    ensures r.Word? ==>
      && Arguments(3, args).Some?
      && var a := Arguments(3, args).value;
      && IsWord(r.bits) && OpcodeOf(r.bits) == "1100011"
      && Rs1Of(r.bits) == Registers.GetRegister(a[0]) && Rs2Of(r.bits) == Registers.GetRegister(a[1])
  {
    match Arguments(3, args)
    case None => Stop
    case Some(a) =>
      var rs1, rs2 := Registers.Register(a[0]), Registers.Register(a[1]);
      var target := Immediates.AsmImmediate(a[2], pc, labels, true);
      if rs1.None? || rs2.None? || target.None? then Stop
      else
        BRoundTrip(instr, rs1.value, rs2.value, target.value, At(a[2], 0) == '-');
        Emit(EncodeB(instr, rs1.value, rs2.value, target.value, At(a[2], 0) == '-'))
  }

  /** `rd, target`: `jal`. */
  function JLine(instr: string, args: string, pc: int, labels: map<string, int>): (r: Assembled)
    requires instr in Engine.OpcodeTable && Engine.OpcodeTable[instr] == "1101111"
    ensures r != Skip
    ensures r.Word? ==>
      && Arguments(2, args).Some?
      && IsWord(r.bits) && OpcodeOf(r.bits) == "1101111"
      && RdOf(r.bits) == Registers.GetRegister(Arguments(2, args).value[0])
  {
    match Arguments(2, args)
    case None => Stop
    case Some(a) =>
      var rd := Registers.Register(a[0]);
      var target := Immediates.AsmImmediate(a[1], pc, labels, true);
      if rd.None? || target.None? then Stop
      else
        JRoundTrip(instr, rd.value, target.value, At(a[1], 0) == '-');
        Emit(EncodeJ(instr, rd.value, target.value, At(a[1], 0) == '-'))
  }

  /** `rd, value`: `lui` reads its operand text itself; `auipc` reads an
      immediate. */
  function ULine(instr: string, args: string, pc: int, labels: map<string, int>): (r: Assembled)
    requires instr in Engine.OpcodeTable
    requires Engine.OpcodeTable[instr] == "0110111" || Engine.OpcodeTable[instr] == "0010111"
    ensures r != Skip
    ensures r.Word? ==>
      && Arguments(2, args).Some?
      && IsWord(r.bits) && OpcodeOf(r.bits) == Engine.OpcodeTable[instr]
      && RdOf(r.bits) == Registers.GetRegister(Arguments(2, args).value[0])
  {
    match Arguments(2, args)
    case None => Stop
    case Some(a) =>
      var rd := Registers.Register(a[0]);
      if rd.None? then Stop
      else if Engine.OpcodeTable[instr] == "0110111" then
        match LuiOperand(a[1])
        case None => Stop
        case Some(v) =>
          URoundTrip(instr, rd.value, v);
          Word(EncodeU(instr, rd.value, v))
      else
        match Immediates.AsmImmediate(a[1], pc, labels, false)
        case None => Stop
        case Some(imm) =>
          URoundTrip(instr, rd.value, imm.value);
          Word(EncodeU(instr, rd.value, imm.value))
  }

  /** The branches of `convert`, chosen by the mnemonic's opcode. */
  function Encode(instr: string, args: string, pc: int, labels: map<string, int>): (r: Assembled)
    requires instr in Engine.OpcodeTable
    ensures r.Word? ==> IsWord(r.bits) && OpcodeOf(r.bits) == Engine.OpcodeTable[instr]
  {
    var code := Engine.OpcodeTable[instr];
    if code == "0110011" then RLine(instr, args)
    else if code == "0010011" then ILine(instr, args, pc, labels)
    else if code == "0000011" || code == "1100111" then LoadLine(instr, args, pc, labels)
    else if code == "0100011" then SLine(instr, args, pc, labels)
    else if code == "1100011" then BLine(instr, args, pc, labels)
    else if code == "1101111" then JLine(instr, args, pc, labels)
    else if code == "0110111" || code == "0010111" then ULine(instr, args, pc, labels)
    else Skip
  }

  /** One line, after its comment has been cut off: a line starting with
      `;` or without a mnemonic is skipped, an unknown mnemonic ends the
      assembly, and a word always has the mnemonic's opcode. */
  function AssembleLine(line: string, pc: int, labels: map<string, int>): (r: Assembled)
    ensures r.Word? ==>
      var instr := Engine.DecodeFrom(line, -1, 0).instr;
      instr in Engine.OpcodeTable && IsWord(r.bits) && OpcodeOf(r.bits) == Engine.OpcodeTable[instr]
  {
    if At(line, 0) == ';' then Skip
    else
      var d := Engine.DecodeFrom(line, -1, 0);
      if d.instr == "" then Skip
      else if d.instr !in Engine.OpcodeTable then Stop
      else Encode(d.instr, d.args, pc, labels)
  }

  /** The main loop's output for one line: the word in hexadecimal, eight
      lower-case digits whose value is the word's. */
  method AssembleHex(line: string, pc: int, labels: map<string, int>) returns (hex: Option<string>)
    ensures hex.Some? <==> AssembleLine(line, pc, labels).Word?
    ensures hex.Some? ==>
      && |hex.value| == 8 && Value(hex.value, 16) == Value(AssembleLine(line, pc, labels).bits, 2)
      && forall k :: 0 <= k < 8 ==> '0' <= hex.value[k] <= '9' || 'a' <= hex.value[k] <= 'f'
  {
    var a := AssembleLine(line, pc, labels);
    if a.Word? {
      var digits := BinToHex(a.bits);
      hex := Some(digits);
    } else {
      hex := None;
    }
  }
}
