/** One instruction of the simulator (`convert`): the line is cut into a
    mnemonic and its operand text, the mnemonic's opcode picks the format,
    the operands are read, and the instruction changes the registers,
    memory, the cache and the call-stack flags. The outcome is the pair the
    source returns: `-1` for an error that ends the run, `-2` for a
    breakpoint, `(0, false)` to fall through to the next line and
    `(target, true)` for a transfer of control. */
module Engine {
  import opened Arith
  import opened Wrappers
  import opened Parse
  import opened Memory
  import opened Registers
  import opened Immediates
  import opened Operands
  import opened Alu
  import opened CacheSim
  import opened CacheAccess

  /** A frame of the call stack: the function's name and a line number. */
  datatype Frame = Frame(name: string, line: int)

  /** The state one instruction reads and changes: the 32 registers,
      memory, the cache with its access timer and the `rand()` values to
      come, the call stack, and the flags `funcCall` and `funcReturn` that
      tell the debugger a `jal` or a `jalr` was executed. */
  datatype Machine = Machine(
    regs: seq<i64>, mem: Mem, cache: Cache, timer: int, rands: seq<nat>,
    stack: seq<Frame>, funcCall: bool, funcReturn: bool)

  /** A machine the instructions can run on: 32 registers, and a cache
      that `enableCache` built when the cache is in use. */
  ghost predicate Ready(m: Machine, cacheEnabled: bool) {
    |m.regs| == 32 && (cacheEnabled ==> WellFormed(m.cache))
  }

  /** What the assembly program contributes besides its lines: the labels
      with their addresses, the position where a line's comment starts,
      keyed by the line's address, and the number of lines before the code. */
  datatype Program = Program(labels: map<string, int>, comments: map<int, nat>, memLines: int)

  /** The pair `convert` returns, with the machine it leaves behind. */
  datatype Outcome = Outcome(value: int, transfer: bool, m: Machine)

  function Fatal(m: Machine): Outcome {
    Outcome(-1, false, m)
  }

  function Next(m: Machine): Outcome {
    Outcome(0, false, m)
  }

  /** The two outcomes no instruction can jump to: an error ends the run,
      a breakpoint stops it. */
  predicate Stops(r: Outcome) {
    r.value == -1 || r.value == -2
  }

  /** `m'` is `m` with register `rd` set to `v`, unless `rd` is `x0`, which
      keeps its value; nothing else changes. */
  predicate WritesReg(m: Machine, m': Machine, rd: nat, v: i64) {
    && |m.regs| == 32 && rd < 32
    && m' == (if rd == 0 then m else m.(regs := m.regs[rd := v]))
  }

  /** `m'` differs from `m` at most in its data: registers, memory and the
      cache; the call stack and the call flags are those of `m`. */
  predicate Plain(m: Machine, m': Machine) {
    m'.stack == m.stack && m'.funcCall == m.funcCall && m'.funcReturn == m.funcReturn
  }

  /** The register file and `x0` survive every instruction. */
  predicate KeepsZero(m: Machine, m': Machine) {
    |m.regs| == 32 ==> |m'.regs| == 32 && m'.regs[0] == m.regs[0]
  }

  /** The opcode table: each mnemonic with its 7-bit major opcode. */
  const OpcodeTable: map<string, string> := map[
    "add" := "0110011", "sub" := "0110011", "and" := "0110011", "or" := "0110011",
    "xor" := "0110011", "sll" := "0110011", "srl" := "0110011", "sra" := "0110011",
    "addi" := "0010011", "andi" := "0010011", "ori" := "0010011", "xori" := "0010011",
    "slli" := "0010011", "srli" := "0010011", "srai" := "0010011",
    "lui" := "0110111", "auipc" := "0010111", "jal" := "1101111", "jalr" := "1100111",
    "beq" := "1100011", "bne" := "1100011", "blt" := "1100011", "bge" := "1100011",
    "bltu" := "1100011", "bgeu" := "1100011",
    "lw" := "0000011", "sw" := "0100011", "ld" := "0000011", "sd" := "0100011",
    "sh" := "0100011", "sb" := "0100011", "lh" := "0000011", "lb" := "0000011",
    "lbu" := "0000011", "lhu" := "0000011", "slt" := "0110011", "sltu" := "0110011",
    "slti" := "0010011", "sltiu" := "0010011", "lwu" := "0000011"]

  /** The branch of `convert` an opcode selects. `auipc`'s opcode has no
      branch: the instruction falls through without effect. */
  datatype Format = RegReg | RegImm | LoadJump | Store | Branch | Jump | Upper | NoBranch

  function FormatOf(code: string): Format {
    if code == "0110011" then RegReg
    else if code == "0010011" then RegImm
    else if code == "0000011" || code == "1100111" then LoadJump
    else if code == "0100011" then Store
    else if code == "1100011" then Branch
    else if code == "1101111" then Jump
    else if code == "0110111" then Upper
    else NoBranch
  }

  // ---------------------------------------------------------------------
  // The instructions on decoded operands
  // ---------------------------------------------------------------------

  /** Register-register instructions: `rd := ALU(rs1, rs2)`. */
  function ExecRegReg(instr: string, rd: nat, rs1: nat, rs2: nat, m: Machine): (r: Outcome)
    requires |m.regs| == 32 && rd < 32 && rs1 < 32 && rs2 < 32
    ensures r.value == 0 && !r.transfer
    ensures WritesReg(m, r.m, rd, Alu.Alu(m.regs[rs1], m.regs[rs2], instr))
    ensures KeepsZero(m, r.m) && Plain(m, r.m) && r.m.mem == m.mem && r.m.cache == m.cache
  {
    if rd == 0 then Next(m)
    else Next(m.(regs := m.regs[rd := Alu.Alu(m.regs[rs1], m.regs[rs2], instr)]))
  }

  predicate IsShift(instr: string) {
    instr == "slli" || instr == "srli" || instr == "srai"
  }

  /** The operand `srai` hands the ALU: the shift amount in the low six
      bits and `0x10` in the six bits above them, `(imm & 63) | (0x10 << 6)`. */
  function SraiOperand(shamt: nat): (v: nat)
    requires shamt < 64
    ensures v % 64 == shamt && v / 64 == 0x10
  {
    shamt + 0x10 * 64
  }

  /** Whether an immediate fits the 12-bit field. */
  predicate Fits12(imm: int) {
    -2048 <= imm <= 2047
  }

  /** Register-immediate instructions: the immediate must fit 12 bits, a
      shift amount `0..63`; then `rd := ALU(rs1, imm)`. */
  function ExecRegImm(instr: string, rd: nat, rs1: nat, imm: int, m: Machine): (r: Outcome)
    requires |m.regs| == 32 && rd < 32 && rs1 < 32
    ensures r.value == -1 <==> !Fits12(imm) || (IsShift(instr) && !(0 <= imm < 64))
    ensures r.value != -1 ==> r.value == 0 && !r.transfer
    ensures r.value == -1 ==> r == Fatal(m)
    ensures r.value != -1 ==>
      WritesReg(m, r.m, rd, Alu.Alu(m.regs[rs1], if instr == "srai" then SraiOperand(imm) else imm, instr))
    ensures KeepsZero(m, r.m) && Plain(m, r.m) && r.m.mem == m.mem && r.m.cache == m.cache
  {
    if !Fits12(imm) then Fatal(m)
    else if IsShift(instr) && (imm > 63 || imm < 0) then Fatal(m)
    else
      var operand := if instr == "srai" then SraiOperand(imm) else imm;
      if rd == 0 then Next(m)
      else Next(m.(regs := m.regs[rd := Alu.Alu(m.regs[rs1], operand, instr)]))
  }

  // ---------------------------------------------------------------------
  // Loads, stores and jalr
  // ---------------------------------------------------------------------

  /** The call stack's top frame: the last element. Reading the top of an
      empty stack is undefined in the source; the model reads an unnamed
      frame at line 0. */
  function Top(stack: seq<Frame>): (f: Frame)
    ensures |stack| > 0 ==> f == stack[|stack| - 1]
  {
    if |stack| == 0 then Frame("", 0) else stack[|stack| - 1]
  }

  /** The call stack without its top frame. Popping an empty stack is
      undefined in the source; the model leaves it empty. */
  function Pop(stack: seq<Frame>): (s: seq<Frame>)
    ensures |stack| > 0 ==> s + [stack[|stack| - 1]] == stack
    ensures |stack| == 0 ==> s == []
  {
    if |stack| == 0 then [] else stack[..|stack| - 1]
  }

  /** The number of bytes a load reads. */
  function LoadWidth(instr: string): (n: nat)
    ensures n == 1 || n == 2 || n == 4 || n == 8
  {
    if instr == "ld" then 8
    else if instr == "lw" || instr == "lwu" then 4
    else if instr == "lh" || instr == "lhu" then 2
    else 1
  }

  /** The loads whose value is sign-extended from its top loaded bit. */
  predicate SignExtends(instr: string) {
    instr == "lw" || instr == "lh" || instr == "lb"
  }

  /** The number of bytes a store writes. */
  function StoreWidth(instr: string): (n: nat)
    ensures n == 1 || n == 2 || n == 4 || n == 8
  {
    if instr == "sd" then 8
    else if instr == "sw" then 4
    else if instr == "sh" then 2
    else 1
  }

  /** The unsigned effective address `registers[rs1] + imm`. */
  function EffectiveAddress(m: Machine, rs1: nat, imm: int): (a: nat)
    requires |m.regs| == 32 && rs1 < 32
    ensures a < TWO64 && (m.regs[rs1] + imm - a) % TWO64 == 0
  {
    U64(m.regs[rs1] + imm)
  }

  /** The machine with the cache-side state of `st`. */
  function WithCache(m: Machine, st: CacheState): (m': Machine)
    ensures m'.regs == m.regs && m'.stack == m.stack
    ensures m'.funcCall == m.funcCall && m'.funcReturn == m.funcReturn
  {
    m.(cache := st.cache, mem := st.mem, timer := st.timer, rands := st.rands)
  }

  function CacheSide(m: Machine): CacheState {
    CacheState(m.cache, m.mem, m.timer, m.rands)
  }

  /** `jalr`: the return. The call stack is popped and `funcReturn` set; the
      link `pc + 4` is written to `rd` before `rs1` is read, and the target
      is `rs1 + imm` cut to an `int`. */
  function Jalr(rd: nat, rs1: nat, imm: int, pc: int, m: Machine): (r: Outcome)
    requires |m.regs| == 32 && rd < 32 && rs1 < 32
    ensures r.transfer && IsInt32(r.value)
    ensures r.m.funcReturn && r.m.stack == Pop(m.stack)
    ensures r.m.funcCall == m.funcCall && r.m.mem == m.mem && r.m.cache == m.cache
    ensures WritesReg(m.(funcReturn := true, stack := Pop(m.stack)), r.m, rd, Wrap32(pc + 4))
    ensures (r.value - (r.m.regs[rs1] + imm)) % TWO32 == 0
  {
    var m1 := m.(funcReturn := true, stack := Pop(m.stack));
    var m2 := if rd == 0 then m1 else m1.(regs := m1.regs[rd := Wrap32(pc + 4)]);
    Outcome(Wrap32(m2.regs[rs1] + imm), true, m2)
  }

  /** A load of `n` bytes at `address` from memory without a cache. The
      bytes are assembled and extended as the simulator is written, so a
      word comes out sign-extended even for `lwu` and a doubleword as the
      sum of its two sign-extended words. */
  function LoadDirect(rd: nat, address: nat, n: nat, sign: bool, m: Machine): (r: Outcome)
    requires |m.regs| == 32 && rd < 32 && (n == 1 || n == 2 || n == 4 || n == 8)
    ensures r.value == 0 && !r.transfer
    ensures WritesReg(m, r.m, rd, LoadAsWritten(LoadLE(m.mem, address, n), n, sign))
    ensures n <= 2 ==> WritesReg(m, r.m, rd, LoadValue(LoadLE(m.mem, address, n), n, sign))
  {
    if rd == 0 then Next(m)
    else Next(m.(regs := m.regs[rd := LoadAsWritten(LoadLE(m.mem, address, n), n, sign)]))
  }

  /** A load of `n` bytes at `address` through the cache. An unaligned
      access ends the run; so does a cache the source would crash on. */
  function LoadCached(rd: nat, address: nat, n: nat, sign: bool, m: Machine): (r: Outcome)
    requires Ready(m, true) && rd < 32 && (n == 1 || n == 2 || n == 4 || n == 8)
    ensures Ready(r.m, true) && !r.transfer
    ensures r.m.stack == m.stack && r.m.funcCall == m.funcCall && r.m.funcReturn == m.funcReturn
    ensures !CacheLoad(CacheSide(m), address, n, rd != 0).Loaded? <==> r == Fatal(m)
    ensures var l := CacheLoad(CacheSide(m), address, n, rd != 0);
      l.Loaded? ==>
        && r.value == 0
        && (l.raw.Some? ==> WritesReg(WithCache(m, l.st), r.m, rd, LoadAsWritten(l.raw.value, n, sign)))
        && (l.raw.None? ==> r.m == WithCache(m, l.st))
  {
    var l := CacheLoad(CacheSide(m), address, n, rd != 0);
    if !l.Loaded? then Fatal(m)
    else
      var m1 := WithCache(m, l.st);
      if l.raw.Some? && rd != 0 then Next(m1.(regs := m1.regs[rd := LoadAsWritten(l.raw.value, n, sign)]))
      else Next(m1)
  }

  /** Loads and `jalr`, which share their operand layout `rd, imm(rs1)`. A
      load address above the memory's size is refused; without a cache the
      bytes are read from memory, with one through it. */
  function ExecLoad(instr: string, rd: nat, rs1: nat, imm: int, pc: int, cacheEnabled: bool, m: Machine): (r: Outcome)
    requires Ready(m, cacheEnabled) && rd < 32 && rs1 < 32
    ensures Ready(r.m, cacheEnabled) && KeepsZero(m, r.m)
    ensures !Fits12(imm) ==> r == Fatal(m)
    ensures Fits12(imm) && instr == "jalr" ==> r == Jalr(rd, rs1, imm, pc, m)
    ensures instr != "jalr" ==> !r.transfer && (r.value == 0 || r == Fatal(m))
    ensures instr != "jalr" ==> r.m.stack == m.stack && r.m.funcCall == m.funcCall && r.m.funcReturn == m.funcReturn
    ensures instr != "jalr" && EffectiveAddress(m, rs1, imm) > MEM_SIZE ==> r == Fatal(m)
    ensures instr != "jalr" && Fits12(imm) && EffectiveAddress(m, rs1, imm) <= MEM_SIZE ==>
      r == if cacheEnabled then LoadCached(rd, EffectiveAddress(m, rs1, imm), LoadWidth(instr), SignExtends(instr), m)
           else LoadDirect(rd, EffectiveAddress(m, rs1, imm), LoadWidth(instr), SignExtends(instr), m)
  {
    if !Fits12(imm) then Fatal(m)
    else if instr == "jalr" then Jalr(rd, rs1, imm, pc, m)
    else
      var address := EffectiveAddress(m, rs1, imm);
      if address > MEM_SIZE then Fatal(m)
      else if !cacheEnabled then LoadDirect(rd, address, LoadWidth(instr), SignExtends(instr), m)
      else LoadCached(rd, address, LoadWidth(instr), SignExtends(instr), m)
  }

  /** A store of the low `n` bytes of `v` at `address` through the cache;
      an unaligned access ends the run, as does a cache the source would
      crash on. */
  function StoreCached(address: nat, n: nat, v: nat, m: Machine): (r: Outcome)
    requires Ready(m, true) && 1 <= n <= 8
    ensures Ready(r.m, true) && !r.transfer
    ensures CacheStore(CacheSide(m), address, n, v).Stored? <==> r.value == 0
    ensures CacheStore(CacheSide(m), address, n, v).Stored? ==> r.m == WithCache(m, CacheStore(CacheSide(m), address, n, v).st)
    ensures !CacheStore(CacheSide(m), address, n, v).Stored? ==> r == Fatal(m)
  {
    match CacheStore(CacheSide(m), address, n, v)
    case Stored(st) => Next(WithCache(m, st))
    case _ => Fatal(m)
  }

  /** Stores, `rs2, imm(rs1)`: an address below the data segment is a
      segmentation fault; there is no upper bound. Without a cache the low
      bytes of `rs2` are written to memory, with one through it. */
  function ExecStore(instr: string, rs2: nat, rs1: nat, imm: int, cacheEnabled: bool, m: Machine): (r: Outcome)
    requires Ready(m, cacheEnabled) && rs2 < 32 && rs1 < 32
    ensures Ready(r.m, cacheEnabled)
    ensures !r.transfer && (r.value == 0 || r == Fatal(m))
    ensures r.m.regs == m.regs && Plain(m, r.m)
    ensures !Fits12(imm) || EffectiveAddress(m, rs1, imm) < DATA_BASE ==> r == Fatal(m)
    ensures !cacheEnabled ==> (r.value == -1 <==> !Fits12(imm) || EffectiveAddress(m, rs1, imm) < DATA_BASE)
    ensures !cacheEnabled && r.value == 0 ==>
      r.m == m.(mem := StoreLE(m.mem, EffectiveAddress(m, rs1, imm), U64(m.regs[rs2]), StoreWidth(instr)))
    ensures cacheEnabled && Fits12(imm) && EffectiveAddress(m, rs1, imm) >= DATA_BASE ==>
      r == StoreCached(EffectiveAddress(m, rs1, imm), StoreWidth(instr), U64(m.regs[rs2]), m)
  {
    if !Fits12(imm) then Fatal(m)
    else
      var n := StoreWidth(instr);
      var address := EffectiveAddress(m, rs1, imm);
      if address < DATA_BASE then Fatal(m)
      else if !cacheEnabled then Next(m.(mem := StoreLE(m.mem, address, U64(m.regs[rs2]), n)))
      else StoreCached(address, n, U64(m.regs[rs2]), m)
  }

  // ---------------------------------------------------------------------
  // Branches, jal and lui
  // ---------------------------------------------------------------------

  /** The parity rule of branch and jump displacements, with C's
      truncating `%`: a remainder of 2 or 3 is refused, a remainder of 1 is
      rounded down. A negative displacement has a remainder of 0, -1, -2 or
      -3 and passes unchanged. */
  function Displacement(imm: int): (d: Option<int>)
    ensures imm >= 0 ==> (d.Some? <==> imm % 4 < 2)
    ensures imm >= 0 && d.Some? ==> d.value % 4 == 0 && imm - 1 <= d.value <= imm
    ensures imm < 0 ==> d == Some(imm)
  {
    var rem := CMod(imm, 4);
    if rem == 2 || rem == 3 then None
    else if rem == 1 then Some(imm - 1)
    else Some(imm)
  }

  /** The comparison a branch mnemonic makes; any other mnemonic of the
      branch opcode is never taken. */
  predicate Taken(instr: string, x: i64, y: i64) {
    || (instr == "beq" && x == y)
    || (instr == "bne" && x != y)
    || (instr == "blt" && x < y)
    || (instr == "bge" && x >= y)
    || (instr == "bltu" && U64(x) < U64(y))
    || (instr == "bgeu" && U64(x) >= U64(y))
  }

  /** Whether a displacement fits the 13-bit branch field. */
  predicate Fits13(imm: int) {
    -4096 <= imm <= 4095
  }

  /** Conditional branches: a taken branch transfers to `pc` plus the
      displacement, an untaken one falls through; the machine is unchanged. */
  function ExecBranch(instr: string, rs1: nat, rs2: nat, imm: int, pc: int, m: Machine): (r: Outcome)
    requires |m.regs| == 32 && rs1 < 32 && rs2 < 32
    ensures r.m == m
    ensures r.value == -1 && !r.transfer <==> !Fits13(imm) || Displacement(imm).None?
    ensures r.transfer <==> Fits13(imm) && Displacement(imm).Some? && Taken(instr, m.regs[rs1], m.regs[rs2])
    ensures r.transfer ==> IsInt32(r.value) && (r.value - (pc + Displacement(imm).value)) % TWO32 == 0
    ensures !r.transfer ==> r.value == 0 || r.value == -1
  {
    if !Fits13(imm) then Fatal(m)
    else
      match Displacement(imm)
      case None => Fatal(m)
      case Some(d) => if Taken(instr, m.regs[rs1], m.regs[rs2]) then Outcome(Wrap32(pc + d), true, m) else Next(m)
  }

  /** Whether a displacement fits the 21-bit jump field. */
  predicate Fits21(imm: int) {
    -1048576 <= imm <= 1048575
  }

  /** `jal`: a call. `funcCall` is set even for `x0`, the link `pc + 4` is
      written to `rd`. A refused displacement returns -1 paired with the
      immediate's own flag, which shadows the outer one in the source. */
  function ExecJal(rd: nat, imm: Imm, pc: int, m: Machine): (r: Outcome)
    requires |m.regs| == 32 && rd < 32
    ensures !Fits21(imm.value) || Displacement(imm.value).None? ==> r == Outcome(-1, imm.flag, m)
    ensures Fits21(imm.value) && Displacement(imm.value).Some? ==>
      && r.transfer && IsInt32(r.value) && (r.value - (pc + Displacement(imm.value).value)) % TWO32 == 0
      && WritesReg(m.(funcCall := true), r.m, rd, Wrap32(pc + 4))
  {
    if !Fits21(imm.value) then Outcome(-1, imm.flag, m)
    else
      match Displacement(imm.value)
      case None => Outcome(-1, imm.flag, m)
      case Some(d) =>
        var m1 := m.(funcCall := true);
        Outcome(Wrap32(pc + d), true, if rd == 0 then m1 else m1.(regs := m1.regs[rd := Wrap32(pc + 4)]))
  }

  /** The value `lui` writes: the low 20 bits of the immediate, sign-extended
      from bit 19, shifted left by 12. */
  function LuiValue(imm: int): (v: i64)
    ensures v % 4096 == 0 && -0x8000_0000 <= v < 0x8000_0000
    ensures (v / 4096 - imm) % TWO20 == 0
  {
    var low := U64(imm) % TWO20;
    var t := if low >= 0x80000 then low - TWO20 else low;
    assert (t - imm) % TWO20 == 0 by {
      LowTwenty(imm, low);
      var q := (low - imm) / TWO20;
      assert low - imm == TWO20 * q;
      if low >= 0x80000 {
        DivModUnique(t - imm, TWO20, q - 1, 0);
      }
    }
    DivModUnique(t * 4096, 4096, t, 0);
    t * 4096
  }

  /** The low 20 bits of a value's 64-bit pattern are its residue modulo
      `2^20`. */
  lemma LowTwenty(x: int, low: nat)
    requires low == U64(x) % TWO20
    ensures (low - x) % TWO20 == 0
  {
    var u := U64(x);
    var k, j := x / TWO64, u / TWO20;
    assert x == TWO64 * k + u;
    assert u == TWO20 * j + low;
    assert TWO64 * k == TWO20 * (0x1000_0000_0000 * k);
    DivModUnique(low - x, TWO20, -j - 0x1000_0000_0000 * k, 0);
  }

  /** `lui` on a resolved immediate. The source's test `imm >> 31 > 0` for
      an immediate too wide is kept; `LuiCheckNeverFires` shows it never
      refuses an `int`. */
  function ExecLui(rd: nat, imm: int, m: Machine): (r: Outcome)
    requires |m.regs| == 32 && rd < 32 && IsInt32(imm)
    ensures r.value == 0 && !r.transfer
    ensures WritesReg(m, r.m, rd, LuiValue(imm))
  {
    LuiCheckNeverFires(imm);
    if ArithShiftRight(imm, 31) > 0 then Fatal(m)
    else if rd == 0 then Next(m)
    else Next(m.(regs := m.regs[rd := LuiValue(imm)]))
  }

  // ---------------------------------------------------------------------
  // Reading the operands of each format
  // ---------------------------------------------------------------------

  /** Register-register lines: the operand list must be well-formed. */
  function RegRegLine(instr: string, args: string, m: Machine): (r: Outcome)
    requires |m.regs| == 32
    ensures Effect(instr, m, r)
    ensures GetArguments(3, args).err ==> r == Fatal(m)
    ensures r != Fatal(m) ==> r.value == 0 && !r.transfer
    ensures KeepsZero(m, r.m) && Plain(m, r.m) && r.m.mem == m.mem && r.m.cache == m.cache
  {
    var a := GetArguments(3, args);
    if a.err then Fatal(m)
    else
      var rd, rs1, rs2 := Register(a.arguments[0]), Register(a.arguments[1]), Register(a.arguments[2]);
      if rd.None? || rs1.None? || rs2.None? then Fatal(m)
      else ExecRegReg(instr, rd.value, rs1.value, rs2.value, m)
  }

  /** Register-immediate lines: the operand list's error flag is ignored;
      indexing an operand that was not read is undefined in the source and
      ends the run in the model. */
  function RegImmLine(p: Program, instr: string, args: string, pc: int, m: Machine): (r: Outcome)
    requires |m.regs| == 32
    ensures Effect(instr, m, r)
    ensures |GetArguments(3, args).arguments| < 3 ==> r == Fatal(m)
    ensures r != Fatal(m) ==> r.value == 0 && !r.transfer
    ensures KeepsZero(m, r.m) && Plain(m, r.m) && r.m.mem == m.mem && r.m.cache == m.cache
  {
    var a := GetArguments(3, args).arguments;
    if |a| < 3 then Fatal(m)
    else
      var rd, rs1 := Register(a[0]), Register(a[1]);
      if rd.None? || rs1.None? then Fatal(m)
      else ExecRegImm(instr, rd.value, rs1.value, GetImmediate(a[2], pc, p.labels, false).value, m)
  }

  /** Load and `jalr` lines, `rd, imm(rs1)`. */
  function LoadLine(p: Program, instr: string, args: string, pc: int, cacheEnabled: bool, m: Machine): (r: Outcome)
    requires Ready(m, cacheEnabled)
    ensures Effect(instr, m, r)
    ensures Ready(r.m, cacheEnabled) && KeepsZero(m, r.m)
    ensures |GetArguments(3, args).arguments| < 3 ==> r == Fatal(m)
    ensures instr != "jalr" ==> !r.transfer && Plain(m, r.m)
    ensures !r.transfer ==> r.value == 0 || r.value == -1
  {
    var a := GetArguments(3, args).arguments;
    if |a| < 3 then Fatal(m)
    else
      match (Register(a[0]), Register(a[2]))
      case (Some(rd), Some(rs1)) => ExecLoad(instr, rd, rs1, GetImmediate(a[1], pc, p.labels, false).value, pc, cacheEnabled, m)
      case _ => Fatal(m)
  }

  /** Store lines, `rs2, imm(rs1)`. */
  function StoreLine(p: Program, instr: string, args: string, pc: int, cacheEnabled: bool, m: Machine): (r: Outcome)
    requires Ready(m, cacheEnabled)
    ensures Effect(instr, m, r)
    ensures Ready(r.m, cacheEnabled) && r.m.regs == m.regs && Plain(m, r.m)
    ensures |GetArguments(3, args).arguments| < 3 ==> r == Fatal(m)
    ensures !r.transfer && (r.value == 0 || r == Fatal(m))
  {
    var a := GetArguments(3, args).arguments;
    if |a| < 3 then Fatal(m)
    else
      match (Register(a[0]), Register(a[2]))
      case (Some(rs2), Some(rs1)) => ExecStore(instr, rs2, rs1, GetImmediate(a[1], pc, p.labels, false).value, cacheEnabled, m)
      case _ => Fatal(m)
  }

  /** Branch lines, `rs1, rs2, target`: the operand list must be
      well-formed; the target may be a label. */
  function BranchLine(p: Program, instr: string, args: string, pc: int, m: Machine): (r: Outcome)
    requires |m.regs| == 32
    ensures Effect(instr, m, r)
    ensures r.m == m
    ensures GetArguments(3, args).err ==> r == Fatal(m)
    ensures !r.transfer ==> r.value == 0 || r.value == -1
  {
    var a := GetArguments(3, args);
    if a.err then Fatal(m)
    else
      match (Register(a.arguments[0]), Register(a.arguments[1]))
      case (Some(rs1), Some(rs2)) => ExecBranch(instr, rs1, rs2, GetImmediate(a.arguments[2], pc, p.labels, true).value, pc, m)
      case _ => Fatal(m)
  }

  /** `jal` lines, `rd, target`: the operand list's error flag is ignored. */
  function JalLine(p: Program, args: string, pc: int, m: Machine): (r: Outcome)
    requires |m.regs| == 32
    ensures Effect("jal", m, r)
    ensures KeepsZero(m, r.m) && r.m.stack == m.stack && r.m.mem == m.mem && r.m.cache == m.cache
    ensures r.m.funcReturn == m.funcReturn
    ensures r.value == -1 || (r.transfer && r.m.funcCall)
    ensures !r.transfer ==> r.m == m
    ensures |GetArguments(2, args).arguments| < 2 ==> r == Fatal(m)
  {
    var a := GetArguments(2, args).arguments;
    if |a| < 1 then Fatal(m)
    else
      match Register(a[0])
      case None => Fatal(m)
      case Some(rd) => if |a| < 2 then Fatal(m) else ExecJal(rd, GetImmediate(a[1], pc, p.labels, true), pc, m)
  }

  /** The immediate of a `lui` line: a non-negative number in decimal, or
      in hexadecimal after `0x`, that `stoi` reads in full. A text that
      `stoi` rejects throws in the source, which ends the program; the model
      reads it as an error. */
  function LuiImmediate(v: string): (r: Option<int>)
    ensures r.Some? ==> IsInt32(r.value) && At(v, 0) != '-'
    ensures At(v, 0) == '-' ==> r.None?
  {
    if At(v, 0) == '-' then None
    else
      var base := if At(v, 0) == '0' && At(v, 1) == 'x' then 16 else 10;
      match Stoi(v, base)
      case None => None
      case Some(parsed) => if parsed.pos != |v| then None else Some(parsed.value)
  }

  /** A decimal `lui` immediate is accepted exactly when `stoi` can hold
      it, as its value; beyond `2^31 - 1` the conversion throws. */
  lemma LuiImmediateDecimal(n: nat)
    ensures LuiImmediate(Digits(n, 10)) == if n < TWO31 then Some(n) else None
  {
    var s := Digits(n, 10);
    assert At(s, 0) != '-' && !(At(s, 0) == '0' && At(s, 1) == 'x') by {
      assert DigitValue(s[0]) < 10;
      if |s| > 1 {
        assert DigitValue(s[1]) < 10;
      }
    }
    assert Stoi(s, 10) == if n < TWO31 then Some(Parsed(n, |s|)) else None by {
      ScanDecimal(n);
    }
  }

  /** A `0x` hexadecimal `lui` immediate is accepted exactly when `stoi`
      can hold it, as its value. */
  lemma LuiImmediateHex(n: nat)
    ensures LuiImmediate("0x" + Digits(n, 16)) == if n < TWO31 then Some(n) else None
  {
    var s := "0x" + Digits(n, 16);
    assert At(s, 0) == '0' && At(s, 1) == 'x';
    assert Stoi(s, 16) == if n < TWO31 then Some(Parsed(n, |s|)) else None by {
      ScanHex(n);
    }
  }

  /** The operands of a `lui` line, `rd, value`: the operand list must be
      well-formed, name a register and hold an immediate `lui` accepts. */
  function LuiOperands(args: string): (r: Option<(nat, int)>)
    ensures var a := GetArguments(2, args);
      r.Some? <==> !a.err && Register(a.arguments[0]).Some? && LuiImmediate(a.arguments[1]).Some?
    ensures r.Some? ==> r.value.0 < 32 && IsInt32(r.value.1)
    ensures var a := GetArguments(2, args);
      r.Some? ==> r.value == (Register(a.arguments[0]).value, LuiImmediate(a.arguments[1]).value)
  {
    var a := GetArguments(2, args);
    if a.err then None
    else
      var rd := Register(a.arguments[0]);
      var imm := LuiImmediate(a.arguments[1]);
      if rd.None? || imm.None? then None else Some((rd.value, imm.value))
  }

  /** `lui` lines. */
  function LuiLine(args: string, m: Machine): (r: Outcome)
    requires |m.regs| == 32
    ensures Effect("lui", m, r)
    ensures !r.transfer && (r.value == 0 || r == Fatal(m))
    ensures LuiOperands(args).None? ==> r == Fatal(m)
    ensures KeepsZero(m, r.m) && Plain(m, r.m) && r.m.mem == m.mem && r.m.cache == m.cache
    ensures LuiOperands(args).Some? ==> WritesReg(m, r.m, LuiOperands(args).value.0, LuiValue(LuiOperands(args).value.1))
  {
    match LuiOperands(args)
    case None => Fatal(m)
    case Some((rd, imm)) => ExecLui(rd, imm, m)
  }

  /** `imm >> 31` of an `int` is its sign: 0 or -1, never positive. */
  lemma LuiCheckNeverFires(imm: int)
    requires IsInt32(imm)
    ensures ArithShiftRight(imm, 31) == if imm < 0 then -1 else 0
  {
    Pow2Word();
    QuotientSign(imm, ArithShiftRight(imm, 31), TWO31);
  }

  /** The quotient rounding down of a value in `[-t, t)` by `t` is its
      sign. */
  lemma QuotientSign(v: int, q: int, t: int)
    requires t >= 1 && -t <= v < t && q * t <= v < q * t + t
    ensures q == if v < 0 then -1 else 0
  {
    if q >= 1 {
      MulGe(t, q);
    } else if q <= -2 {
      assert q * t + t == (q + 1) * t;
      MulLe(t, q + 1);
    }
  }

  // ---------------------------------------------------------------------
  // Cutting a line into mnemonic and operands
  // ---------------------------------------------------------------------

  /** A mnemonic and the operand text after it. */
  datatype Decoded = Decoded(instr: string, args: string)

  predicate IsSeparator(c: char) {
    c == ':' || c == ' ' || c == ','
  }

  /** The number of spaces the line starts with. */
  function LeadingSpaces(line: string, i: nat): (n: nat)
    requires i <= |line|
    ensures i <= n <= |line| && (n == |line| || line[n] != ' ')
    ensures forall k :: i <= k < n ==> line[k] == ' '
    decreases |line| - i
  {
    if i < |line| && line[i] == ' ' then LeadingSpaces(line, i + 1) else i
  }

  /** The scan of `convert` from position `i`, with `prev` the position
      before the current word: separators are skipped, a word followed by
      `:` is a label, and the first word followed by a space or a comma, or
      ending the line, is the mnemonic. The operand text keeps the
      separator that follows the mnemonic. */
  function DecodeFrom(line: string, prev: int, i: nat): (r: Decoded)
    requires -1 <= prev < i <= |line|
    decreases |line| - i
  {
    if i == |line| then Decoded("", "")
    else if IsSeparator(line[i]) then DecodeFrom(line, prev + 1, i + 1)
    else if i + 1 < |line| && line[i + 1] == ':' then DecodeFrom(line, i, i + 1)
    else if i + 1 < |line| && (line[i + 1] == ' ' || line[i + 1] == ',') then Decoded(line[prev + 1..i + 1], line[i + 1..])
    else if i == |line| - 1 then Decoded(line[prev + 1..], "")
    else DecodeFrom(line, prev, i + 1)
  }

  function Decode(line: string): Decoded {
    var n := LeadingSpaces(line, 0);
    DecodeFrom(line, n - 1, n)
  }

  /** A word: non-empty, without separators. */
  predicate IsWord(w: string) {
    |w| > 0 && forall k :: 0 <= k < |w| ==> !IsSeparator(w[k])
  }

  /** What may follow a mnemonic: nothing, or a space or comma first. */
  predicate Follows(rest: string) {
    rest == [] || rest[0] == ' ' || rest[0] == ','
  }

  // ---------------------------------------------------------------------
  // One line
  // ---------------------------------------------------------------------

  /** The number of the file line that holds the instruction at `pc`. */
  function LineNumber(p: Program, pc: int): int {
    CDiv(pc, 4) + 1 + p.memLines
  }

  /** Whether a breakpoint stops the instruction at `pc`: one is set on its
      line and the instruction is not being single-stepped. */
  predicate Breaks(p: Program, bps: map<int, bool>, pc: int, step: bool) {
    !step && LineNumber(p, pc) in bps && bps[LineNumber(p, pc)]
  }

  /** The line without the comment recorded for its address, if any. */
  function CutComment(p: Program, pc: int, line: string): (l: string)
    ensures l <= line
    ensures pc in p.comments && p.comments[pc] <= |line| ==> |l| == p.comments[pc]
    ensures pc !in p.comments ==> l == line
  {
    if pc in p.comments then line[..if p.comments[pc] <= |line| then p.comments[pc] else |line|] else line
  }

  /** Whether the machine is left as it was, or as a transfer of control
      leaves it: only transfers touch the call stack and the call flags,
      and every other outcome is a fall-through or an error. */
  predicate Settled(m: Machine, r: Outcome) {
    !r.transfer ==> (r.value == 0 || r.value == -1) && Plain(m, r.m)
  }

  /** What every instruction `instr` keeps: the register file and `x0`, a
      settled outcome, and the call stack and call flags, except that `jalr`
      pops the stack and sets `funcReturn` and `jal` sets `funcCall`. */
  predicate Effect(instr: string, m: Machine, r: Outcome) {
    && KeepsZero(m, r.m) && Settled(m, r)
    && (r.m.stack == m.stack || (instr == "jalr" && r.m.funcReturn && r.m.stack == Pop(m.stack)))
    && (r.m.funcCall != m.funcCall ==> instr == "jal" && r.m.funcCall)
    && (r.m.funcReturn != m.funcReturn ==> instr == "jalr" && r.m.funcReturn && r.m.stack == Pop(m.stack))
  }

  /** `jal` is the only mnemonic with the jump opcode. */
  lemma JumpOpcode(instr: string)
    requires instr in OpcodeTable && FormatOf(OpcodeTable[instr]) == Jump
    ensures instr == "jal"
  {
  }

  /** A decoded instruction: an unknown mnemonic ends the run, a known one
      is dispatched on its opcode. */
  function Execute(p: Program, d: Decoded, pc: int, cacheEnabled: bool, m: Machine): (r: Outcome)
    requires Ready(m, cacheEnabled)
    ensures Ready(r.m, cacheEnabled) && Effect(d.instr, m, r)
    ensures d.instr !in OpcodeTable ==> r == Fatal(m)
  {
    if d.instr !in OpcodeTable then Fatal(m)
    else
      match FormatOf(OpcodeTable[d.instr])
      case RegReg => RegRegLine(d.instr, d.args, m)
      case RegImm => RegImmLine(p, d.instr, d.args, pc, m)
      case LoadJump => LoadLine(p, d.instr, d.args, pc, cacheEnabled, m)
      case Store => StoreLine(p, d.instr, d.args, pc, cacheEnabled, m)
      case Branch => BranchLine(p, d.instr, d.args, pc, m)
      case Jump => JumpOpcode(d.instr); JalLine(p, d.args, pc, m)
      case Upper => LuiLine(d.args, m)
      case NoBranch => Next(m)
  }

  /** `convert`: one line of the program at `pc`. A breakpoint on the line
      stops before anything happens unless the line is being stepped; a
      line starting with `;` is a comment; otherwise the comment is cut off
      and the instruction executed. */
  function Convert(p: Program, bps: map<int, bool>, line: string, pc: int, step: bool, cacheEnabled: bool, m: Machine): (r: Outcome)
    requires Ready(m, cacheEnabled)
    ensures Ready(r.m, cacheEnabled) && KeepsZero(m, r.m)
    ensures Breaks(p, bps, pc, step) ==> r == Outcome(-2, false, m)
    ensures !Breaks(p, bps, pc, step) ==> Settled(m, r)
    ensures !Breaks(p, bps, pc, step) && At(line, 0) == ';' ==> r == Next(m)
    ensures !Breaks(p, bps, pc, step) && At(line, 0) != ';' ==>
      r == Execute(p, Decode(CutComment(p, pc, line)), pc, cacheEnabled, m)
  {
    if Breaks(p, bps, pc, step) then Outcome(-2, false, m)
    else if At(line, 0) == ';' then Next(m)
    else Execute(p, Decode(CutComment(p, pc, line)), pc, cacheEnabled, m)
  }
}
