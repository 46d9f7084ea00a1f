/** Properties of single instructions: how `convert` cuts a line, how
    breakpoints and single steps interact, and the round trips between
    instructions (a value added and subtracted, stored and loaded, a call
    and its return). */
module Semantics {
  import opened Arith
  import opened Wrappers
  import opened Parse
  import opened Memory
  import opened Immediates
  import opened Alu
  import opened CacheSim
  import opened CacheAccess
  import opened Coherence
  import opened Engine

  // ---------------------------------------------------------------------
  // Cutting a line
  // ---------------------------------------------------------------------

  function Spaces(n: nat): (s: string)
    ensures |s| == n && forall k :: 0 <= k < n ==> s[k] == ' '
  {
    seq(n, _ => ' ')
  }

  /** Inside a word that ends the line or is followed by a space or a
      comma, the scan returns the word and the text after it. */
  lemma {:induction false} WordScan(line: string, j: nat, i: nat, e: nat)
    requires j <= i < e <= |line|
    requires forall k :: j <= k < e ==> !IsSeparator(line[k])
    requires e == |line| || line[e] == ' ' || line[e] == ','
    ensures DecodeFrom(line, j - 1, i) == Decoded(line[j..e], line[e..])
    decreases e - i
  {
    if i + 1 < e {
      assert !IsSeparator(line[i]) && !IsSeparator(line[i + 1]);
      WordScan(line, j, i + 1, e);
    } else {
      assert !IsSeparator(line[i]);
    }
  }

  /** Inside a word followed by `:`, the scan skips the word as a label. */
  lemma {:induction false} LabelScan(line: string, j: nat, i: nat, e: nat)
    requires j <= i < e < |line| && line[e] == ':'
    requires forall k :: j <= k < e ==> !IsSeparator(line[k])
    ensures DecodeFrom(line, j - 1, i) == DecodeFrom(line, e - 1, e)
    decreases e - i
  {
    assert !IsSeparator(line[i]);
    if i + 1 < e {
      assert !IsSeparator(line[i + 1]);
      LabelScan(line, j, i + 1, e);
    }
  }

  /** The scan passes over separators. */
  lemma {:induction false} SeparatorScan(line: string, i: nat, e: nat)
    requires i <= e <= |line|
    requires forall k :: i <= k < e ==> IsSeparator(line[k])
    ensures DecodeFrom(line, i - 1, i) == DecodeFrom(line, e - 1, e)
    decreases e - i
  {
    if i < e {
      SeparatorScan(line, i + 1, e);
    }
  }

  /** The indentation of a line is the run of spaces before its first
      word: scanning from any `i` inside that run stops at `n`. */
  lemma {:induction false} Indentation(line: string, i: nat, n: nat)
    requires i <= n < |line| && line[n] != ' '
    requires forall k :: i <= k < n ==> line[k] == ' '
    ensures LeadingSpaces(line, i) == n
    decreases n - i
  {
    if i < n {
      Indentation(line, i + 1, n);
    }
  }

  /** An instruction line, indented or not, is cut into its mnemonic and
      the operand text after it. */
  lemma DecodePlain(n: nat, instr: string, rest: string)
    requires IsWord(instr) && Follows(rest)
    ensures Decode(Spaces(n) + instr + rest) == Decoded(instr, rest)
  {
    var line := Spaces(n) + instr + rest;
    var e := n + |instr|;
    assert line[n] == instr[0];
    Indentation(line, 0, n);
    assert forall k :: n <= k < e ==> line[k] == instr[k - n];
    assert line[n..e] == instr && line[e..] == rest;
    WordScan(line, n, n, e);
  }

  /** A line with a label, `label:` and separators before the mnemonic, is
      cut into the mnemonic and the operand text after it: the label plays
      no part. */
  lemma DecodeLabelled(name: string, gap: string, instr: string, rest: string)
    requires IsWord(name) && IsWord(instr) && Follows(rest)
    requires forall k :: 0 <= k < |gap| ==> IsSeparator(gap[k])
    ensures Decode(name + ":" + gap + instr + rest) == Decoded(instr, rest)
  {
    var line := name + ":" + gap + instr + rest;
    var a := |name|;
    var b := a + 1 + |gap|;
    var e := b + |instr|;
    assert line[0] == name[0];
    Indentation(line, 0, 0);
    assert forall k :: 0 <= k < a ==> line[k] == name[k];
    assert line[a] == ':';
    LabelScan(line, 0, 0, a);
    assert forall k :: a < k < b ==> line[k] == gap[k - a - 1];
    SeparatorScan(line, a, b);
    assert forall k :: b <= k < e ==> line[k] == instr[k - b];
    assert line[b..e] == instr && line[e..] == rest;
    WordScan(line, b, b, e);
  }

  // ---------------------------------------------------------------------
  // Round trips between instructions
  // ---------------------------------------------------------------------

  /** `add rd, rs1, rs2` followed by `sub rd, rd, rs2` leaves `rd` holding
      the value of `rs1`, wrap-around included. */
  lemma AddThenSub(m: Machine, rd: nat, rs1: nat, rs2: nat)
    requires |m.regs| == 32 && 0 < rd < 32 && rs1 < 32 && rs2 < 32 && rd != rs2
    ensures var m1 := ExecRegReg("add", rd, rs1, rs2, m).m;
      ExecRegReg("sub", rd, rd, rs2, m1).m.regs[rd] == m.regs[rs1]
  {
    SubUndoesAdd(m.regs[rs1], m.regs[rs2]);
  }

  /** `srai` hands the ALU `1024 + shamt`, and the ALU shifts by the low six
      bits of its operand, so `srai` by `shamt` is `sra` by `shamt`. */
  lemma SraiIsSra(v: i64, shamt: nat)
    requires shamt < 64
    ensures Alu.Alu(v, SraiOperand(shamt), "srai") == Alu.Alu(v, shamt, "sra")
  {
    ShiftMnemonics();
    var w: i64 := SraiOperand(shamt);
    U64Id(w);
    assert ShiftCount(w) == shamt;
  }

  /** The register-immediate `srai` writes what the register-register `sra`
      writes when the shift amount is in a register. */
  lemma SraiMatchesSra(m: Machine, rd: nat, rs1: nat, rs2: nat, shamt: nat)
    requires |m.regs| == 32 && rd < 32 && rs1 < 32 && rs2 < 32 && shamt < 64 && m.regs[rs2] == shamt
    ensures ExecRegImm("srai", rd, rs1, shamt, m) == ExecRegReg("sra", rd, rs1, rs2, m)
  {
    SraiIsSra(m.regs[rs1], shamt);
  }

  /** Without a cache, a store followed by a load of the same width from the
      same address puts the stored register's value in the destination
      exactly for the values the load, as written, returns unchanged: every
      `int` for a word, only 0 to 2^31 - 1 for a doubleword. */
  lemma StoreThenLoad(m: Machine, si: string, li: string, rs2: nat, rs1: nat, rd: nat, imm: int, pc: int)
    requires |m.regs| == 32 && rs2 < 32 && rs1 < 32 && 0 < rd < 32 && li != "jalr"
    requires Fits12(imm) && StoreWidth(si) == LoadWidth(li)
    requires DATA_BASE <= EffectiveAddress(m, rs1, imm) <= MEM_SIZE
    ensures var m1 := ExecStore(si, rs2, rs1, imm, false, m).m;
      (ExecLoad(li, rd, rs1, imm, pc, false, m1).m.regs[rd] == m.regs[rs2]
       <==> LoadsBackAsWritten(m.regs[rs2], LoadWidth(li), SignExtends(li)))
  {
    var a := EffectiveAddress(m, rs1, imm);
    var n := LoadWidth(li);
    var mem1 := StoreLE(m.mem, a, U64(m.regs[rs2]), n);
    var m1 := ExecStore(si, rs2, rs1, imm, false, m).m;
    assert m1 == m.(mem := mem1);
    assert EffectiveAddress(m1, rs1, imm) == a;
    var l := ExecLoad(li, rd, rs1, imm, pc, false, m1);
    assert l == LoadDirect(rd, a, n, SignExtends(li), m1);
    StoreLoadAsWritten(m.mem, a, m.regs[rs2], n, SignExtends(li));
  }

  /** Through a coherent cache, a store followed by a load of the same
      width from the same address returns the stored bytes, whenever both
      succeed: extended as intended they give back the stored value exactly
      when `LoadsBack` holds, and extended as the simulator is written
      exactly when `LoadsBackAsWritten` holds. */
  lemma CachedRoundTrip(st: CacheState, g: Geometry, a: nat, n: nat, x: i64, signExtend: bool)
    requires Coherent(st, g) && (n == 1 || n == 2 || n == 4 || n == 8) && a + n <= TWO20
    ensures var s := CacheStore(st, a, n, U64(x));
      s.Stored? ==>
        var l := CacheLoad(s.st, a, n, true);
        l.Loaded? ==>
          && l.raw.Some? && l.raw.value < Pow2(8 * n)
          && (LoadValue(l.raw.value, n, signExtend) == x <==> LoadsBack(x, n, signExtend))
          && (LoadAsWritten(l.raw.value, n, signExtend) == x <==> LoadsBackAsWritten(x, n, signExtend))
  {
    var v := U64(x);
    var s := CacheStore(st, a, n, v);
    CacheStoreCoherent(st, g, a, n, v);
    if s.Stored? {
      CacheLoadCoherent(s.st, g, a, n, true);
      LoadLEFrame(View(s.st, g), StoreLE(View(st, g), a, v, n), a, n);
      StoreLoadRoundTrip(View(st, g), a, x, n, signExtend);
      StoreLoadAsWritten(View(st, g), a, x, n, signExtend);
    }
  }

  /** The effective address depends on the registers alone. */
  lemma SameAddress(m: Machine, m': Machine, rs1: nat, imm: int)
    requires |m.regs| == 32 && m'.regs == m.regs && rs1 < 32
    ensures EffectiveAddress(m', rs1, imm) == EffectiveAddress(m, rs1, imm)
  {
  }

  /** A cached store that succeeds is the cache-level store of the low
      bytes of `rs2` at the effective address; the registers are kept. */
  lemma CachedStoreStep(m: Machine, si: string, rs2: nat, rs1: nat, imm: int)
    requires Ready(m, true) && rs2 < 32 && rs1 < 32
    ensures var s := ExecStore(si, rs2, rs1, imm, true, m);
      s.value == 0 ==>
        var stored := CacheStore(CacheSide(m), EffectiveAddress(m, rs1, imm), StoreWidth(si), U64(m.regs[rs2]));
        && stored.Stored? && CacheSide(s.m) == stored.st && s.m.regs == m.regs
        && EffectiveAddress(s.m, rs1, imm) == EffectiveAddress(m, rs1, imm)
  {
    var s := ExecStore(si, rs2, rs1, imm, true, m);
    if s.value == 0 {
      var a, n := EffectiveAddress(m, rs1, imm), StoreWidth(si);
      assert s == StoreCached(a, n, U64(m.regs[rs2]), m);
      SameAddress(m, s.m, rs1, imm);
    }
  }

  /** A cached load that succeeds writes `rd` with the bytes the
      cache-level load returns, assembled and extended as written. */
  lemma CachedLoadStep(m: Machine, li: string, rd: nat, rs1: nat, imm: int, pc: int)
    requires Ready(m, true) && 0 < rd < 32 && rs1 < 32 && li != "jalr"
    ensures var l := ExecLoad(li, rd, rs1, imm, pc, true, m);
      l.value == 0 ==>
        var ld := CacheLoad(CacheSide(m), EffectiveAddress(m, rs1, imm), LoadWidth(li), true);
        ld.Loaded? && ld.raw.Some? ==> l.m.regs[rd] == LoadAsWritten(ld.raw.value, LoadWidth(li), SignExtends(li))
  {
    var l := ExecLoad(li, rd, rs1, imm, pc, true, m);
    if l.value == 0 {
      var a := EffectiveAddress(m, rs1, imm);
      assert l == LoadCached(rd, a, LoadWidth(li), SignExtends(li), m);
    }
  }

  /** Through a cache, a store followed by a load of the same width from the
      same address returns the stored value, whenever both succeed, for
      exactly the values an uncached load returns unchanged: the cache is
      transparent. */
  lemma CachedStoreThenLoad(m: Machine, g: Geometry, si: string, li: string, rs2: nat, rs1: nat, rd: nat, imm: int, pc: int)
    requires |m.regs| == 32 && rs2 < 32 && rs1 < 32 && 0 < rd < 32 && li != "jalr"
    requires Coherent(CacheSide(m), g)
    requires Fits12(imm) && StoreWidth(si) == LoadWidth(li)
    requires EffectiveAddress(m, rs1, imm) + LoadWidth(li) <= TWO20
    ensures var s := ExecStore(si, rs2, rs1, imm, true, m);
      var l := ExecLoad(li, rd, rs1, imm, pc, true, s.m);
      s.value == 0 && l.value == 0 ==>
        (l.m.regs[rd] == m.regs[rs2] <==> LoadsBackAsWritten(m.regs[rs2], LoadWidth(li), SignExtends(li)))
  {
    var s := ExecStore(si, rs2, rs1, imm, true, m);
    CachedStoreStep(m, si, rs2, rs1, imm);
    if s.value == 0 {
      var a, n := EffectiveAddress(m, rs1, imm), StoreWidth(si);
      CachedLoadStep(s.m, li, rd, rs1, imm, pc);
      CachedRoundTrip(CacheSide(m), g, a, n, m.regs[rs2], SignExtends(li));
    }
  }

  /** A call and its return: after `jal ra, target` at `pc`, a
      `jalr x0, 0(ra)` returns to `pc + 4`, popping the frame of the call. */
  lemma CallThenReturn(m: Machine, target: Imm, pc: int, pc': int)
    requires |m.regs| == 32 && IsInt32(pc + 4)
    requires Fits21(target.value) && Displacement(target.value).Some?
    ensures var c := ExecJal(1, target, pc, m);
      var r := Jalr(0, 1, 0, pc', c.m);
      r.transfer && r.value == pc + 4 && r.m.stack == Pop(m.stack)
  {
    Wrap32Id(pc + 4);
  }

  // ---------------------------------------------------------------------
  // Branches
  // ---------------------------------------------------------------------

  /** Each branch has a complement that is taken exactly when it is not:
      `beq`/`bne`, `blt`/`bge` and `bltu`/`bgeu`. */
  lemma BranchComplements(x: i64, y: i64)
    ensures Taken("beq", x, y) != Taken("bne", x, y)
    ensures Taken("blt", x, y) != Taken("bge", x, y)
    ensures Taken("bltu", x, y) != Taken("bgeu", x, y)
  {
  }

  /** On non-negative operands the unsigned and the signed comparisons
      agree; a negative operand compares above every non-negative one
      unsigned. */
  lemma UnsignedBranches(x: i64, y: i64)
    ensures 0 <= x && 0 <= y ==> Taken("bltu", x, y) == Taken("blt", x, y)
    ensures x < 0 <= y ==> Taken("bltu", y, x) && !Taken("blt", y, x)
  {
    if x >= 0 {
      U64Id(x);
    } else {
      assert U64(x) == x + TWO64;
    }
    if y >= 0 {
      U64Id(y);
    }
  }

  /** A non-negative displacement of a transfer that is accepted is a
      multiple of 4; a negative one is not checked at all, so every
      negative 13-bit displacement is accepted as it is, and from an aligned
      `pc` the ones that are not multiples of 4 lead to a target that is not
      aligned. */
  lemma NegativeDisplacementUnchecked(pc: int)
    requires pc % 4 == 0
    ensures forall d :: -4096 <= d < 0 ==>
      Displacement(d) == Some(d) && ((pc + Displacement(d).value) % 4 == 0 <==> d % 4 == 0)
    ensures forall d :: 0 <= d < 4096 && Displacement(d).Some? ==> (pc + Displacement(d).value) % 4 == 0
    ensures Displacement(2) == None && Displacement(5) == Some(4)
  {
    forall d | -4096 <= d < 4096
      ensures (pc + d) % 4 == d % 4
    {
      AddMod(pc, d, 4);
    }
  }

  // ---------------------------------------------------------------------
  // lui
  // ---------------------------------------------------------------------

  /** `lui` depends only on the low 20 bits of its immediate, and an
      immediate below `2^19` is placed unchanged in the upper 20 bits. */
  lemma LuiFields(imm: int)
    ensures LuiValue(imm + TWO20) == LuiValue(imm)
    ensures 0 <= imm < 0x80000 ==> LuiValue(imm) == imm * 4096
    ensures 0x80000 <= imm < TWO20 ==> LuiValue(imm) == (imm - TWO20) * 4096
  {
    var v, w := LuiValue(imm), LuiValue(imm + TWO20);
    UpperResidue(v, w, imm, imm + TWO20);
    if 0 <= imm < TWO20 {
      var t := if imm < 0x80000 then imm else imm - TWO20;
      UpperUnique(v, t, imm);
    }
  }

  /** Two values `lui` produces agree when their immediates agree modulo
      `2^20`. */
  lemma UpperResidue(v: int, w: int, a: int, b: int)
    requires v % 4096 == 0 && -0x8000_0000 <= v < 0x8000_0000 && (v / 4096 - a) % TWO20 == 0
    requires w % 4096 == 0 && -0x8000_0000 <= w < 0x8000_0000 && (w / 4096 - b) % TWO20 == 0
    requires (b - a) % TWO20 == 0
    ensures v == w
  {
    var x, y := v / 4096, w / 4096;
    assert -0x80000 <= x < 0x80000 && -0x80000 <= y < 0x80000;
    CongruentTrans(x, a, b, TWO20);
    CongruentTrans(x, b, y, TWO20);
    SameResidueInWindow(x, y, TWO20, -0x80000);
  }

  /** The value `lui` produces is `t * 4096` for the residue `t` of the
      immediate in `[-2^19, 2^19)`. */
  lemma UpperUnique(v: int, t: int, imm: int)
    requires v % 4096 == 0 && -0x8000_0000 <= v < 0x8000_0000 && (v / 4096 - imm) % TWO20 == 0
    requires -0x80000 <= t < 0x80000 && (t - imm) % TWO20 == 0
    ensures v == t * 4096
  {
    var x := v / 4096;
    CongruentTrans(x, imm, t, TWO20);
    SameResidueInWindow(x, t, TWO20, -0x80000);
  }
}
