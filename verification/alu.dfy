/** The arithmetic and logic unit shared by the register-register and
    register-immediate instructions (`ALU`). Operands and results are
    `long` values; sums, differences and left shifts wrap around. */
module Alu {
  import opened Arith

  /** The shift amount the hardware uses for a 64-bit shift: the low six
      bits of the count. The C++ shift is undefined for counts outside
      `0..63` (`srai` passes `1024 + shamt`); the model takes the masking
      of the x86-64 shift instructions. */
  function ShiftCount(v: i64): (c: nat)
    ensures c < 64
    ensures 0 <= v < 64 ==> c == v
  {
    U64Id(if v >= 0 then v else 0);
    U64(v) % 64
  }

  /** The 64-bit two's-complement pattern of a bitwise operation. */
  function BitwiseLong(op: BitOp, v1: i64, v2: i64): (r: i64)
    ensures forall k: nat {:trigger TestBit(U64(r), k)} :: k < 64 ==>
      TestBit(U64(r), k) == ApplyBit(op, TestBit(U64(v1), k), TestBit(U64(v2), k))
  {
    Pow2Top();
    var b := Bitwise(op, U64(v1), U64(v2), 64);
    Signed64(b)
  }

  /** The operations of the unit. */
  datatype AluOp = Add | Sub | And | Or | Xor | Sll | Srl | Sra | Slt | Zero

  /** The mnemonics the unit's chain of comparisons recognises, each with
      the operation it selects. */
  const AluTable: map<string, AluOp> := map[
    "add" := Add, "addi" := Add, "sub" := Sub, "and" := And, "andi" := And,
    "or" := Or, "ori" := Or, "xor" := Xor, "xori" := Xor, "sll" := Sll, "slli" := Sll,
    "srl" := Srl, "srli" := Srl, "sra" := Sra, "srai" := Sra, "slt" := Slt, "slti" := Slt]

  /** The operation a mnemonic selects; `Zero` for every mnemonic the unit
      does not know, among them `sltu` and `sltiu`. */
  function OpOf(instr: string): AluOp {
    if instr in AluTable then AluTable[instr] else Zero
  }

  /** One operation of the unit on two `long`s; each operation's meaning
      is the contract of the function it names. */
  function Exec(op: AluOp, v1: i64, v2: i64): (r: i64)
    ensures op == Slt ==> (r == 1 <==> v1 < v2) && (r == 0 <==> v1 >= v2)
    ensures op == Zero ==> r == 0
  {
    match op
    case Add => AddLong(v1, v2)
    case Sub => SubLong(v1, v2)
    case And => BitwiseLong(AndOp, v1, v2)
    case Or => BitwiseLong(OrOp, v1, v2)
    case Xor => BitwiseLong(XorOp, v1, v2)
    case Sll => ShiftLeft(v1, ShiftCount(v2))
    case Srl => ShiftRightLogical(v1, Pow2(ShiftCount(v2)))
    case Sra => ShiftRightArith(v1, Pow2(ShiftCount(v2)))
    case Slt => if v1 < v2 then 1 else 0
    case Zero => 0
  }

  /** The sum of two `long`s, wrapped to 64 bits. */
  function AddLong(v1: i64, v2: i64): (r: i64)
    ensures (v1 + v2 - r) % TWO64 == 0
  {
    Wrap64(v1 + v2)
  }

  /** The difference of two `long`s, wrapped to 64 bits. */
  function SubLong(v1: i64, v2: i64): (r: i64)
    ensures (v1 - v2 - r) % TWO64 == 0
  {
    Wrap64(v1 - v2)
  }

  /** `v << c` on a `long`: the product with `2^c`, wrapped to 64 bits. */
  function ShiftLeft(v: i64, c: nat): (r: i64)
    ensures (v * Pow2(c) - r) % TWO64 == 0
  {
    Wrap64(v * Pow2(c))
  }

  /** `ALU(v1, v2, instr)`: the operation the mnemonic selects. */
  function Alu(v1: i64, v2: i64, instr: string): i64 {
    Exec(OpOf(instr), v1, v2)
  }

  /** `(unsigned long) v >> c`, read back as a `long`, for `p == 2^c`. */
  function ShiftRightLogical(v: i64, p: nat): (r: i64)
    requires p >= 1
    ensures U64(r) * p <= U64(v) < U64(r) * p + p
  {
    var u := U64(v);
    var q := u / p;
    assert q * p <= u < q * p + p && q < TWO64 by {
      DivBounds(u, p);
    }
    Signed64(q)
  }

  /** `v >> c` on a `long`, for `p == 2^c`: division rounding down. */
  function ShiftRightArith(v: i64, p: nat): (r: i64)
    requires p >= 1
    ensures r * p <= v < r * p + p
  {
    DivBounds2(v, p);
    QuotientInRange(v, p);
    v / p
  }

  /** Bounds of a quotient of a natural number rounding down. */
  lemma DivBounds(n: nat, p: nat)
    requires p >= 1
    ensures (n / p) * p <= n < (n / p) * p + p && n / p <= n
  {
    if n / p >= 1 {
      MulGe(n / p, p);
    }
  }

  /** Bounds of a quotient of an integer rounding down. */
  lemma DivBounds2(v: int, p: nat)
    requires p >= 1
    ensures (v / p) * p <= v < (v / p) * p + p
  {
  }

  /** Dividing a `long` by a positive number rounding down stays a
      `long`. */
  lemma QuotientInRange(v: i64, p: nat)
    requires p >= 1
    ensures -TWO63 <= v / p < TWO63
  {
    var q := v / p;
    DivBounds2(v, p);
    if q >= 1 {
      MulGe(q, p);
    } else if q < 0 {
      MulLe(p, q);
    }
  }

  /** The operation each mnemonic of the instruction set selects: the
      immediate forms share their register forms' operation, and `sltu` and
      `sltiu` select none, so they always give 0. */
  lemma Mnemonics()
    ensures OpOf("add") == OpOf("addi") == Add && OpOf("sub") == Sub
    ensures OpOf("and") == OpOf("andi") == And && OpOf("or") == OpOf("ori") == Or
    ensures OpOf("xor") == OpOf("xori") == Xor && OpOf("sll") == OpOf("slli") == Sll
    ensures OpOf("srl") == OpOf("srli") == Srl && OpOf("sra") == OpOf("srai") == Sra
    ensures OpOf("slt") == OpOf("slti") == Slt && OpOf("sltu") == OpOf("sltiu") == Zero
  {
    ArithMnemonics();
    LogicMnemonics();
    ShiftMnemonics();
    CompareMnemonics();
  }

  lemma ArithMnemonics()
    ensures OpOf("add") == OpOf("addi") == Add && OpOf("sub") == Sub
  {
  }

  lemma LogicMnemonics()
    ensures OpOf("and") == OpOf("andi") == And && OpOf("or") == OpOf("ori") == Or
    ensures OpOf("xor") == OpOf("xori") == Xor
  {
  }

  lemma ShiftMnemonics()
    ensures OpOf("sll") == OpOf("slli") == Sll && OpOf("srl") == OpOf("srli") == Srl
    ensures OpOf("sra") == OpOf("srai") == Sra
  {
  }

  lemma CompareMnemonics()
    ensures OpOf("slt") == OpOf("slti") == Slt && OpOf("sltu") == OpOf("sltiu") == Zero
  {
  }

  /** `sltu` and `sltiu` give 0 whatever their operands. */
  lemma UnsignedCompareIsZero(v1: i64, v2: i64)
    ensures Alu(v1, v2, "sltu") == 0 && Alu(v1, v2, "sltiu") == 0
  {
    CompareMnemonics();
  }

  /** Subtraction undoes addition, with wrap-around. */
  lemma SubUndoesAdd(a: i64, b: i64)
    ensures Alu(Alu(a, b, "add"), b, "sub") == a
  {
    ArithMnemonics();
    ExecSubUndoesAdd(a, b);
  }

  lemma ExecSubUndoesAdd(a: i64, b: i64)
    ensures Exec(Sub, Exec(Add, a, b), b) == a
  {
    var s := Exec(Add, a, b);
    assert s == AddLong(a, b);
    DifferenceUndoesSum(a, b, s);
    assert Exec(Sub, s, b) == SubLong(s, b);
  }

  /** The wrapped difference undoes the wrapped sum. */
  lemma DifferenceUndoesSum(a: i64, b: i64, s: i64)
    requires s == AddLong(a, b)
    ensures SubLong(s, b) == a
  {
    var x := a + b;
    var k := if x >= TWO63 then 1 else if x < -TWO63 then -1 else 0;
    Wrap64Offset(x, x - TWO64 * k, k);
    Wrap64Offset(s - b, a, -k);
  }

  /** Exclusive or with the same operand twice is the identity. */
  lemma XorTwice(a: i64, b: i64)
    ensures Alu(Alu(a, b, "xor"), b, "xor") == a
  {
    LogicMnemonics();
    var x := Alu(a, b, "xor");
    var y := Alu(x, b, "xor");
    forall k: nat | k < 64
      ensures TestBit(U64(y), k) == TestBit(U64(a), k)
    {
      assert TestBit(U64(y), k) == (TestBit(U64(x), k) != TestBit(U64(b), k));
    }
    Pow2Top();
    BitsEqual(U64(y), U64(a), 64);
    SignedU64(y);
    SignedU64(a);
  }

  /** On non-negative values the logical and the arithmetic right shift
      agree. */
  lemma ShiftsAgreeOnNonNegative(a: i64, c: i64)
    requires a >= 0
    ensures Alu(a, c, "srl") == Alu(a, c, "sra")
  {
    ShiftMnemonics();
    var n := ShiftCount(c);
    var p := Pow2(n);
    var l := Alu(a, c, "srl");
    var r := Alu(a, c, "sra");
    U64Id(a);
    assert r >= 0 by {
      if r < 0 {
        MulLe(p, r);
      }
    }
    assert U64(l) * p <= a < U64(l) * p + p;
    DivModUnique(a, p, U64(l), a - U64(l) * p);
    DivModUnique(a, p, r, a - r * p);
    assert l >= 0 by {
      Pow2Top();
      if l < 0 {
        MulGe(U64(l), p);
      }
    }
    U64Id(l);
  }

  /** `slt` decides the order of two `long`s: of `slt(a, b)` and
      `slt(b, a)` exactly one is 1 unless `a == b`, when both are 0. */
  lemma SltAntisymmetric(a: i64, b: i64)
    ensures Alu(a, b, "slt") + Alu(b, a, "slt") == (if a == b then 0 else 1)
  {
    CompareMnemonics();
  }
}
