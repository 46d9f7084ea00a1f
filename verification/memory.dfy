/** The simulator's byte-addressable memory and the little-endian transfers
    between memory, registers and cache blocks. */
module Memory {
  import opened Arith

  type byte = x: int | 0 <= x < 256

  /** Memory as a map from address to byte; an address never written reads
      as zero, as the zero-initialised array of the simulator does. */
  type Mem = map<nat, byte>

  /** Capacity of the simulator's memory array (`memsize`). */
  const MEM_SIZE: nat := 0x50000
  /** Start of the data segment: stores below it are refused. */
  const DATA_BASE: nat := 0x10000

  function Read(m: Mem, a: nat): byte {
    if a in m then m[a] else 0
  }

  lemma Pow2Bytes(n: nat)
    requires n >= 1
    ensures Pow2(8 * n) == 256 * Pow2(8 * (n - 1))
  {
    Pow2Byte();
    Pow2Add(8, 8 * (n - 1));
  }

  /** The unsigned little-endian value of the `n` bytes at `a`: the byte at
      `a + i` contributes its value times `256^i`. */
  function LoadLE(m: Mem, a: nat, n: nat): (r: nat)
    ensures r < Pow2(8 * n)
    decreases n
  {
    if n == 0 then 0
    else
      Pow2Bytes(n);
      Read(m, a) + 256 * LoadLE(m, a + 1, n - 1)
  }

  /** A little-endian load sees only the `n` bytes it covers. */
  lemma {:induction false} LoadLEFrame(m: Mem, m': Mem, a: nat, n: nat)
    requires forall b: nat :: a <= b < a + n ==> Read(m, b) == Read(m', b)
    ensures LoadLE(m, a, n) == LoadLE(m', a, n)
    decreases n
  {
    if n > 0 {
      LoadLEFrame(m, m', a + 1, n - 1);
    }
  }

  /** Splitting a remainder modulo `256 * p` into its low byte and the rest. */
  lemma ModByteSplit(v: nat, p: nat)
    requires p >= 1
    ensures v % (256 * p) == v % 256 + 256 * ((v / 256) % p)
  {
    var q := v / 256;
    var q2 := q / p;
    var r2 := q % p;
    assert v == 256 * q + v % 256;
    assert q == p * q2 + r2;
    assert v == (256 * p) * q2 + (v % 256 + 256 * r2) by {
      assert 256 * q == 256 * (p * q2) + 256 * r2;
      assert 256 * (p * q2) == (256 * p) * q2;
    }
    assert 256 * r2 <= 256 * (p - 1);
    DivModUnique(v, 256 * p, q2, v % 256 + 256 * r2);
  }

  /** Writes the low `n` bytes of `v` at `a`, least significant byte first,
      as `memory[address + i] = (num >> (i * 8)) & 0xff` does. */
  function StoreLE(m: Mem, a: nat, v: nat, n: nat): (m': Mem)
    ensures forall b: nat {:trigger Read(m', b)} :: b < a || a + n <= b ==> Read(m', b) == Read(m, b)
    ensures LoadLE(m', a, n) == v % Pow2(8 * n)
    decreases n
  {
    if n == 0 then m
    else
      var m1 := StoreLE(m[a := v % 256], a + 1, v / 256, n - 1);
      assert Read(m1, a) == v % 256;
      Pow2Bytes(n);
      ModByteSplit(v, Pow2(8 * (n - 1)));
      m1
  }

  /** The register value that a load of `n` bytes produces from the loaded
      little-endian value `raw`. With `signExtend` (lb, lh, lw) and the top
      loaded bit set, the source ORs in all-ones above the loaded bytes;
      since `raw` has no bits there, the OR is an addition. The 64-bit pattern
      is then stored in a `long` register. */
  function LoadValue(raw: nat, n: nat, signExtend: bool): (r: i64)
    requires n == 1 || n == 2 || n == 4 || n == 8
    requires raw < Pow2(8 * n)
    ensures (r - raw) % Pow2(8 * n) == 0
    ensures n < 8 && signExtend ==> -(Pow2(8 * n - 1) as int) <= r < Pow2(8 * n - 1)
    ensures n < 8 && !signExtend ==> r == raw
  {
    var p := Pow2(8 * n);
    if n == 8 then
      Pow2Top();
      var r := Signed64(raw);
      if raw >= TWO63 then
        assert r - raw == -(p as int);
        DivModUnique(-(p as int), p, -1, 0);
        r
      else
        assert r - raw == 0;
        DivModUnique(0, p, 0, 0);
        r
    else
      NarrowWidth(n);
      if signExtend && raw >= Pow2(8 * n - 1) then
        var r := Signed64(raw + (TWO64 - p));
        assert r - raw == -(p as int);
        DivModUnique(-(p as int), p, -1, 0);
        r
      else
        var r := Signed64(raw);
        assert r == raw;
        DivModUnique(0, p, 0, 0);
        r
  }

  /** A narrow load width is at most 56 bits, so its values are
      non-negative as `long`s and half the range lies below the sign bit. */
  lemma NarrowWidth(n: nat)
    requires n == 1 || n == 2 || n == 4
    ensures Pow2(8 * n) == 2 * Pow2(8 * n - 1) && Pow2(8 * n) <= TWO63 / 2
  {
    Pow2Top();
    Pow2Monotone(8 * n, 62);
    assert Pow2(63) == 2 * Pow2(62);
  }

  /** Values a load of `n` bytes returns unchanged when its bytes are read
      as little-endian: every value for a doubleword, the signed range of
      the width for a sign-extending load, the unsigned range otherwise. */
  predicate LoadsBack(x: i64, n: nat, signExtend: bool) {
    && (0 < n < 8 && signExtend ==> -(Pow2(8 * n - 1) as int) <= x < Pow2(8 * n - 1))
    && (n < 8 && !signExtend ==> 0 <= x < Pow2(8 * n))
  }

  /** Round trip through memory, with the bytes read as little-endian:
      storing the low `n` bytes of a register and loading them back yields
      the register value exactly when it fits the loaded width with the
      load's signedness (every value does for `n == 8`). */
  lemma StoreLoadRoundTrip(m: Mem, a: nat, x: i64, n: nat, signExtend: bool)
    requires n == 1 || n == 2 || n == 4 || n == 8
    ensures LoadValue(LoadLE(StoreLE(m, a, U64(x), n), a, n), n, signExtend) == x <==> LoadsBack(x, n, signExtend)
  {
    var raw := LoadLE(StoreLE(m, a, U64(x), n), a, n);
    assert raw == U64(x) % Pow2(8 * n);
    if n == 8 {
      WideLoad(x, raw, signExtend);
    } else {
      NarrowRoundTrip(x, raw, n, signExtend);
    }
  }

  /** The round trip of a byte, a halfword or a word, from the stored
      bytes. */
  lemma NarrowRoundTrip(x: i64, raw: nat, n: nat, signExtend: bool)
    requires (n == 1 || n == 2 || n == 4) && raw == U64(x) % Pow2(8 * n)
    ensures raw < Pow2(8 * n)
    ensures LoadValue(raw, n, signExtend) == x <==> LoadsBack(x, n, signExtend)
  {
    assert raw < Pow2(8 * n) by { ModBelow(U64(x), Pow2(8 * n)); }
    if LoadsBack(x, n, signExtend) {
      NarrowLoad(x, raw, n, signExtend);
    } else {
      NarrowWidth(n);
    }
  }

  /** A doubleword load returns the stored 64-bit pattern as a `long`. */
  lemma WideLoad(x: i64, raw: nat, signExtend: bool)
    requires raw == U64(x) % Pow2(64)
    ensures raw < Pow2(64) && LoadValue(raw, 8, signExtend) == x
  {
    Pow2Top();
    DivModUnique(U64(x), TWO64, 0, U64(x));
    SignedU64(x);
  }

  /** A narrow load recovers a value stored in its width. */
  lemma NarrowLoad(x: i64, raw: nat, n: nat, signExtend: bool)
    requires n == 1 || n == 2 || n == 4
    requires signExtend ==> -(Pow2(8 * n - 1) as int) <= x < Pow2(8 * n - 1)
    requires !signExtend ==> 0 <= x < Pow2(8 * n)
    requires raw == U64(x) % Pow2(8 * n)
    ensures raw < Pow2(8 * n) && LoadValue(raw, n, signExtend) == x
  {
    NarrowWidth(n);
    assert raw < Pow2(8 * n) by {
      ModBelow(U64(x), Pow2(8 * n));
    }
    assert (raw - x) % Pow2(8 * n) == 0 by {
      WidthSplit(n);
      ModOfMod(x, Pow2(8 * n), Pow2(64 - 8 * n));
      NegatedMultiple(x - raw, Pow2(8 * n));
    }
    NarrowFromResidue(x, raw, n, signExtend);
  }

  /** A narrow load returns `x` when the loaded bytes agree with `x` modulo
      the width and `x` lies in the width's range. */
  lemma NarrowFromResidue(x: int, raw: nat, n: nat, signExtend: bool)
    requires n == 1 || n == 2 || n == 4
    requires signExtend ==> -(Pow2(8 * n - 1) as int) <= x < Pow2(8 * n - 1)
    requires !signExtend ==> 0 <= x < Pow2(8 * n)
    requires raw < Pow2(8 * n) && (raw - x) % Pow2(8 * n) == 0
    ensures LoadValue(raw, n, signExtend) == x
  {
    NarrowWidth(n);
    NarrowValue(raw, n, signExtend);
    var p, h: int := Pow2(8 * n), Pow2(8 * n - 1);
    if signExtend && raw >= h {
      ResidueDown(raw, x, p);
      SameResidueInWindow(raw - p, x, p, -h);
    } else {
      SameResidueInWindow(raw, x, p, if signExtend then -h else 0);
    }
  }

  /** The value of a narrow load: the loaded bytes, less `2^(8n)` when a
      sign-extending load finds the top bit set. */
  lemma NarrowValue(raw: nat, n: nat, signExtend: bool)
    requires (n == 1 || n == 2 || n == 4) && raw < Pow2(8 * n)
    ensures LoadValue(raw, n, signExtend) == if signExtend && raw >= Pow2(8 * n - 1) then raw - Pow2(8 * n) else raw
  {
    NarrowWidth(n);
    Pow2Top();
  }

  /** Subtracting the modulus keeps a residue. */
  lemma ResidueDown(a: int, b: int, p: int)
    requires p >= 1 && (a - b) % p == 0
    ensures ((a - p) - b) % p == 0
  {
    var q := (a - b) / p;
    assert a - b == p * q;
    DivModUnique((a - p) - b, p, q - 1, 0);
  }

  /** A remainder lies below its divisor. */
  lemma ModBelow(a: int, p: int)
    requires p > 0
    ensures 0 <= a % p < p
  {
  }

  /** The load widths divide the 64-bit range. */
  lemma WidthSplit(n: nat)
    requires n <= 8
    ensures Pow2(8 * n) * Pow2(64 - 8 * n) == TWO64
  {
    Pow2Add(8 * n, 64 - 8 * n);
    assert 8 * n + (64 - 8 * n) == 64;
    Pow2Top();
  }

  /** The block of `n` bytes at `a`, as a cache refill copies it. */
  function ReadBlock(m: Mem, a: nat, n: nat): (d: seq<byte>)
    ensures |d| == n
    ensures forall k :: 0 <= k < n ==> d[k] == Read(m, a + k)
  {
    seq<byte>(n, k requires 0 <= k < n => Read(m, a + k))
  }

  /** Copies `d` into memory at `a`, as a dirty-line write-back does. */
  function WriteBlock(m: Mem, a: nat, d: seq<byte>): (m': Mem)
    ensures forall k :: 0 <= k < |d| ==> Read(m', a + k) == d[k]
    ensures forall b: nat {:trigger Read(m', b)} :: b < a || a + |d| <= b ==> Read(m', b) == Read(m, b)
    decreases |d|
  {
    if |d| == 0 then m
    else
      var m1 := WriteBlock(m[a := d[0]], a + 1, d[1..]);
      assert forall j :: 0 <= j < |d| - 1 ==> Read(m1, (a + 1) + j) == d[1..][j];
      m1
  }

  /** The unsigned little-endian value of `n` bytes of a cache block from
      offset `off`. */
  function BytesLE(d: seq<byte>, off: nat, n: nat): (r: nat)
    requires off + n <= |d|
    ensures r < Pow2(8 * n)
    decreases n
  {
    if n == 0 then 0
    else
      Pow2Bytes(n);
      d[off] + 256 * BytesLE(d, off + 1, n - 1)
  }

  /** Writes the low `n` bytes of `v` into a cache block from offset `off`. */
  function StoreBytes(d: seq<byte>, off: nat, v: nat, n: nat): (d': seq<byte>)
    requires off + n <= |d|
    ensures |d'| == |d|
    ensures forall k :: 0 <= k < |d| && (k < off || off + n <= k) ==> d'[k] == d[k]
    ensures BytesLE(d', off, n) == v % Pow2(8 * n)
    decreases n
  {
    if n == 0 then d
    else
      var d1 := StoreBytes(d[off := v % 256], off + 1, v / 256, n - 1);
      Pow2Bytes(n);
      ModByteSplit(v, Pow2(8 * (n - 1)));
      d1
  }

  /** A block copied out of memory holds the same little-endian values as
      memory does. */
  lemma {:induction false} BlockAgrees(m: Mem, base: nat, d: seq<byte>, off: nat, n: nat)
    requires off + n <= |d|
    requires forall k :: 0 <= k < |d| ==> d[k] == Read(m, base + k)
    ensures BytesLE(d, off, n) == LoadLE(m, base + off, n)
    decreases n
  {
    if n > 0 {
      BlockAgrees(m, base, d, off + 1, n - 1);
    }
  }

  /** Writing into a block that mirrors memory mirrors writing into
      memory: the block and memory still agree byte for byte. */
  lemma {:induction false} StoreAgrees(m: Mem, base: nat, d: seq<byte>, off: nat, v: nat, n: nat)
    requires off + n <= |d|
    requires forall k :: 0 <= k < |d| ==> d[k] == Read(m, base + k)
    ensures forall k :: 0 <= k < |d| ==> StoreBytes(d, off, v, n)[k] == Read(StoreLE(m, base + off, v, n), base + k)
    decreases n
  {
    if n > 0 {
      var d1 := d[off := v % 256];
      var m1 := m[base + off := v % 256];
      assert forall k :: 0 <= k < |d1| ==> d1[k] == Read(m1, base + k);
      StoreAgrees(m1, base, d1, off + 1, v / 256, n - 1);
    }
  }

  /** `StoreAgrees` at one offset `k` of the block. */
  lemma StoreAgreesAt(m: Mem, base: nat, d: seq<byte>, off: nat, v: nat, n: nat, k: nat, a: nat, b: nat)
    requires off + n <= |d| && k < |d| && a == base + off && b == base + k
    requires forall j :: 0 <= j < |d| ==> d[j] == Read(m, base + j)
    ensures StoreBytes(d, off, v, n)[k] == Read(StoreLE(m, a, v, n), b)
  {
    StoreAgrees(m, base, d, off, v, n);
  }

  /** The bytes a store writes do not depend on what memory held there. */
  lemma {:induction false} StoreLECongruent(m1: Mem, m2: Mem, a: nat, v: nat, n: nat, b: nat)
    requires Read(m1, b) == Read(m2, b) || a <= b < a + n
    ensures Read(StoreLE(m1, a, v, n), b) == Read(StoreLE(m2, a, v, n), b)
    decreases n
  {
    if n > 0 {
      StoreLECongruent(m1[a := v % 256], m2[a := v % 256], a + 1, v / 256, n - 1, b);
    }
  }

  /** `memory[a + k] << (k * 8)` as written: the byte promoted to `int`,
      shifted by the count modulo 32 (as the x86 shift instruction does for
      the counts 32 to 56, which C leaves undefined), wrapped into an
      `int`. The count `8 * k` modulo 32 is `8 * (k % 4)`. */
  function ShiftedByte(b: byte, k: nat): (r: int)
    ensures IsInt32(r)
  {
    var s := k % 4;
    Wrap32(if s == 0 then b else if s == 1 then 0x100 * b else if s == 2 then 0x1_0000 * b else 0x100_0000 * b)
  }

  /** The byte assembly of the load loops as written,
      `extracted_num = extracted_num + (byte << (k * 8))`, over bytes `k` to
      `n - 1` of a little-endian value: `raw % 256` is byte `k`, and
      `raw / 256` holds the bytes above it. Each shifted `int` is converted
      to the `unsigned long` accumulator, so the sum wraps modulo 2^64;
      wrapping the whole sum once is wrapping at every addition, as
      `AssembleStep` states. */
  function Assemble(raw: nat, k: nat, n: nat): (r: nat)
    ensures r < TWO64
  {
    U64(ShiftedSum(raw, k, n))
  }

  /** The shifted bytes `k` to `n - 1` added up as integers. (`raw` in
      the measure keeps the sum from being unfolded for a literal width
      alone.) */
  function ShiftedSum(raw: nat, k: nat, n: nat): int
    decreases n - k, raw
  {
    if k >= n then 0 else ShiftedByte(raw % 256, k) + ShiftedSum(raw / 256, k + 1, n)
  }

  /** One addition of the load loop: byte `k`, shifted and converted to
      the accumulator, added modulo 2^64 to the bytes above it. */
  lemma AssembleStep(raw: nat, k: nat, n: nat)
    requires k < n
    ensures Assemble(raw, k, n) == (U64(ShiftedByte(raw % 256, k)) + Assemble(raw / 256, k + 1, n)) % TWO64
  {
    U64Sum(ShiftedByte(raw % 256, k), ShiftedSum(raw / 256, k + 1, n));
  }

  /** `u | mask` for a 64-bit `u` and the sign-extension mask of a load
      of `n` bytes (`0xffffffffffffff00`, `0xffffffffffff0000`,
      `0xffffffff00000000`): the low `8 * n` bits of `u` are kept and all
      the others set. */
  function OrHigh(u: nat, n: nat): (r: nat)
    requires n == 1 || n == 2 || n == 4
    ensures r < TWO64
  {
    if n == 1 then u % 0x100 + 0xffff_ffff_ffff_ff00
    else if n == 2 then u % 0x1_0000 + 0xffff_ffff_ffff_0000
    else u % 0x1_0000_0000 + 0xffff_ffff_0000_0000
  }

  /** The OR keeps the low `8 * n` bits of `u` and sets every bit above
      them. */
  lemma OrHighLow(u: nat, n: nat)
    requires n == 1 || n == 2 || n == 4
    ensures OrHigh(u, n) % Pow2(8 * n) == u % Pow2(8 * n)
    ensures OrHigh(u, n) / Pow2(8 * n) == TWO64 / Pow2(8 * n) - 1
  {
    Pow2Byte();
    Pow2Word();
    var p := Pow2(8 * n);
    var r := OrHigh(u, n);
    if n == 1 {
      DivModUnique(r, p, 0xff_ffff_ffff_ffff, u % p);
    } else if n == 2 {
      DivModUnique(r, p, 0xffff_ffff_ffff, u % p);
    } else {
      DivModUnique(r, p, 0xffff_ffff, u % p);
    }
  }

  /** The sign bits and the ranges of the narrow widths. */
  lemma SignBits()
    ensures Pow2(7) == 0x80 && Pow2(8) == 0x100 && Pow2(15) == 0x8000 && Pow2(16) == 0x1_0000
    ensures Pow2(31) == 0x8000_0000 && Pow2(32) == 0x1_0000_0000
  {
    Pow2Byte();
    Pow2Word();
    assert Pow2(8) == 2 * Pow2(7) && Pow2(16) == 2 * Pow2(15);
  }

  /** The sign test of the load loops for a narrow width of `n` bytes:
      `extracted_num & 0x80`, `& 0x8000` or `& 0x80000000` is non-zero. */
  predicate SignBitSet(u: nat, n: nat) {
    if n == 1 then (u / 0x80) % 2 == 1
    else if n == 2 then (u / 0x8000) % 2 == 1
    else (u / 0x8000_0000) % 2 == 1
  }

  /** Within the width, the tested bit is set exactly from half the
      width's range up. */
  lemma SignBitTop(x: nat, n: nat)
    requires (n == 1 || n == 2 || n == 4) && x < Pow2(8 * n)
    ensures SignBitSet(x, n) <==> x >= Pow2(8 * n - 1)
  {
    NarrowWidth(n);
    SignBits();
    var h := if n == 1 then 0x80 else if n == 2 then 0x8000 else 0x8000_0000;
    assert h == Pow2(8 * n - 1);
    TopBit(x, h);
  }

  /** The sign extension of the load path as written: for `lb`, `lh` and
      `lw`, when the assembled pattern has the sign bit of the width set
      (`SignBitSet`), the bits above the width are ORed in; the `long` register takes the pattern. */
  function ExtendAsWritten(u: nat, n: nat, signExtend: bool): (r: i64)
    requires u < TWO64 && (n == 1 || n == 2 || n == 4 || n == 8)
  {
    if signExtend && n < 8 && SignBitSet(u, n) then Signed64(OrHigh(u, n)) else Signed64(u)
  }

  /** The register value that a load of `n` bytes with little-endian value
      `raw` produces as the simulator is written. Bytes and halfwords come
      out as the little-endian reading intends. A word comes out
      sign-extended from 32 bits, for `lwu` as much as for `lw`. A
      doubleword comes out as the sum of its low and its high word, each
      sign-extended from 32 bits. */
  function LoadAsWritten(raw: nat, n: nat, signExtend: bool): (r: i64)
    requires (n == 1 || n == 2 || n == 4 || n == 8) && raw < Pow2(8 * n)
    ensures n <= 2 ==> r == LoadValue(raw, n, signExtend)
    ensures n == 4 ==> r == Wrap32(raw)
    ensures n == 8 ==> r == Wrap64(Wrap32(raw) + Wrap32(raw / TWO32))
  {
    ReadAsWritten(raw, n, signExtend);
    ExtendAsWritten(Assemble(raw, 0, n), n, signExtend)
  }

  /** What the assembly and the extension as written make of each width. */
  lemma ReadAsWritten(raw: nat, n: nat, signExtend: bool)
    requires (n == 1 || n == 2 || n == 4 || n == 8) && raw < Pow2(8 * n)
    ensures n <= 2 ==> ExtendAsWritten(Assemble(raw, 0, n), n, signExtend) == LoadValue(raw, n, signExtend)
    ensures n == 4 ==> ExtendAsWritten(Assemble(raw, 0, n), n, signExtend) == Wrap32(raw)
    ensures n == 8 ==> ExtendAsWritten(Assemble(raw, 0, n), n, signExtend) == Wrap64(Wrap32(raw) + Wrap32(raw / TWO32))
  {
    if n <= 2 {
      ReadNarrow(raw, n, signExtend);
    } else if n == 4 {
      ReadWord(raw, signExtend);
    } else {
      assert ExtendAsWritten(Assemble(raw, 0, n), n, signExtend) == Wrap64(Wrap32(raw) + Wrap32(raw / TWO32)) by {
        ReadDouble(raw, n, signExtend, Wrap32(raw), Wrap32(raw / TWO32));
      }
    }
  }

  /** A byte or a halfword as written is read as intended. */
  lemma ReadNarrow(raw: nat, n: nat, signExtend: bool)
    requires (n == 1 || n == 2) && raw < Pow2(8 * n)
    ensures ExtendAsWritten(Assemble(raw, 0, n), n, signExtend) == LoadValue(raw, n, signExtend)
  {
    AssembleNarrow(raw, n);
    ExtendNarrow(raw, n, signExtend);
  }

  /** A word as written is read sign-extended from 32 bits. */
  lemma ReadWord(raw: nat, signExtend: bool)
    requires raw < Pow2(32)
    ensures ExtendAsWritten(Assemble(raw, 0, 4), 4, signExtend) == Wrap32(raw)
  {
    AssembleWord(raw);
    ExtendWord(raw, signExtend);
  }

  /** A doubleword as written is read as the sum of its two words. */
  lemma ReadDouble(raw: nat, n: nat, signExtend: bool, w0: int, w1: int)
    requires n == 8 && w0 == Wrap32(raw) && w1 == Wrap32(raw / TWO32)
    ensures ExtendAsWritten(Assemble(raw, 0, n), n, signExtend) == Wrap64(w0 + w1)
  {
    AssembleDouble(raw, n, w0, w1);
    assert Assemble(raw, 0, n) == U64(w0 + w1);
    var u, w := Assemble(raw, 0, n), w0 + w1;
    ExtendDouble(u, n, signExtend, w);
  }

  /** A doubleword as written is not extended: the `long` register takes
      the assembled pattern. */
  lemma ExtendDouble(u: nat, n: nat, signExtend: bool, w: int)
    requires n == 8 && u == U64(w)
    ensures ExtendAsWritten(u, n, signExtend) == Wrap64(w)
  {
  }

  /** Below `2 * h`, the bit of a single-bit mask `h` is set exactly from
      `h` up. */
  lemma TopBit(x: nat, h: nat)
    requires h >= 1 && x < 2 * h
    ensures (x / h) % 2 == 1 <==> x >= h
  {
    if x >= h {
      DivModUnique(x, h, 1, x - h);
    } else {
      DivModUnique(x, h, 0, x);
    }
  }

  /** Below 2^24 a byte shift needs no wrap-around; the shift of byte 3
      by 24 does. */
  lemma ShiftedBytes(b: byte)
    ensures ShiftedByte(b, 0) == b && ShiftedByte(b, 1) == 256 * b && ShiftedByte(b, 2) == 0x1_0000 * b
    ensures ShiftedByte(b, 3) == Wrap32(0x100_0000 * b)
  {
    ShiftedLow(b);
  }

  /** Bytes 0 to 2 land unchanged in an `int`. */
  lemma ShiftedLow(b: byte)
    ensures ShiftedByte(b, 0) == b && ShiftedByte(b, 1) == 256 * b && ShiftedByte(b, 2) == 0x1_0000 * b
  {
    Wrap32Id(b);
    Wrap32Id(256 * b);
    Wrap32Id(0x1_0000 * b);
  }

  /** Byte `k + 4` is shifted as byte `k` is. */
  lemma ShiftedByteWraps(b: byte, k: nat)
    ensures ShiftedByte(b, k + 4) == ShiftedByte(b, k)
  {
  }

  /** The as-written assembly of a byte or a halfword is its value. */
  lemma AssembleNarrow(raw: nat, n: nat)
    requires (n == 1 || n == 2) && raw < Pow2(8 * n)
    ensures Assemble(raw, 0, n) == raw
  {
    Pow2Byte();
    if n == 1 {
      SumByte(raw, n);
    } else {
      SumHalf(raw, n);
    }
    AssembleOf(raw, 0, n, raw);
    U64Id(raw);
  }

  /** The shifted sum of a single byte is the byte. */
  lemma SumByte(raw: nat, n: nat)
    requires n == 1 && raw < 256
    ensures ShiftedSum(raw, 0, n) == raw
  {
    DivModUnique(raw, 256, 0, raw);
    ShiftedLow(raw);
    assert ShiftedSum(raw / 256, 1, n) == 0;
  }

  /** The shifted sum of a halfword is the halfword. */
  lemma SumHalf(raw: nat, n: nat)
    requires n == 2 && raw < 0x1_0000
    ensures ShiftedSum(raw, 0, n) == raw
  {
    var b0, hi := raw % 256, raw / 256;
    ShiftedLow(b0);
    DivModUnique(hi, 256, 0, hi);
    ShiftedLow(hi);
    assert ShiftedSum(hi / 256, 2, n) == 0;
    assert ShiftedSum(hi, 1, n) == 256 * hi;
  }

  /** The as-written extension of a byte or a halfword is the intended
      one: the tested bit is the top bit of the width, and the OR with the
      mask adds the bits above the width. */
  lemma ExtendNarrow(raw: nat, n: nat, signExtend: bool)
    requires (n == 1 || n == 2) && raw < Pow2(8 * n)
    ensures raw < TWO64 && ExtendAsWritten(raw, n, signExtend) == LoadValue(raw, n, signExtend)
  {
    NarrowWidth(n);
    SignBits();
    var p, h := Pow2(8 * n), Pow2(8 * n - 1);
    SignBitTop(raw, n);
    ExtendNarrowValue(raw, n, signExtend, p, h);
    NarrowValue(raw, n, signExtend);
  }

  /** The as-written extension of a byte or a halfword `raw` below `p`,
      whose sign bit is `h`, subtracts `p` when the sign bit is set. */
  lemma ExtendNarrowValue(raw: nat, n: nat, signExtend: bool, p: nat, h: nat)
    requires (n == 1 && p == 0x100 && h == 0x80) || (n == 2 && p == 0x1_0000 && h == 0x8000)
    requires raw < p && (SignBitSet(raw, n) <==> raw >= h)
    ensures ExtendAsWritten(raw, n, signExtend) == if signExtend && raw >= h then raw - p else raw
  {
    DivModUnique(raw, p, 0, raw);
  }

  /** The as-written assembly of a word: bytes 0 to 2 land unchanged and
      byte 3 is shifted into the sign bit of an `int`, so the word comes
      out sign-extended from 32 bits. */
  lemma AssembleWord(raw: nat)
    ensures Assemble(raw, 0, 4) == U64(Wrap32(raw))
  {
    SumWord(raw);
    WrapWord(raw);
  }

  /** The as-written sum of a word's bytes: bytes 0 to 2 in place and byte
      3 shifted into an `int`. */
  function WordSum(raw: nat): int {
    raw % 256 + 256 * (raw / 256 % 256) + 0x1_0000 * (raw / 256 / 256 % 256)
      + Wrap32(0x100_0000 * (raw / 256 / 256 / 256 % 256))
  }

  /** Bytes 0 to 3 of a word, shifted as written, add up to `WordSum`. */
  lemma SumWord(raw: nat)
    ensures ShiftedSum(raw, 0, 4) == WordSum(raw)
  {
    var r1 := raw / 256;
    var r2 := r1 / 256;
    var r3 := r2 / 256;
    ShiftedBytes(raw % 256);
    ShiftedBytes(r1 % 256);
    ShiftedBytes(r2 % 256);
    ShiftedBytes(r3 % 256);
    assert ShiftedSum(r3, 3, 4) == Wrap32(0x100_0000 * (r3 % 256)) by {
      assert ShiftedSum(r3 / 256, 4, 4) == 0;
    }
    assert ShiftedSum(r2, 2, 4) == 0x1_0000 * (r2 % 256) + ShiftedSum(r3, 3, 4);
    assert ShiftedSum(r1, 1, 4) == 256 * (r1 % 256) + ShiftedSum(r2, 2, 4);
    assert ShiftedSum(raw, 0, 4) == raw % 256 + ShiftedSum(r1, 1, 4);
  }

  /** The `int` a word's bytes make: bytes 0 to 2, plus byte 3 shifted
      into the sign bit. */
  lemma WrapWord(raw: nat)
    ensures Wrap32(raw) == WordSum(raw)
  {
    var b3 := Above(raw, 3) % 256;
    var low := raw % 256 + 256 * (Above(raw, 1) % 256) + 0x1_0000 * (Above(raw, 2) % 256);
    WordBytes(raw);
    DivModUnique(raw, TWO32, Above(raw, 4), low + 0x100_0000 * b3);
    DivModUnique(0x100_0000 * b3, TWO32, 0, 0x100_0000 * b3);
    AboveNext(raw, 0);
    AboveNext(raw, 1);
    AboveNext(raw, 2);
  }

  /** A value is its bytes 0 to 3 plus 2^32 times the bytes above. */
  lemma WordBytes(raw: nat)
    ensures raw == TWO32 * Above(raw, 4) + raw % 256 + 256 * (Above(raw, 1) % 256)
      + 0x1_0000 * (Above(raw, 2) % 256) + 0x100_0000 * (Above(raw, 3) % 256)
  {
    var r1, r2, r3, r4 := Above(raw, 1), Above(raw, 2), Above(raw, 3), Above(raw, 4);
    AboveNext(raw, 0);
    AboveNext(raw, 1);
    AboveNext(raw, 2);
    AboveNext(raw, 3);
    assert raw == 256 * r1 + raw % 256;
    assert r1 == 256 * r2 + r1 % 256;
    assert r2 == 256 * r3 + r2 % 256;
    assert r3 == 256 * r4 + r3 % 256;
  }

  /** The as-written extension leaves a sign-extended word alone: `lw`
      and `lwu` give the same value. */
  lemma ExtendWord(raw: nat, signExtend: bool)
    requires raw < Pow2(32)
    ensures ExtendAsWritten(U64(Wrap32(raw)), 4, signExtend) == Wrap32(raw)
  {
    Pow2Word();
    var u := U64(Wrap32(raw));
    DivModUnique(raw, TWO32, 0, raw);
    if raw < TWO31 {
      U64Id(raw);
      TopBit(raw, 0x8000_0000);
    } else {
      U64Negative(raw - TWO32);
      assert u == raw + (TWO64 - TWO32);
      DivModUnique(u, TWO32, 0xffff_ffff, raw);
      assert OrHigh(u, 4) == u;
    }
    SignedU64(Wrap32(raw));
  }

  /** Bytes `k + 4` to `n + 3` are shifted as bytes `k` to `n - 1` are. */
  lemma {:induction false} SumShift(raw: nat, k: nat, n: nat)
    ensures ShiftedSum(raw, k + 4, n + 4) == ShiftedSum(raw, k, n)
    decreases n - k
  {
    if k < n {
      ShiftedByteWraps(raw % 256, k);
      SumShift(raw / 256, k + 1, n);
    }
  }

  /** `(a mod M + b) mod M` is `(a + b) mod M`. */
  lemma AddMod(a: int, b: int, M: int)
    requires M > 0
    ensures (a % M + b) % M == (a + b) % M
  {
    var s := a % M + b;
    assert a + b == M * (a / M) + s;
    assert s == M * (s / M) + s % M;
    assert a + b == M * (a / M + s / M) + s % M;
    DivModUnique(a + b, M, a / M + s / M, s % M);
  }

  /** The bytes of a little-endian value from byte `j` up. */
  function Above(raw: nat, j: nat): nat {
    if j == 0 then raw else Above(raw / 256, j - 1)
  }

  /** One byte further up. */
  lemma {:induction false} AboveNext(raw: nat, j: nat)
    ensures Above(raw, j + 1) == Above(raw, j) / 256
    decreases j
  {
    if j > 0 {
      AboveNext(raw / 256, j - 1);
    }
  }

  /** The shifted bytes `k` to `n - 1` split at byte `m`. */
  lemma {:induction false} SumCut(raw: nat, k: nat, m: nat, n: nat)
    requires k <= m <= n
    ensures ShiftedSum(raw, k, n) == ShiftedSum(raw, k, m) + ShiftedSum(Above(raw, m - k), m, n)
    decreases m - k
  {
    if k < m {
      assert Above(raw / 256, m - (k + 1)) == Above(raw, m - k);
      SumCut(raw / 256, k + 1, m, n);
    }
  }

  /** Four bytes up is the quotient by 2^32. */
  lemma AboveWord(raw: nat)
    ensures Above(raw, 4) == raw / TWO32
  {
    WordBytes(raw);
    DivModUnique(raw, TWO32, Above(raw, 4), raw % 256 + 256 * (Above(raw, 1) % 256)
      + 0x1_0000 * (Above(raw, 2) % 256) + 0x100_0000 * (Above(raw, 3) % 256));
  }

  /** Reducing two summands modulo 2^64 first does not change the sum
      modulo 2^64. */
  lemma U64Sum(a: int, b: int)
    ensures (U64(a) + U64(b)) % TWO64 == U64(a + b)
  {
    AddMod(a, U64(b), TWO64);
    AddMod(b, a, TWO64);
  }

  /** The as-written assembly of a doubleword: bytes 4 to 7 are shifted as
      bytes 0 to 3, so the high word is added onto the low word, each
      sign-extended from 32 bits. */
  lemma AssembleDouble(raw: nat, n: nat, w0: int, w1: int)
    requires n == 8 && w0 == Wrap32(raw) && w1 == Wrap32(raw / TWO32)
    ensures Assemble(raw, 0, n) == U64(w0 + w1)
  {
    DoubleWords(raw, n, w0, w1);
    AssembleOf(raw, 0, n, w0 + w1);
  }

  /** The shifted bytes of a doubleword add up to its two words, each
      sign-extended from 32 bits. */
  lemma DoubleWords(raw: nat, n: nat, w0: int, w1: int)
    requires n == 8 && w0 == Wrap32(raw) && w1 == Wrap32(raw / TWO32)
    ensures ShiftedSum(raw, 0, n) == w0 + w1
  {
    DoubleSum(raw, raw / TWO32);
    WrapWord(raw);
    WrapWord(raw / TWO32);
  }

  /** The assembly wraps the sum of the shifted bytes once. */
  lemma AssembleOf(raw: nat, k: nat, n: nat, sum: int)
    requires ShiftedSum(raw, k, n) == sum
    ensures Assemble(raw, k, n) == U64(sum)
  {
  }

  /** The shifted bytes of a doubleword: the word sums of its low and its
      high word. */
  lemma DoubleSum(raw: nat, hi: nat)
    requires hi == raw / TWO32
    ensures ShiftedSum(raw, 0, 8) == WordSum(raw) + WordSum(hi)
  {
    DoubleCut(raw, hi);
    HighSum(hi);
    SumWord(raw);
  }

  /** A doubleword's shifted bytes split into its low and its high word. */
  lemma DoubleCut(raw: nat, hi: nat)
    requires hi == raw / TWO32
    ensures ShiftedSum(raw, 0, 8) == ShiftedSum(raw, 0, 4) + ShiftedSum(hi, 4, 8)
  {
    SumCut(raw, 0, 4, 8);
    AboveWord(raw);
  }

  /** The high word's bytes are shifted as a word's. */
  lemma HighSum(hi: nat)
    ensures ShiftedSum(hi, 4, 8) == WordSum(hi)
  {
    SumShift(hi, 0, 4);
    SumWord(hi);
  }

  /** Values a load of `n` bytes returns unchanged as the simulator is
      written: the intended ones for bytes and halfwords; every `int` for a
      word, whether the load is `lw` or `lwu`; only 0 to 2^31 - 1 for a
      doubleword. */
  predicate LoadsBackAsWritten(x: i64, n: nat, signExtend: bool) {
    if n == 8 then 0 <= x < TWO31
    else if n == 4 then IsInt32(x)
    else LoadsBack(x, n, signExtend)
  }

  /** Round trip through memory as the simulator is written: storing the
      low `n` bytes of a register and loading them back yields the register
      value exactly when `LoadsBackAsWritten` holds. A `sd` of -1 followed by
      `ld` yields -2, and a `sw` of 2^31 followed by `lwu` yields -2^31. */
  lemma StoreLoadAsWritten(m: Mem, a: nat, x: i64, n: nat, signExtend: bool)
    requires n == 1 || n == 2 || n == 4 || n == 8
    ensures LoadAsWritten(LoadLE(StoreLE(m, a, U64(x), n), a, n), n, signExtend) == x
      <==> LoadsBackAsWritten(x, n, signExtend)
  {
    var raw := LoadLE(StoreLE(m, a, U64(x), n), a, n);
    assert raw == U64(x) % Pow2(8 * n);
    if n <= 2 {
      StoreLoadRoundTrip(m, a, x, n, signExtend);
    } else {
      WideAsWritten(x, n, signExtend, raw);
    }
  }

  /** The round trip as written for words and doublewords, from the
      stored bytes. */
  lemma WideAsWritten(x: i64, n: nat, signExtend: bool, raw: nat)
    requires (n == 4 || n == 8) && raw == U64(x) % Pow2(8 * n)
    ensures LoadAsWritten(raw, n, signExtend) == x <==> LoadsBackAsWritten(x, n, signExtend)
  {
    if n == 4 {
      WordWide(x, signExtend, raw);
    } else {
      DoubleWide(x, signExtend, raw);
    }
  }

  /** A word as written, from the stored bytes. */
  lemma WordWide(x: i64, signExtend: bool, raw: nat)
    requires raw == U64(x) % Pow2(32)
    ensures LoadAsWritten(raw, 4, signExtend) == x <==> IsInt32(x)
  {
    Pow2Word();
    assert raw < Pow2(32) && raw == U64(x) % TWO32 by {
      ModBelow(U64(x), TWO32);
    }
    WordAsWritten(x, raw);
  }

  /** A doubleword as written, from the stored bytes. */
  lemma DoubleWide(x: i64, signExtend: bool, raw: nat)
    requires raw == U64(x) % Pow2(64)
    ensures LoadAsWritten(raw, 8, signExtend) == x <==> 0 <= x < TWO31
  {
    Pow2Top();
    assert raw < Pow2(64) && raw == U64(x) % TWO64 by {
      ModBelow(U64(x), TWO64);
    }
    var v := LoadAsWritten(raw, 8, signExtend);
    assert v == Wrap64(Wrap32(raw) + Wrap32(raw / TWO32));
    DoubleAsWritten(x, raw);
  }

  /** A word read back as written is the stored value exactly for `int`s. */
  lemma WordAsWritten(x: i64, raw: nat)
    requires raw == U64(x) % TWO32
    ensures Wrap32(raw) == x <==> IsInt32(x)
  {
    var w := Wrap32(raw);
    ModOfMod(x, TWO32, TWO32);
    NegatedMultiple(raw - w, TWO32);
    CongruentTrans(w, raw, x, TWO32);
    if IsInt32(x) {
      SameResidueInWindow(w, x, TWO32, -TWO31);
    }
  }

  /** A doubleword read back as written is the stored value exactly from
      0 to 2^31 - 1: any other value has a high word or a low word that
      reads as negative. */
  lemma DoubleAsWritten(x: i64, raw: nat)
    requires raw == U64(x) % TWO64
    ensures Wrap64(Wrap32(raw) + Wrap32(raw / TWO32)) == x <==> 0 <= x < TWO31
  {
    U64Id(U64(x));
    var lo, hi := Wrap32(raw), Wrap32(raw / TWO32);
    var s: i64 := lo + hi;
    SignedU64(s);
    if 0 <= x < TWO31 {
      U64Id(x);
      DivModUnique(x, TWO32, 0, x);
      Wrap32Id(x);
      Wrap32Id(0);
    }
    if s == x {
      DoubleHighZero(x, raw);
    }
  }

  /** If the two sign-extended words of `x`'s pattern add up to `x`, the
      high word is zero and the low word non-negative. */
  lemma DoubleHighZero(x: i64, raw: nat)
    requires raw == U64(x) && Wrap32(raw) + Wrap32(raw / TWO32) == x
    ensures 0 <= x < TWO31
  {
    var hi := raw / TWO32;
    var w, wh := Wrap32(raw), Wrap32(hi);
    var q := (x - raw) / TWO64;
    assert x - raw == TWO64 * q;
    var q2 := (raw - w) / TWO32;
    assert raw - w == TWO32 * q2;
    assert wh == TWO32 * (TWO32 * q + q2) by {
      assert wh == (x - raw) + (raw - w);
      assert TWO64 * q == TWO32 * (TWO32 * q);
    }
    DivModUnique(wh, TWO32, TWO32 * q + q2, 0);
    SameResidueInWindow(wh, 0, TWO32, -TWO31);
    assert hi < TWO32;
    DivModUnique(hi, TWO32, 0, hi);
    assert hi == 0;
    if x < 0 {
      U64Negative(x);
    }
  }

  /** `ld` as written: a one in byte 4 of a doubleword is shifted by 32,
      which the `int` shift turns into a shift by 0, so the register gets 1
      where the little-endian doubleword at `a` is `2^32`. */
  lemma LdAsWrittenDropsHighWord(a: nat)
    ensures LoadLE(map[a + 4 := 1], a, 8) == TWO32
    ensures LoadAsWritten(LoadLE(map[a + 4 := 1], a, 8), 8, false) == 1
    ensures LoadValue(LoadLE(map[a + 4 := 1], a, 8), 8, false) == TWO32
  {
    var m: Mem := map[a + 4 := 1];
    LdLittleEndianValue(m, a);
    Pow2Top();
    var raw := LoadLE(m, a, 8);
    assert Wrap32(raw) == 0 && Wrap32(raw / TWO32) == 1 by {
      DivModUnique(TWO32, TWO32, 1, 0);
      Wrap32Id(1);
    }
    assert Wrap64(1) == 1 by {
      U64Id(1);
    }
    assert LoadValue(raw, 8, false) == TWO32 by {
      U64Id(TWO32);
    }
  }

  /** `sd` of -1 then `ld` as written: both words read as -1, so the
      register gets -2. */
  lemma LdAsWrittenMinusOne(m: Mem, a: nat)
    ensures LoadAsWritten(LoadLE(StoreLE(m, a, U64(-1), 8), a, 8), 8, true) == -2
  {
    Pow2Top();
    U64Negative(-1);
    var raw := LoadLE(StoreLE(m, a, U64(-1), 8), a, 8);
    U64Id(TWO64 - 1);
    assert raw == TWO64 - 1;
    DivModUnique(raw, TWO32, TWO32 - 1, TWO32 - 1);
    DivModUnique(TWO32 - 1, TWO32, 0, TWO32 - 1);
    U64Negative(-2);
  }

  lemma LdLittleEndianValue(m: Mem, a: nat)
    requires m == map[a + 4 := 1]
    ensures LoadLE(m, a, 8) == TWO32
  {
    assert LoadLE(m, a + 7, 1) == 0;
    assert LoadLE(m, a + 6, 2) == 0;
    assert LoadLE(m, a + 5, 3) == 0;
    assert LoadLE(m, a + 4, 4) == 1;
    assert LoadLE(m, a + 3, 5) == 256;
    assert LoadLE(m, a + 2, 6) == 0x1_0000;
    assert LoadLE(m, a + 1, 7) == 0x100_0000;
  }

  /** `lwu` as written: a top byte of `0x80` overflows the `int` shift into
      the sign bit and is sign-extended, so the zero-extending load yields
      `-2^31` where the word at `a` is `2^31`. */
  lemma LwuAsWrittenSignExtends(a: nat)
    ensures LoadLE(map[a + 3 := 0x80], a, 4) == TWO31
    ensures LoadAsWritten(LoadLE(map[a + 3 := 0x80], a, 4), 4, false) == -TWO31
    ensures LoadValue(LoadLE(map[a + 3 := 0x80], a, 4), 4, false) == TWO31
  {
    var m: Mem := map[a + 3 := 0x80];
    LwuLittleEndianValue(m, a);
    Pow2Word();
    DivModUnique(TWO31, TWO32, 0, TWO31);
  }

  lemma LwuLittleEndianValue(m: Mem, a: nat)
    requires m == map[a + 3 := 0x80]
    ensures LoadLE(m, a, 4) == TWO31
  {
    assert LoadLE(m, a + 3, 1) == 0x80;
    assert LoadLE(m, a + 2, 2) == 0x8000;
    assert LoadLE(m, a + 1, 3) == 0x80_0000;
  }
}
