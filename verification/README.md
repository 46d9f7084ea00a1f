# RISC-V simulator core in Dafny

This project models the core of a small RISC-V (RV64I subset) simulator and assembler written in C++, and proves properties of the model. It has four parts:

- **Execution engine.** This is `convert` and its helpers. It decodes one line of assembly text into a mnemonic and operand text. Operands are read as registers (numbered or ABI aliases), immediates (decimal, `0x`, `0b`, labels) and `.data` literals. The opcode then dispatches to the ALU, to loads and stores, to branches, to `jal`/`jalr` and to `lui`. The result is the `(value, transfer)` pair: `-1` is an error, `-2` a breakpoint, `(0, false)` falls through and `(pc', true)` transfers control.
- **Data cache.** This covers the cache paths of loads and stores and the configuration code around them. A 20-bit address is cut into tag, index and offset. Hits and misses are counted. The victim is the first invalid way, or else chosen by random, LRU or FIFO replacement. A dirty victim is written back, and the line is refilled from memory. The write policies are write-back with write-allocate and write-through without allocation. `enableCache`, `invalidateCache` and `dumpCache` are modelled as well.
- **Debugger.** This covers `run`, `step`, `updateStatus`, breakpoints and the call stack that `run` keeps for `jal`/`jalr`.
- **Assembler encoder.** This is the per-format field packing of the assembler's `convert` (R, I, load, S, B, J and U types) and `binToHex`.

Modules follow the program's structure:

| file | module | contents |
|---|---|---|
| `wrappers.dfy` | `Wrappers` | `Option` |
| `arith.dfy` | `Arith` | C integer widths, wrap-around, truncating `/` and `%`, bitwise operators |
| `tokens.dfy` | `Tokens` | the maximal-run reading of operand lists and the `.data` splitter |
| `parse.dfy` | `Parse` | `stoi`/`stoul`, `safeStoi`, `getDec`, `decToHex` |
| `operands.dfy` | `Operands` | `getArguments` |
| `registers.dfy` | `Registers` | `getRegister`, `checkRegister` |
| `immediates.dfy` | `Immediates` | `getImmediate` in the simulator and in the assembler |
| `alu.dfy` | `Alu` | `ALU` |
| `memory.dfy` | `Memory` | byte memory, little-endian loads and stores, sign extension, and the loads' byte assembly as the code is written |
| `datasection.dfy` | `DataSection` | `memHandle` |
| `cache.dfy` | `CacheSim` | the cache records, `enableCache`, `invalidateCache`, `dumpCache` |
| `cacheaccess.dfy` | `CacheAccess` | address split, lookup, replacement, refill, cached load and store |
| `coherence.dfy` | `Coherence` | the cache is transparent: loads and stores through it act on the memory the program sees |
| `engine.dfy` | `Engine` | the machine state and `convert` |
| `semantics.dfy` | `Semantics` | properties relating several instructions |
| `debugger.dfy` | `Debugger` | `run`, `step`, `updateStatus`, breakpoints, `showStack` |
| `bitstrings.dfy` | `BitStrings` | `bitset<w>` strings, two's-complement reading, `binToHex` |
| `assembler.dfy` | `Assembler` | the assembler's tables, encoders and line assembly |

How values are represented:

- Registers are unbounded integers constrained to the signed 64-bit range. Every wrap-around the C++ code relies on is written out: 64-bit for `long`, 32-bit where results are stored into an `int`.
- Memory is a map from address to byte, in which a missing address reads as zero.
- The cache is an immutable record holding a sequence of sets of line records.

## Model

| member | source | states |
|---|---|---|
| Arith.U64 | simulator.cpp:511-541 | `(unsigned long) x` is below 2^64 and congruent to `x` modulo 2^64 |
| Arith.Signed64 | simulator.cpp:1000-1051 | reading an unsigned pattern as a `long` gives back that pattern, negative exactly when bit 63 is set |
| Arith.Wrap32 | simulator.cpp:1532-1555 | a result stored into an `int` is in the 32-bit range and congruent modulo 2^32 |
| Arith.CDiv | simulator.cpp:1829-1833 | C's `/` truncates toward zero: Euclidean division for a non-negative dividend, negated for a negative one |
| Arith.CMod | simulator.cpp:1523-1530 | C's `%` lies strictly between `-b` and `b` and takes the sign of the dividend |
| Arith.Log2 | simulator.cpp:1056-1057 | `(int) log2(n)` is the `r` with `2^r <= n < 2^(r+1)` |
| Arith.Bitwise | simulator.cpp:441-452 | every bit of the result is the operator applied to the operands' bits, and no bit above `n` is set |
| Arith.ArithShiftRight | simulator.cpp:461-464 | the arithmetic shift is division by `2^c` rounding toward negative infinity |
| Tokens.RunsWellFormed | simulator.cpp:127-142 | every operand token is non-empty and free of separators |
| Tokens.DataArguments | simulator.cpp:125-142 | the `.data` splitter returns exactly the maximal runs of non-separator characters, in order |
| Parse.Digits | simulator.cpp:511-541 | a numeral has at least one lower-case digit of the base and no leading zero unless it is `0` |
| Parse.DigitsValue | simulator.cpp:511-541 | a numeral reads back, in its base, as the number it was written from |
| Parse.ScanInteger | simulator.cpp:478-509 | a scan that succeeds ends after a digit of the base and before any further digit of it |
| Parse.Stoul | simulator.cpp:46-118 | `stoul` succeeds exactly when a numeral is found with magnitude below 2^64, and then gives a value below 2^64 |
| Parse.Stoi | simulator.cpp:478-509 | a `stoi` result fits an `int` and consumes at least one character |
| Parse.ToInt | simulator.cpp:543-574 | `hexToInt`/`binToInt` succeed exactly when `safeStoi` accepts the text, and then give `stoi`'s value |
| Parse.DecToHex | simulator.cpp:511-541 | `decToHex` writes lower-case hex digits without leading zeros whose value is the 64-bit pattern of the number |
| Parse.DecToHexNegative | simulator.cpp:511-541 | a negative number's text names its two's complement, `num + 2^64` |
| Parse.GetDecDecimal | simulator.cpp:46-118 | a decimal numeral of a non-negative `long` reads back as that value |
| Parse.GetDecNegative | simulator.cpp:46-118 | a minus sign before a decimal numeral reads back as the negated value |
| Parse.GetDecHex | simulator.cpp:46-118 | for every `long`, `getDec` of `0x` plus `decToHex`'s text gives back the value |
| Parse.StoiDecimal | simulator.cpp:478-509 | the decimal numeral of a value that fits an `int` converts fully and `safeStoi` accepts it |
| Parse.StoiNegative | simulator.cpp:478-509 | `-` before a decimal numeral of magnitude up to 2^31 converts fully to the negated value |
| Parse.StoiHex | simulator.cpp:478-509 | the `0x` hex numeral of a value that fits an `int` converts fully |
| Parse.SafeStoiTrailingThree | simulator.cpp:489-495 | `safeStoi` accepts a negative number followed by three characters that stop the scan, and `stoi` then yields the number alone (`-1abc` reads as -1) |
| Operands.GetArguments | simulator.cpp:625-728 | the list is accepted exactly when it has `count` tokens and its brackets pair up singly. An accepted list is the tokens. In every case the result is a prefix of the tokens, at most `count` long |
| Operands.GetArgumentsCorrect | simulator.cpp:643-726 | the four loops of `getArguments`, run in sequence, give the result above |
| Registers.GetRegister | simulator.cpp:591-617 | the register number fits an `int`, and a name that neither starts with `x` nor is an ABI alias gives -1 |
| Registers.Register | simulator.cpp:576-617 | a register operand is accepted exactly when `getRegister` gives a number in 0..31 that `checkRegister` lets through, and it is that number |
| Registers.NumberedRegister | simulator.cpp:591-604 | `x` followed by the decimal numeral of `k` reads back as `k`, and names a register exactly when `k < 32` |
| Registers.AliasRegister | simulator.cpp:393-425 | every ABI name resolves to the register the alias table maps it to |
| Registers.AliasNamesPlain | simulator.cpp:393-425 | no ABI name starts with `x`, so none is taken for a numbered name |
| Registers.RegisterNames | simulator.cpp:591-617 | only `x` names and ABI aliases name a register |
| Immediates.GetImmediate | simulator.cpp:736-791 | the value fits an `int`. An error (flag set, not a known label) has value 0. A clear flag means the text was not taken as a label. A plain decimal operand sets the flag exactly when `safeStoi` rejects it |
| Immediates.HighByteNotLabel | simulator.cpp:745 | an operand whose first byte is 0x80 or above is never a label, since the signed `char` compares below `A`, even when a label of that name exists: the simulator flags an error with value 0 and the assembler stops |
| Immediates.AssemblerAgrees | assembler.cpp:276-316 | the assembler reads every immediate as the simulator does, and stops exactly where the simulator reports an error |
| Immediates.ImmediateDecimal | simulator.cpp:736-791 | a decimal numeral below 2^31 reads as its value with the flag clear |
| Immediates.ImmediateNegative | simulator.cpp:736-791 | `-n` for `1 <= n <= 2^31` reads as `-n` with the flag clear |
| Immediates.ImmediateHex | simulator.cpp:736-791 | the `0x` form of a value below 2^31 reads as the value |
| Immediates.ImmediateLabel | assembler.cpp:284-296 | a known label resolves to its distance from `pc` with the flag set. An unknown label gives an error flag in the simulator and stops the assembler |
| Alu.BitwiseLong | simulator.cpp:441-452 | `&`, `\|` and `^` on `long`s act bit by bit on the 64-bit patterns |
| Alu.AddLong | simulator.cpp:433-436 | the `long` sum is the exact sum modulo 2^64 |
| Alu.SubLong | simulator.cpp:437-440 | the `long` difference is the exact difference modulo 2^64 |
| Alu.ShiftLeft | simulator.cpp:453-456 | `v << c` is `v * 2^c` modulo 2^64 |
| Alu.ShiftRightLogical | simulator.cpp:457-460 | the logical shift is the unsigned pattern divided by `2^c`, rounded down |
| Alu.ShiftRightArith | simulator.cpp:461-464 | the arithmetic shift is the value divided by `2^c`, rounded toward negative infinity |
| Alu.Exec | simulator.cpp:465-472 | `slt` gives 1 exactly when `v1 < v2` (signed) and 0 otherwise, and an unknown operation gives 0 |
| Alu.Mnemonics | simulator.cpp:431-473 | each immediate form selects its register form's operation, and `sltu`/`sltiu` select none |
| Alu.UnsignedCompareIsZero | simulator.cpp:465-472 | `sltu` and `sltiu` give 0 whatever the operands |
| Alu.SubUndoesAdd | simulator.cpp:433-440 | `sub` undoes `add`, wrap-around included |
| Alu.XorTwice | simulator.cpp:449-452 | `xor` with the same operand twice is the identity |
| Alu.ShiftsAgreeOnNonNegative | simulator.cpp:457-464 | on non-negative values `srl` and `sra` agree |
| Alu.SltAntisymmetric | simulator.cpp:465-468 | of `slt(a, b)` and `slt(b, a)` exactly one is 1 unless `a == b`, when both are 0 |
| Memory.LoadLE | simulator.cpp:1024-1029 | a little-endian load of `n` bytes is below `2^(8n)` |
| Memory.StoreLE | simulator.cpp:1305-1311 | a store writes only its `n` bytes, and loading them back gives the stored value modulo `2^(8n)` |
| Memory.LoadValue | simulator.cpp:1030-1043 | the intended reading of the loaded bytes: the register value is congruent to their little-endian value. A sign-extending narrow load lies in its signed range. A zero-extending narrow load is the bytes' value |
| Memory.StoreLoadRoundTrip | simulator.cpp:1000-1051 | with the intended reading, storing a register's low `n` bytes and loading them back returns the register exactly when it fits the width with the load's signedness; a doubleword always comes back |
| Memory.BlockAgrees | simulator.cpp:1194-1197 | a block copied out of memory holds the same little-endian values as memory |
| Memory.StoreAgrees | simulator.cpp:1355-1377 | writing into a block that mirrors memory mirrors writing into memory |
| Memory.LoadAsWritten | simulator.cpp:1026-1043 | the register a load writes as the code is written, with each byte promoted to `int` before its shift: bytes and halfwords come out as the intended reading gives them, a word comes out sign-extended from 32 bits for `lwu` as much as for `lw`, and a doubleword is the sum of its low and high words, each sign-extended from 32 bits |
| Memory.StoreLoadAsWritten | simulator.cpp:1000-1051 | storing a register's low `n` bytes and loading them back as written returns the register exactly when it fits the width and signedness for bytes and halfwords, when it fits an `int` for words (signed or not), and only from 0 to 2^31 - 1 for doublewords |
| Memory.LdAsWrittenMinusOne | simulator.cpp:1026-1029 | `sd` of -1 followed by `ld` of the same address loads -2 |
| Memory.LdAsWrittenDropsHighWord | simulator.cpp:1026-1029 | `ld` as written loads 1 where the doubleword's little-endian value is 2^32 |
| Memory.LdLittleEndianValue | simulator.cpp:1026-1029 | the corrected assembly of that doubleword is 2^32 |
| Memory.LwuAsWrittenSignExtends | simulator.cpp:1026-1029 | `lwu` as written loads -2^31 where the word holds 2^31 |
| Memory.LwuLittleEndianValue | simulator.cpp:1026-1029 | the corrected assembly of that word is 2^31 |
| DataSection.DataValue | simulator.cpp:150-162 | a literal is accepted exactly when `getDec` reads it and it lies between the signed minimum and the unsigned maximum of the item size, and then it is `getDec`'s value |
| DataSection.EncodedBytes | simulator.cpp:163-166 | the low `size` bytes of an accepted literal are its unsigned encoding |
| DataSection.EncodedCongruent | simulator.cpp:163-166 | the encoding is in `[0, 2^(8 size))` and congruent to the literal |
| DataSection.ReadLiteral | simulator.cpp:150-162 | one literal is valid exactly when `DataValue` accepts it, and then its value is returned |
| DataSection.MemHandle | simulator.cpp:123-171 | `memHandle` succeeds exactly when the line has a token and every token is a valid literal. On success every literal is stored little-endian in consecutive items, the address advances by one item per literal, and memory outside the items is unchanged |
| CacheSim.NewLine | cache_simulator.h:21-28 | a new line is invalid and clean, with access time 0 and exactly `size` zero bytes |
| CacheSim.SetTag | cache_simulator.h:30-33 | `setTag` changes the tag and nothing else |
| CacheSim.SetValid | cache_simulator.h:35-38 | `setValid` changes the valid bit and nothing else |
| CacheSim.SetDirty | cache_simulator.h:40-43 | `setDirty` changes the dirty bit and nothing else |
| CacheSim.NewCache | cache_simulator.h:51-67 | the constructor stores the configuration unchanged, with both counters at 0 and no sets |
| CacheSim.IntDiv | cache_simulator.cpp:44-47 | `int` division succeeds exactly when the divisor is non-zero and the truncated quotient fits, and gives that quotient |
| CacheSim.EnableCache | cache_simulator.cpp:5-60 | "Invalid file format" is returned exactly when the integer lines convert and there is a sixth line. A cache is built only from three to five lines |
| CacheSim.Build | cache_simulator.cpp:41-59 | a cache is built exactly when the associativity and set count compute without trapping. It has `cache_size / (block_size * associativity)` sets of `associativity` fresh lines, zero counters, and the configuration stored unchanged |
| CacheSim.FullyAssociative | cache_simulator.cpp:42-45 | associativity 0 gives one set with a line for every block, `cache_size / block_size` of them |
| CacheSim.InvalidateCache | cache_simulator.cpp:71-80 | every line becomes invalid with its dirty bit, tag, data and access time kept. Counters, configuration and set sizes are unchanged |
| CacheSim.DumpExact | cache_simulator.cpp:95-113 | a record is dumped exactly when it describes a valid line: its set, its tag, and `Dirty` or `Clean` as the line is |
| CacheSim.DumpSetCount | cache_simulator.cpp:97-113 | a set contributes one record per valid line |
| CacheSim.InvalidatedDumpsNothing | cache_simulator.cpp:71-113 | an invalidated cache dumps no record |
| CacheAccess.GeometryOf | simulator.cpp:1054-1058 | the offset and index widths are the floor logarithms of the block size and of the set count, and fit 20 bits |
| CacheAccess.Split | simulator.cpp:1054-1075 | tag, index and offset fit their widths, and the block base plus the offset is the address, with the base block-aligned |
| CacheAccess.FindFrom | simulator.cpp:1082-1090 | the lookup finds the first valid way holding the tag, and finds none exactly when no valid way holds it |
| CacheAccess.Victim | simulator.cpp:1138-1180 | the victim is the first invalid way. Failing that, under LRU or FIFO it is the first way with the least access time, which always exists in a non-empty set. `rand()` is consumed only under RANDOM |
| CacheAccess.MinToaFound | simulator.cpp:1158-1178 | in a non-empty set with access times that fit an `int`, some way has the minimum access time |
| CacheAccess.Fill | simulator.cpp:1181-1206 | the refilled line is valid, holds the new tag and memory's bytes of the new block, and carries the requested dirty bit. A valid dirty victim's bytes are first written to its own block. No other memory changes |
| CacheAccess.Extract | simulator.cpp:1107-1113 | a read returns the `size` bytes of the line at the offset, as their little-endian value, and crashes exactly for one-byte blocks or bytes past the line. The engine assembles and extends these bytes as written, as for an uncached load |
| CacheAccess.Stamp | simulator.cpp:1096-1100 | a stamp advances the timer by one and gives the line that time, and no stamp changes neither |
| CacheAccess.Refill | simulator.cpp:1136-1206 | a refill counts exactly one miss, keeps the hits and keeps every set's shape |
| CacheAccess.WriteMatching | simulator.cpp:1460-1478 | every line holding the tag takes the stored bytes, and every other line is unchanged |
| CacheAccess.CacheLoad | simulator.cpp:1052-1253 | a cached load keeps the cache well formed and reads a value of `size` bytes. It counts a hit exactly when the lookup finds the block and a miss otherwise. The timer ticks for an LRU hit and for a FIFO or LRU refill. A hit leaves memory alone |
| CacheAccess.CacheStore | simulator.cpp:1312-1492 | a cached store keeps the cache well formed and counts a hit or a miss as the lookup finds the block. A write-back hit leaves memory alone. A write-through miss writes memory and leaves every line unchanged. The timer ticks as the policy stamps |
| Coherence.CacheLoadCoherent | simulator.cpp:1052-1253 | a load through a coherent cache keeps it coherent and leaves the memory the program sees unchanged. It returns that memory's bytes at the address, read exactly when the destination is not `x0`; the engine assembles them as an uncached load does, so a cached load writes the register the uncached load as written would |
| Coherence.CacheStoreCoherent | simulator.cpp:1312-1492 | under either write policy, a store through a coherent cache keeps it coherent and changes the memory the program sees exactly as an uncached store would |
| Coherence.EmptyCoherent | cache_simulator.cpp:46-57 | a cache without valid lines is coherent and shows main memory as it is |
| Coherence.InvalidatedView | cache_simulator.cpp:71-80 | after `invalidateCache` the program sees main memory, whatever dirty lines held |
| Coherence.LoadMissStaysDirty | simulator.cpp:1136-1206 | a cached load that misses and evicts a dirty line leaves the refilled way, which the lookup now finds for the tag and whose bytes are memory's, dirty |
| Coherence.LoadMissDirty | simulator.cpp:1194-1206 | the refill of a load miss gives the way the block's tag and memory's bytes, and keeps the victim's dirty bit |
| Coherence.LoadMissClean | simulator.cpp:1136-1206 | with the dirty bit cleared on refill, as intended, the line holding the loaded block after a load miss is clean |
| Engine.ExecRegReg | simulator.cpp:867-896 | `rd` gets the ALU result (`x0` keeps 0) and nothing else changes |
| Engine.ExecRegImm | simulator.cpp:897-954 | the instruction fails exactly for an immediate outside 12 bits or a shift amount outside 0..63, changing nothing. Otherwise `rd` gets the ALU result, with `srai`'s packed operand |
| Engine.Jalr | simulator.cpp:981-991 | `jalr` pops the call stack, sets the return flag, links `pc + 4` into `rd` before reading `rs1`, and transfers to `rs1 + imm` truncated to an `int` |
| Engine.LoadDirect | simulator.cpp:1024-1051 | an uncached load writes `rd` with the bytes at the address assembled and extended as written; for bytes and halfwords that is their intended reading |
| Engine.LoadCached | simulator.cpp:1052-1253 | a cached load fails exactly when the cache-level load does, and otherwise writes `rd` with the bytes it returns, assembled and extended as written |
| Engine.ExecLoad | simulator.cpp:955-1253 | an offset outside 12 bits or an address above the memory size fails. `jalr` is the return. Other loads go through the cache when it is enabled and to memory otherwise, and touch neither the call stack nor the flags |
| Engine.StoreCached | simulator.cpp:1312-1492 | a cached store succeeds exactly when the cache-level store does, and the machine takes its state |
| Engine.ExecStore | simulator.cpp:1255-1492 | a store fails when the offset is outside 12 bits or the address is below `0x10000`, and without a cache exactly then. Otherwise the low bytes of `rs2` are written to memory or through the cache. Registers are kept |
| Engine.Displacement | simulator.cpp:1523-1530 | a non-negative displacement is refused exactly when its remainder modulo 4 is 2 or 3, and otherwise rounded down to a multiple of 4. A negative one is kept unchecked |
| Engine.ExecBranch | simulator.cpp:1494-1565 | a branch fails exactly for a displacement outside 13 bits or refused by the parity rule. It transfers exactly when the comparison holds, to `pc` plus the displacement, and leaves the machine unchanged |
| Engine.ExecJal | simulator.cpp:1567-1610 | a valid `jal` transfers to `pc` plus the displacement, links `pc + 4` and flags a call even for `x0`. A refused one changes nothing |
| Engine.LuiValue | simulator.cpp:1656-1664 | `lui`'s value is a multiple of 4096 in the 32-bit signed range whose upper 20 bits are congruent to the immediate |
| Engine.ExecLui | simulator.cpp:1656-1673 | `rd` gets `lui`'s value and nothing else changes |
| Engine.LuiCheckNeverFires | simulator.cpp:1651-1655 | `imm >> 31` of an `int` is its sign, so the range test never fires |
| Engine.LowTwenty | simulator.cpp:1657-1664 | the low 20 bits of a value's 64-bit pattern are its residue modulo 2^20 |
| Engine.LuiImmediate | simulator.cpp:1631-1650 | an operand with a leading minus sign is refused, and an accepted one fits an `int` |
| Engine.LuiImmediateDecimal | simulator.cpp:1636-1651 | a decimal numeral is accepted exactly when it is below `2^31`, as its value |
| Engine.LuiImmediateHex | simulator.cpp:1636-1651 | a `0x` hexadecimal numeral is accepted exactly when it is below `2^31`, as its value |
| Engine.RegRegLine | simulator.cpp:867-896 | a malformed operand list fails. A register-register line never transfers and changes only `rd` |
| Engine.RegImmLine | simulator.cpp:897-954 | fewer than three operands fail. The line never transfers and changes only `rd` |
| Engine.LoadLine | simulator.cpp:955-1253 | fewer than three operands fail. Only `jalr` transfers or touches the call stack |
| Engine.StoreLine | simulator.cpp:1255-1492 | fewer than three operands fail. A store line never transfers and keeps every register |
| Engine.BranchLine | simulator.cpp:1494-1565 | a malformed operand list fails. A branch line never changes the machine |
| Engine.JalLine | simulator.cpp:1567-1610 | fewer than two operands fail. A `jal` line fails or transfers with the call flag set, and touches neither memory nor the stack |
| Engine.LuiLine | simulator.cpp:1612-1675 | a refused operand fails. Otherwise `rd` gets `lui`'s value of the immediate |
| Engine.CutComment | simulator.cpp:819-822 | the line is cut at its recorded comment position, and kept whole when none is recorded |
| Engine.Execute | simulator.cpp:823-1676 | an unknown mnemonic fails. Every instruction keeps `x0` and the register file, and only transfers touch the call stack and flags |
| Engine.Convert | simulator.cpp:806-1676 | a breakpoint on the line stops before anything happens unless the line is stepped. A `;` line falls through. Any other line executes its decoded instruction |
| Semantics.DecodePlain | simulator.cpp:823-866 | an indented instruction line is cut into its mnemonic and the operand text after it |
| Semantics.DecodeLabelled | simulator.cpp:823-866 | a label and its separators before the mnemonic play no part in decoding |
| Semantics.AddThenSub | simulator.cpp:867-896 | `add rd, rs1, rs2` then `sub rd, rd, rs2` leaves `rd` holding `rs1` |
| Semantics.SraiMatchesSra | simulator.cpp:934-953 | `srai` by `shamt` writes what `sra` writes with `shamt` in a register |
| Semantics.StoreThenLoad | simulator.cpp:1000-1311 | without a cache, a store then a load of the same width and address returns the stored register exactly when the load as written returns that value unchanged |
| Semantics.CachedRoundTrip | simulator.cpp:1052-1492 | through a coherent cache, a store then a load of the same width reads back the stored bytes: read as intended they give the stored value exactly when it fits the width and signedness, read as written exactly when the uncached load as written would give it |
| Semantics.CachedStoreThenLoad | simulator.cpp:1052-1492 | at instruction level, a cached store then load of the same width and address, when both succeed, returns the stored register exactly when the uncached load as written would |
| Semantics.CallThenReturn | simulator.cpp:981-991 | after `jal ra, target` at `pc`, `jalr x0, 0(ra)` returns to `pc + 4` and pops the call's frame |
| Semantics.BranchComplements | simulator.cpp:1532-1555 | `beq`/`bne`, `blt`/`bge` and `bltu`/`bgeu` are each taken exactly when the other is not |
| Semantics.UnsignedBranches | simulator.cpp:1532-1555 | unsigned and signed comparisons agree on non-negative operands, and a negative operand compares above every non-negative one unsigned |
| Semantics.NegativeDisplacementUnchecked | simulator.cpp:1523-1530 | every negative 13-bit displacement passes unchanged, so from an aligned `pc` one that is not a multiple of 4 gives a misaligned target, while every accepted non-negative one keeps the target aligned (2 is refused, 5 becomes 4) |
| Semantics.LuiFields | simulator.cpp:1657-1673 | `lui` depends only on the immediate modulo 2^20, places an immediate below 2^19 unchanged and one from 2^19 upward negated past 2^20 |
| Semantics.UpperUnique | simulator.cpp:1657-1673 | the value `lui` writes is determined by the immediate's residue in `[-2^19, 2^19)` |
| Debugger.Retop | simulator.cpp:1785-1793 | the top frame's line is rewritten with its name kept, and the frames below are untouched |
| Debugger.Advance | simulator.cpp:1782-1808 | `pc` goes to a transfer's or non-zero outcome's target, else to `pc + 4` wrapped to 32 bits. Registers, memory, cache, timer and random stream are the instruction's. A transfer consumes the pending return or call flag; a fall-through keeps both flags. After a return the popped stack stands. Otherwise the frames below the top are kept and the top keeps its name and moves to the line of `pc`. A call pushes exactly one frame, named by the target's label, at the target's line |
| Debugger.AdvanceDiscipline | simulator.cpp:1782-1808 | after an instruction that does not stop the run, no call or return flag is left pending, the stack depth changes by at most one, and every frame below the top is untouched |
| Debugger.Finish | simulator.cpp:1770-1781 | the loop halts exactly on -1 or -2. A breakpoint keeps the state and an error empties the stack |
| Debugger.Execute1 | simulator.cpp:1759-1808 | a line on a set breakpoint halts at once when not stepped. The loop halts only at a breakpoint or on an error with an empty stack |
| Debugger.Loop | simulator.cpp:1759-1823 | completion leaves `pc` outside the code with an empty stack. Errors empty the stack. `x0` survives |
| Debugger.Run | simulator.cpp:1751-1827 | `run` does nothing exactly when `pc` is already past the last line, and ends with an empty stack on completion or error |
| Debugger.Step | simulator.cpp:1829-1909 | `step` outside the code empties the stack and changes nothing else |
| Debugger.Steps | simulator.cpp:1911-1923 | no step is taken for a non-positive count |
| Debugger.UpdateStatus | simulator.cpp:1911-1923 | `updateStatus` to a `pc` below 4 changes nothing |
| Debugger.UpdateStatusStep | simulator.cpp:1911-1923 | `updateStatus` to the next instruction's address is `updateStatus` to this one followed by one `step` |
| Debugger.AddBreakpoint | simulator.cpp:1937-1944 | the line's flag is set and every other line's entry is kept |
| Debugger.RemoveBreakpoint | simulator.cpp:1946-1952 | the line's flag is cleared and every other line's entry is kept |
| Debugger.ShowStack | simulator.cpp:1954-1975 | the frames are shown from the bottom (`main`) to the top, and `empty` is reported exactly for an empty stack |
| Debugger.CallDiscipline | simulator.cpp:1782-1808 | one line leaves no call flag pending, never touches the frames below the top, and changes the depth by at most one |
| Debugger.StepIgnoresBreakpoints | simulator.cpp:806-814 | `step` behaves as if no breakpoint were set |
| Debugger.RunIsStepThenRun | simulator.cpp:1759-1900 | from a line without a breakpoint, one iteration of `run` is one `step` |
| Debugger.RunStopsAtBreakpoint | simulator.cpp:1770-1773 | `run` at a set breakpoint stops with the state unchanged, and once the breakpoint is removed the line executes as a step does |
| BitStrings.Bits | assembler.cpp:572 | `bitset<w>` gives exactly `w` characters |
| BitStrings.BitsValue | assembler.cpp:572 | a field is binary and reads back as the value modulo `2^w` |
| BitStrings.BitsSplit | assembler.cpp:670-678 | a field of `a + b` bits is its high `a` bits (the value shifted right by `b`) followed by its low `b` bits |
| BitStrings.BitsSplit4 | assembler.cpp:702-722 | a field is four adjacent fields, each the value shifted past the fields below it |
| BitStrings.Signed | assembler.cpp:572 | the two's-complement reading of an `n`-bit pattern is in the signed range and congruent to the pattern |
| BitStrings.SignedBits | assembler.cpp:598-620 | a value that fits `n` signed bits is read back from its `n`-bit field |
| BitStrings.HexValue | assembler.cpp:63-80 | the groups' digits read in base 16 give the binary string's value |
| BitStrings.BinToHex | assembler.cpp:63-80 | `binToHex` gives one lower-case digit per group of four bits. A length that is a multiple of 4 keeps the value |
| Assembler.RRoundTrip | assembler.cpp:548-573 | an R-type word is 32 bits and reads back its opcode, `funct3`, `funct7` and three registers |
| Assembler.IRoundTrip | assembler.cpp:574-621 | the encoder refuses exactly an immediate outside 12 bits or a shift amount outside 0..63. The word reads back the fields and the immediate, or for `srai` the amount with `0x10` above it |
| Assembler.LoadRoundTrip | assembler.cpp:622-649 | load and `jalr` words refuse exactly an offset outside 12 bits and read back every field |
| Assembler.SImmediate | assembler.cpp:650-679 | `imm >> 5` in 7 bits followed by `imm & 31` in 5 bits is the 12-bit field of `imm` |
| Assembler.SRoundTrip | assembler.cpp:650-679 | an S-type word reads back the opcode, `funct3`, both registers and the offset |
| Assembler.BImmediate | assembler.cpp:702-722 | the four pieces of a halved branch offset, in word order, make its 12-bit field |
| Assembler.BRoundTrip | assembler.cpp:680-723 | the encoder refuses exactly the distances outside 13 bits, and the word's offset is twice the halved distance |
| Assembler.HalvesExact | assembler.cpp:706-714 | a label distance that is a multiple of 4 is kept whole, and a number whose sign the minus flag reports truthfully is rounded down to even |
| Assembler.JImmediate | assembler.cpp:744-758 | the four pieces of a halved jump offset, in word order, make its 20-bit field |
| Assembler.JRoundTrip | assembler.cpp:724-759 | `jal` refuses exactly the distances outside 21 bits, and the word's offset is twice the halved distance |
| Assembler.URoundTrip | assembler.cpp:760-845 | below 2^31 the U-immediate is the value the simulator's `lui` loads. From 2^31 to 2^32 it is the value with its low 12 bits cleared, minus 2^32 |
| Assembler.LuiDecimal | assembler.cpp:760-815 | a decimal `lui` operand is accepted exactly when it is at most `4294967295`, and a leading minus sign is refused |
| Assembler.LuiHex | assembler.cpp:760-815 | a `0x` operand is accepted exactly when it is at most `0xffffffff` |
| Assembler.BranchToLabel | assembler.cpp:680-723 | a branch to a label is refused exactly when the simulator refuses its distance, and a multiple of 4 is encoded as the displacement the simulator takes |
| Assembler.JumpToLabel | assembler.cpp:724-759 | the same for `jal` against the simulator's jump |
| Assembler.RLine | assembler.cpp:548-573 | an R line gives a word whose register fields are the operands' registers |
| Assembler.ILine | assembler.cpp:574-621 | an I line's word names both registers and carries the immediate as the simulator reads it |
| Assembler.LoadLine | assembler.cpp:622-649 | a load line's word names both registers and carries the offset as the simulator reads it |
| Assembler.SLine | assembler.cpp:650-679 | a store line's word names both registers and carries the offset as the simulator reads it |
| Assembler.BLine | assembler.cpp:680-723 | a branch line gives a word with the branch opcode and both registers, or stops |
| Assembler.JLine | assembler.cpp:724-759 | a `jal` line gives a word with the jump opcode and `rd`, or stops |
| Assembler.ULine | assembler.cpp:760-845 | a `lui`/`auipc` line gives a word with its opcode and `rd`, or stops |
| Assembler.Encode | assembler.cpp:548-845 | every word is 32 bits and carries the mnemonic's opcode |
| Assembler.AssembleLine | assembler.cpp:500-547 | a word is produced only for a mnemonic of the table, and carries its opcode |
| Assembler.AssembleHex | assembler.cpp:846 | a word is printed as eight lower-case hex digits with the word's value, and nothing is printed otherwise |

## Left out

- Reading files is not modelled. Program lines, the comment positions, the label map, `memLines` and the configuration lines are inputs. This covers `loadFile`, `getComments`, `getLabels`, `loadProgram` and the assembler's two passes before encoding, which collect the comments (assembler.cpp:452-467) and the labels (assembler.cpp:474-496). The passes do not agree on `pc`: the first counts every line, while later passes skip `;` lines, and the assembler's output pass also skips lines without a mnemonic. This bookkeeping is outside the model.
- Printing is not modelled: `printRegs`, `printMem`, `printCacheRes`, `printCacheStatus`, messages, and `dumpCache`'s file stream (only its filter is kept). `printCacheStats` computes its hit rate in floating point, so it is left out.
- `rand()` is an input stream in the machine. Each call takes the head value, or 0 when the stream is empty.
- `memHandle` compares against `pow()` doubles. The model uses the exact integer bounds, which agree with the double comparison for the item sizes 1, 2, 4 and 8 that the program uses (simulator.cpp:217-235). They would not agree for sizes such as 7 bytes, where `pow(2, 56) - 1` rounds to 2^56, so `MemHandle` takes only those four sizes.
- Operand text is a sequence of bytes, each a `char` from 0 to 255, and a plain `char` is signed as on x86. So the label test `str[0] >= 'A'` (simulator.cpp:745, assembler.cpp:284) fails for every byte from 0x80 up (Immediates.AtLeastA), and such an operand is read as a number. Multi-byte encodings are not decoded.
- C++ undefined behaviour and exceptions get these explicit meanings:
  - A shift by 64 or more takes the count modulo 64, as x86 does. `srai` hands the ALU `1024 + shamt`.
  - In a load, the shift of a byte promoted to `int` by 32 to 56 bits takes the count modulo 32, as x86 does (Memory.ShiftedByte).
  - Any `stoi` exception in `lui` (an operand without digits of its base, or a value out of range) ends the run as an error.
  - `getImmediate`'s uninitialised value on error is 0.
  - Indexing a too-short operand vector, where the error flag is ignored, ends the run as an error.
  - `top`/`pop` on an empty call stack read an unnamed frame at line 0 and leave the stack empty.
  - Memory beyond the 0x50000-byte array is part of the unbounded map.
  - `inverseLabel[pc]` for an address without a label yields the empty name. The insertion of that entry is not modelled.
- The assembler's `exit(1)` and `return 0` on an error are one result: the assembly stops.
- Assembler.ULine: besides `return 0`, `lui` also stops on the `break`s out of its case when the operands or the register are rejected (assembler.cpp:760-777) and on the exception `stoll` throws for an immediate without digits or out of range (assembler.cpp:788-795). The model folds all of these into the one result "the assembly stops"; how the program then ends is not distinguished.
- `auipc` is encoded by the assembler. In the simulator its opcode has no branch, so it falls through without effect.
- `sltu` and `sltiu` give 0, as the ALU has no branch for them.
- Negative branch and jump displacements are not checked for parity, as in the source. Every negative displacement that is not a multiple of 4 is accepted and yields a misaligned target.
- Stores have no upper address bound, as in the source.
- Parse.HasPrefix: `stoi` and `stoul` with base 2 accept a `0b`/`0B` prefix, as C libraries that follow C23 do (glibc from 2.38). An older library reads only the `0` of such a prefix, so `0b101` would read as 0 there.
- CacheSim.EnableCache: `Aborted` stands both for a configuration line that `stoi` rejects, whose exception the source does not catch, and for a file of fewer than three lines, which leaves the sizes uninitialised (cache_simulator.cpp:9-59). Neither ends in a defined state, so the model does not tell them apart.
- CacheAccess.CacheLoad: for a replacement policy other than "RANDOM", "LRU" or "FIFO" on a full set the source uses way -1 of the set, which is undefined; the model reports `LoadCrash` (and `StoreCrash` for stores) instead of guessing what that access does.
- CacheSim.DumpCache: when the tag is zero bits wide, the source's `stoul` of the empty tag throws (cache_simulator.cpp:103); the model records tag 0 for such a line instead of ending the dump.
- Debugger.Loop: `run`'s loop carries a fuel bound, and running out of fuel is a status of its own. A program that never halts is not modelled beyond the fuel given.
- CacheAccess.CacheLoad: its own contract states the counters, the timer and well-formedness, not the value read. The value, and what the load does to the memory the program sees, are stated by `Coherence.CacheLoadCoherent` for coherent caches with power-of-two blocks and addresses below 2^20.
- CacheAccess.CacheStore: likewise, its effect on the memory the program sees is stated by `Coherence.CacheStoreCoherent`.
- The global access timer is an unbounded integer. The 32-bit overflow of the `int` access times after 2^31 stamps is not modelled.
- The header files hold declarations only.

## Findings

| source | as written | input that shows it | evidently intended | confidence | as-written member | corrected member |
|---|---|---|---|---|---|---|
| simulator.cpp:1026-1029 | loads assemble bytes with `memory[address + i] << (i * 8)`, which promotes the byte to a 32-bit `int`. Byte 3 at `0x80` overflows into the sign bit and is sign-extended. Bytes 4 to 7 are shifted by 32 to 56, which is undefined and masked to 0 to 24 on x86. The cache path at 1110-1113 and 1227-1230 does the same | `sd` of -1 followed by `ld` loads -2. `ld` of a doubleword whose byte 4 is 1 and other bytes 0 loads 1, not 2^32. `lwu` of a word whose byte 3 is `0x80` loads -2^31, not 2^31 | the little-endian value of the loaded bytes, extended as the load's signedness says | not executed | Memory.StoreLoadAsWritten | Memory.StoreLoadRoundTrip |
| simulator.cpp:1194-1206 | a read miss refills the victim with memory's block, tag and valid bit, but never clears the dirty bit | a read miss that evicts a valid dirty line. The victim is written back, and the line now holding a clean copy of memory stays dirty, so it will be written back again and `dumpCache` reports it `Dirty` | the refilled line is clean | not executed | Coherence.LoadMissStaysDirty | Coherence.LoadMissClean |

The engine and the cache keep both behaviours as the code is written, so that their contracts describe the simulator as it runs. The corrected definitions (`Memory.LoadValue`, and `CacheAccess.LoadMiss` with `keepDirty` false) stand beside them with the intended properties proved.
