# RISC-V back end of a SysY compiler, modelled in Dafny

This project models the code-generation back end of a small SysY-to-RISC-V
compiler written in Rust, plus its compile-time constant evaluator. The back
end lowers koopa IR to RV32 assembly text. It tracks three register banks
(t0–t6, s0–s11, a0–a7). It keeps three maps from IR values: to their
register, their remaining use count, and their stack slot. When it runs out
of temporaries it spills the value with the most remaining uses.

The model is functional. The register manager is an immutable record, and the
generator state is that record plus the output lines emitted so far. Every
operation is a pure function from state to state. Where the source panics
(`unwrap`, `expect`, `unreachable!`), the model returns a `Failure` that
names the reason.

Output is a sequence of typed lines (`Line`, `Instr`). `Asm.RenderLine`
gives the exact text each line contributes. A small RV32I/RV32M machine
semantics (`Asm.Step`, `Asm.Exec`) gives the instructions a meaning. With it
the proofs show three things:
- each comparison template leaves 0 or 1 in its destination, and the `and`/`or` templates combine their operands bit by bit;
- the prologue stores each saved register in use to its own slot, the epilogue reloads it from there, and together they restore every register and sp;
- a spilled word survives any code that neither stores over any byte of its slot nor moves sp, and a reload then gets it back.

Files, one module each:
- `wrappers.dfy`: `Option` and `Result`.
- `words.dfy`: 32-bit words and two's complement, bitwise operators, truncating division, decimal text.
- `registers.dfy`: typed registers and their names.
- `ir.dfy`: the slice of koopa IR the back end reads.
- `asm.dfy`: instructions, their text, the templates of `instruct_generator.rs`, and the machine semantics.
- `register_manager.dfy`: `register_manager.rs`.
- `use_counts.dfy`: the use-count pre-pass of `riscv_asm_generator.rs`.
- `codegen.dfy`: `gen_instruct.rs` and the program/function driver.
- `const_eval.dfy`: the `ConstEval` impls of `src/ast/exp.rs`.

Three facts about the source shape the model:
- Spill slots are never reused. Every spill takes a fresh slot.
- The prologue saves only the saved registers in use and does not reserve the Alloc area. There is no two-instruction fallback for large frames.
- `generate_function` does not call `init_function`. The model's `GenerateFunction` does not either, and `InitFunction` is a separate operation.

Three helpers are called but not part of this model. They are modelled as
follows:
- `after_value_use` as `decrease_use_count`;
- `reset_stack` as clearing the slot map;
- `reset_registers` as clearing the three banks.

`free_register` is called with two arguments but declared with one; the
model follows the one-argument declaration.

The invariant "a bank bit is set iff some value maps to that register" does
not hold in the source, and the model does not claim it. `spill_and_get_reg`
frees the victim's register and then hands it out again. `handle_binary`
frees the destination after storing it to a slot, yet still maps the result
value to it.

What the model does prove about the generator:
- only temporaries are ever mapped (`CodeGen.MappedToTemps`);
- stack slots stay distinct and below the spill offset (`RegisterManager.SlotsBelowOffset`);
- within a function, lowering instructions never raises a use count and never adds a value to the count map (`CodeGen.GenerateInstructions`). `CodeGen.GenerateFunction` recounts the uses afresh for each function: its final counts are bounded by `CountValueUses` of that function alone.

## Model

| member | source | states |
|---|---|---|
| Words.ToSigned | src/asm_generator/instruct_generator.rs:18-21 | the two's-complement reading of a register is non-negative exactly below 2^31 and agrees with the word modulo 2^32 (what `slt` compares) |
| Words.FromSigned | src/asm_generator/instruct_generator.rs:35-37 | the register word `li` loads for an `i32` reads back, signed, as that `i32` |
| Words.ToSignedInjective | src/asm_generator/instruct_generator.rs:10 | two words are equal iff their signed readings are, so `xor` of equal operands is what `seqz` tests |
| Words.XorZeroIffEqual | src/asm_generator/instruct_generator.rs:10 | the bitwise xor of two n-bit numbers is 0 iff they are equal |
| Words.Xor32 | src/asm_generator/instruct_generator.rs:10-22 | the 32-bit xor is 0 iff its operands are equal |
| Words.And32EveryBit | src/asm_generator/instruct_generator.rs:16 | each of the 32 bits of the result is set iff it is set in both operands |
| Words.Or32EveryBit | src/asm_generator/instruct_generator.rs:17 | each of the 32 bits of the result is set iff it is set in either operand |
| Words.TruncDivRem | src/ast/exp.rs:97-98 | quotient and remainder rounded toward zero recombine to the dividend; the remainder is smaller than the divisor and has the dividend's sign |
| Words.NatToString | src/asm_generator/register_manager.rs:33 | the decimal of a natural number is non-empty, all digits, with no leading zero |
| Words.IntToString | src/asm_generator/instruct_generator.rs:36 | a rendered integer starts with '-' exactly when it is negative |
| Words.ParseUsize | src/asm_generator/register_manager.rs:50 | a digit string parses to its value exactly when that value is below 2^64 (`usize::MAX` + 1), and any accepted text starts with '+' or a digit |
| Words.ParseNatToString | src/asm_generator/register_manager.rs:50 | parsing the decimal of any number a `usize` holds gives the number back |
| Words.UsizeOverflowRejected | src/asm_generator/register_manager.rs:50 | the decimal of a number of 2^64 or more does not parse |
| Words.ParseIntToString | src/asm_generator/instruct_generator.rs:36 | parsing a rendered integer gives the integer back |
| Words.NatToStringInjective | src/asm_generator/register_manager.rs:33 | distinct numbers render to distinct decimals |
| Registers.RegName | src/asm_generator/register_manager.rs:33-42 | a register name is t, s, a or x followed by at least one digit and only digits |
| Registers.SplitName | src/asm_generator/register_manager.rs:49-50 | a name splits exactly when its first character is one byte and the rest parses as a `usize`; the first character becomes the letter |
| Registers.SplitRegName | src/asm_generator/register_manager.rs:49-50 | splitting a rendered name yields the register's letter and index |
| Registers.ParseRegNameRoundTrip | src/asm_generator/register_manager.rs:48-58 | parsing a register's name gives the register back |
| Registers.RegNameInjective | src/asm_generator/register_manager.rs:33-42 | two registers have the same name iff they are the same register |
| Ir.Flatten | src/asm_generator/riscv_asm_generator.rs:24-28 | a layout with no blocks has no instructions |
| Ir.FlattenAppend | src/asm_generator/riscv_asm_generator.rs:24-28 | a block added at the end contributes its instructions at the end, so blocks are lowered in layout order |
| Ir.FlattenMembership | src/asm_generator/riscv_asm_generator.rs:24-28 | an instruction is lowered iff some block of the layout holds it |
| Asm.Emitted | src/asm_generator/gen_instruct.rs:152 | the lines appended for a code sequence are its instructions, one line each, in order |
| Asm.InstrIsOneIndentedLine | src/asm_generator/instruct_generator.rs:10-40 | every instruction renders as two spaces, a body without line breaks, and one final newline |
| Asm.LoadImmediateRoundTrip | src/asm_generator/instruct_generator.rs:35-37 | a `li` line is `  li <reg>, ` followed by a decimal that parses back to the immediate |
| Asm.GenerateBinary | src/asm_generator/instruct_generator.rs:8-26 | a template has one or two instructions, two exactly for Eq, NotEq, Le and Ge; the first writes the destination |
| Asm.SwappedComparisons | src/asm_generator/instruct_generator.rs:18-21 | Gt is Lt with the operands swapped, and Le is Ge with the operands swapped |
| Asm.GenerateReturn | src/asm_generator/instruct_generator.rs:28-33 | a return ends in `ret`; it has a preceding `mv a0, r` exactly when there is a value |
| Asm.ReturnLeavesValueInA0 | src/asm_generator/instruct_generator.rs:28-33 | after the return code a0 holds the returned register's value, and every other register, memory and sp are unchanged |
| Asm.BitwiseTemplateCorrect | src/asm_generator/instruct_generator.rs:16-17 | after the `and` (`or`) template, each of the 32 destination bits is set iff the bit is set in both (either) operands |
| Asm.Write | src/asm_generator/instruct_generator.rs:10-40 | writing a register changes only that register, and writes to x0 are discarded |
| Asm.Store | src/asm_generator/register_manager.rs:106 | a store changes only the addressed word |
| Asm.ExecAppend | src/asm_generator/gen_instruct.rs:152 | running two code sequences one after the other is running their concatenation |
| Asm.ComparisonTemplateCorrect | src/asm_generator/instruct_generator.rs:10-22 | every comparison template leaves 1 in dst when the signed relation holds and 0 otherwise, even when dst is one of the operands |
| RegisterManager.AllFree | src/asm_generator/register_manager.rs:17-27 | a fresh bank has every bit clear |
| RegisterManager.FirstClear | src/asm_generator/register_manager.rs:30-36 | the first-fit scan finds the lowest clear bit at or after the start, or reports that all are set |
| RegisterManager.AllocateTmp | src/asm_generator/register_manager.rs:29-37 | returns the lowest free t register and sets only its bit; when all seven are set, returns nothing and changes nothing |
| RegisterManager.AllocateSaved | src/asm_generator/register_manager.rs:38-46 | the same first-fit contract over the twelve s registers |
| RegisterManager.FreeRegister | src/asm_generator/register_manager.rs:48-58 | clears exactly the register's bit; x0 changes nothing |
| RegisterManager.MarkRegisterLive | src/asm_generator/register_manager.rs:83-93 | sets exactly the register's bit; x0 changes nothing |
| RegisterManager.SetBitByName | src/asm_generator/register_manager.rs:48-93 | the name-based update touches only the banks, never the value maps |
| RegisterManager.ByNameAgreesWithTyped | src/asm_generator/register_manager.rs:48-93 | freeing or marking by a register's name does what the typed operation does |
| RegisterManager.OtherLetterIsNoOp | src/asm_generator/register_manager.rs:49-57 | a name whose one-byte letter is not t, s or a and whose index parses as a `usize` changes nothing |
| RegisterManager.OversizeIndexFails | src/asm_generator/register_manager.rs:50 | a name whose index is 2^64 or more fails, whatever its letter |
| RegisterManager.AllocateThenFree | src/asm_generator/register_manager.rs:29-58 | freeing the register just allocated restores the manager exactly |
| RegisterManager.MarkIdempotent | src/asm_generator/register_manager.rs:83-93 | marking a register live twice is marking it once |
| RegisterManager.SpillToStack | src/asm_generator/register_manager.rs:60-65 | returns the current offset, records it for the value, advances the offset by 4, and changes nothing else |
| RegisterManager.SuccessiveSpillsAreDistinct | src/asm_generator/register_manager.rs:60-65 | two spills in a row get offsets exactly 4 apart |
| RegisterManager.SpillKeepsSlotsDistinct | src/asm_generator/register_manager.rs:60-65 | spilling keeps all slots distinct and below the offset |
| RegisterManager.CallingConventionReg | src/asm_generator/register_manager.rs:66-72 | index i gives `a<i>` exactly when i < 8 |
| RegisterManager.ReserveForCall | src/asm_generator/register_manager.rs:66-78 | sets exactly the bits of a0..a(min(n,8)-1), that is, the calling-convention register of each of the first n arguments that has one; every newly reserved register is such a register; everything else is unchanged |
| RegisterManager.SetIndices | src/asm_generator/register_manager.rs:98-102 | lists, in ascending order, exactly the set bits from the start |
| RegisterManager.SavedInUse | src/asm_generator/register_manager.rs:98-120 | the saved registers to persist are exactly those in use, in ascending order |
| RegisterManager.SaveStores | src/asm_generator/register_manager.rs:105-107 | the j-th store is `sw s_i, 4j(sp)` for the j-th saved register |
| RegisterManager.RestoreLoads | src/asm_generator/register_manager.rs:122-124 | the j-th load is `lw s_i, 4j(sp)` for the j-th saved register |
| RegisterManager.GeneratePrologue | src/asm_generator/register_manager.rs:94-110 | the prologue is empty iff no saved register is in use; otherwise it is `addi sp, sp, -4k` followed by `sw s_i, 4j(sp)` for the k in-use s registers in ascending order |
| RegisterManager.FramedStores | src/asm_generator/register_manager.rs:103-107 | after that code, sp has dropped by 4k, no register changed, and the word at 4j(sp) is the j-th listed register as it was |
| RegisterManager.GenerateEpilogue | src/asm_generator/register_manager.rs:112-128 | the epilogue is empty iff no saved register is in use; otherwise it is `lw s_i, 4j(sp)` for the k in-use s registers in ascending order, then `addi sp, sp, 4k` |
| RegisterManager.FramedLoads | src/asm_generator/register_manager.rs:121-125 | that code gives the j-th listed register the word at 4j(sp), raises sp by 4k, and changes no memory and no other register |
| RegisterManager.StackAdjustmentsCancel | src/asm_generator/register_manager.rs:104-125 | the prologue's and epilogue's sp adjustments sum to zero, and the two have the same length |
| RegisterManager.ExecStores | src/asm_generator/register_manager.rs:105-107 | after the stores, slot 4j holds the j-th saved register and no register or sp has changed |
| RegisterManager.ExecLoads | src/asm_generator/register_manager.rs:122-124 | after the loads, each saved register holds the word at its slot; sp and memory are unchanged |
| RegisterManager.ExecLoadsFrame | src/asm_generator/register_manager.rs:122-124 | the loads change no register outside the listed saved registers, and leave sp where it was |
| RegisterManager.StoresThenLoads | src/asm_generator/register_manager.rs:105-124 | stores followed by loads of the same registers leave every register as it was |
| RegisterManager.FramedStoresThenLoads | src/asm_generator/register_manager.rs:104-125 | with the sp adjustments around them as well, every register and sp are restored |
| RegisterManager.PrologueEpilogueRestore | src/asm_generator/register_manager.rs:94-128 | running the prologue then the epilogue restores sp and every register |
| UseCounts.CountedOperands | src/asm_generator/riscv_asm_generator.rs:39-51 | an instruction contributes each value as often as it is a Binary operand or the Return value, and at most two occurrences in all |
| UseCounts.Tally | src/asm_generator/riscv_asm_generator.rs:57-59 | incrementing once per operand adds each value's number of occurrences to its count, and the keys become the union |
| UseCounts.CountValueUses | src/asm_generator/riscv_asm_generator.rs:31-55 | after counting, exactly the values that occur as operands have a count, each at least 1; nothing is left over from before |
| UseCounts.StreamCountsOccurrences | src/asm_generator/riscv_asm_generator.rs:34-54 | the operand stream holds each value as often as the reference count of Binary lhs/rhs and Return occurrences says |
| UseCounts.CountIsOccurrences | src/asm_generator/riscv_asm_generator.rs:31-67 | each count equals the value's occurrences as a Binary operand or returned value |
| UseCounts.CountContributions | src/asm_generator/riscv_asm_generator.rs:39-51 | Store, Load, Alloc, constants and value-less Return contribute nothing; a Binary with lhs == rhs contributes 2 |
| UseCounts.DecreaseUseCount | src/asm_generator/riscv_asm_generator.rs:73-79 | lowers a positive count by one and leaves 0 at 0; it never adds a key, and every other entry is unchanged |
| UseCounts.DecreaseTimesReachesZero | src/asm_generator/riscv_asm_generator.rs:73-79 | n decrements leave max(count - n, 0), so the count reaches 0 after exactly count calls |
| UseCounts.DecreaseIsNonIncreasing | src/asm_generator/riscv_asm_generator.rs:73-79 | no count grows under a decrement |
| CodeGen.ScanForVictim | src/asm_generator/gen_instruct.rs:41-50 | the scan keeps a candidate with the largest count seen, replacing it only on a strictly larger count |
| CodeGen.FindRegToSpill | src/asm_generator/gen_instruct.rs:37-52 | returns a value held in a t register with a positive count that is at least every other visited candidate's, with that register; returns None iff no visited value is a candidate |
| CodeGen.VictimIsGloballyMaximal | src/asm_generator/gen_instruct.rs:37-52 | over a full iteration of the map, the victim's count is maximal among all candidates, and there is no victim iff there is no candidate |
| CodeGen.HashMapVictimIsMaximal | src/asm_generator/gen_instruct.rs:37-52 | for any iteration order that visits every entry of the map, the victim is maximal among all candidates, and there is none iff there is no candidate |
| CodeGen.MaximalCandidateCanBeChosen | src/asm_generator/gen_instruct.rs:37-52 | every maximal candidate is the victim for any iteration order that visits it first |
| CodeGen.SpillPicksMostUsed | src/asm_generator/gen_instruct.rs:37-52 | with counts 1, 3 and 5 on three temporaries, the value with 5 uses is spilled, whatever the order |
| CodeGen.SpillAndGetReg | src/asm_generator/gen_instruct.rs:54-62 | returns the victim's register; appends exactly `sw reg, off(sp)` at the next offset; gives the victim that slot; drops its mapping; frees the bit; returns None iff there is no victim |
| CodeGen.ObtainTemp | src/asm_generator/gen_instruct.rs:19-75 | yields a t register, without any output when one is free; it fails iff all are taken and there is no victim |
| CodeGen.GenerateValueAndGetReg | src/asm_generator/gen_instruct.rs:63-126 | constant 0 is x0 with no output or allocation; another constant ends the output with `li` into a fresh t register; an Alloc ends it with `addi reg, sp, slot`; a Load ends it with `lw` from its source's slot; other kinds fail |
| CodeGen.GetOrGenerateValueReg | src/asm_generator/gen_instruct.rs:17-35 | a value with a slot is always reloaded by `lw` into a newly obtained t register; otherwise its existing register is returned with no output |
| CodeGen.CanReuseIsStricterThanLastUse | src/asm_generator/gen_instruct.rs:169-174 | reuse needs a present count ≤ 1; an absent value is a last use but cannot be reused |
| CodeGen.ChooseDestination | src/asm_generator/gen_instruct.rs:186-191 | lhs's register becomes the destination, with lhs's mapping removed, iff lhs can be reused and is not x0; otherwise the destination is the lowest free t register, and this fails iff none is free; output and use counts are untouched, and the destination is a t register whenever lhs's register is x0 or a t register |
| CodeGen.PrepareBinaryOps | src/asm_generator/gen_instruct.rs:176-194 | lhs is materialised first and its register is the second result; rhs is materialised next, from the state lhs left, and its register is the third; if lhs can be reused and is not x0, the destination is lhs's register and lhs's mapping is dropped; otherwise the destination is the lowest t register still clear after both operands, now marked in use, and this fails iff none is clear; the destination is a t register, the output is only appended, and the use counts are untouched |
| CodeGen.RhsCanEvictLhs | src/asm_generator/gen_instruct.rs:183-191 | with every temporary taken and lhs's register chosen as the spill victim, a nonzero constant rhs is loaded into lhs's register; lhs, rhs and the destination all get that register, and lhs is left unmapped |
| CodeGen.StoreResult | src/asm_generator/gen_instruct.rs:154-160 | a result with a slot is stored there and its register freed; in either case the result maps to the destination |
| CodeGen.HandleBinary | src/asm_generator/gen_instruct.rs:146-167 | the template is emitted over `PrepareBinaryOps`' destination, lhs register and rhs register, so it coalesces into lhs's register exactly as stated there; the output gains the operator's template and then a store when the result has a slot; the result maps to a t register; lhs's and rhs's counts are decremented only when their register is not x0 |
| CodeGen.HandleStore | src/asm_generator/gen_instruct.rs:206-215 | stores the value's register to dest's slot when dest has one, then decrements both counts |
| CodeGen.ReturnValueToA0 | src/asm_generator/gen_instruct.rs:129-138 | a value with a slot is loaded straight into a0; otherwise `mv a0, r` follows its materialisation, and r is never a0 |
| CodeGen.HandleReturn | src/asm_generator/gen_instruct.rs:128-144 | the output always ends with the epilogue lines and `ret`; use counts and the saved bank are untouched |
| CodeGen.GenerateInstruction | src/asm_generator/gen_instruct.rs:196-204 | kinds other than Return, Binary and Store emit nothing and change nothing; the generator's invariants are kept; no use count grows and no value enters the count map |
| CodeGen.GenerateInstructions | src/asm_generator/riscv_asm_generator.rs:24-28 | lowering a block appends only instruction lines, keeps the invariants, and never raises a use count |
| CodeGen.AllocsIn | src/asm_generator/gen_instruct.rs:220-234 | collects exactly the Alloc instructions of the layout |
| CodeGen.FrameSizeIsLeastAlignedCover | src/asm_generator/gen_instruct.rs:236-237 | the frame `(4n+15)/16*16` is the least multiple of 16 that is at least 4n |
| CodeGen.LayoutAllocs | src/asm_generator/gen_instruct.rs:219-234 | the k-th Alloc in block/instruction order gets slot 4k, only Allocs get a slot, and the size is 4 per Alloc |
| CodeGen.LayoutIsSound | src/asm_generator/gen_instruct.rs:227-237 | those slots are distinct and lie below the frame size |
| CodeGen.InitFunction | src/asm_generator/gen_instruct.rs:217-248 | slots as above, with the spill offset at the aligned frame so spills never hit an Alloc slot; all banks clear; the prologue is empty; maps and counts kept |
| CodeGen.SpillThenReload | src/asm_generator/gen_instruct.rs:25-58 | after `sw r, off(sp)` and code that neither stores a word overlapping that slot (an `sw` at an offset within 3 bytes of `off`) nor moves sp, `lw r', off(sp)` gives r' the spilled value |
| CodeGen.GenerateFunction | src/asm_generator/riscv_asm_generator.rs:19-29 | emits `.global f` and `f:` with f the name without its '@', then only instruction lines; a name without the leading '@' fails; the use counts at the end never exceed a fresh `CountValueUses` of this function and have exactly its keys, so nothing carries over from an earlier function |
| CodeGen.GenerateFunctions | src/asm_generator/riscv_asm_generator.rs:13-15 | functions are emitted one after another, only appending to the output |
| CodeGen.GenerateProgramLines | src/asm_generator/riscv_asm_generator.rs:8-17 | the output starts afresh with `.text` |
| CodeGen.GenerateProgram | src/asm_generator/riscv_asm_generator.rs:8-17 | the program text begins with `.text` and a newline |
| CodeGen.FunctionsDeclareNamesInOrder | src/asm_generator/riscv_asm_generator.rs:13-23 | lowering the functions adds one `.global` per function, in layout order |
| CodeGen.ProgramDeclaresEveryFunction | src/asm_generator/riscv_asm_generator.rs:8-23 | the program's `.global` lines name its functions in layout order, without the '@' |
| ConstEval.Checked | src/ast/exp.rs:94-96 | an exact result is kept iff it fits in `i32`, and otherwise is an overflow |
| ConstEval.EvalDiv | src/ast/exp.rs:97 | a zero divisor fails; otherwise it fails only for MIN / -1; the quotient rounds toward zero (the remainder left is smaller than the divisor and has the dividend's sign) |
| ConstEval.EvalMod | src/ast/exp.rs:98 | a zero divisor fails; otherwise it fails only for MIN % -1; the result is smaller than the divisor and has the dividend's sign |
| ConstEval.DivisionOverflowsOnlyAtMin | src/ast/exp.rs:97 | the only `i32` quotient that does not fit is MIN / -1 |
| ConstEval.DivModFit | src/ast/exp.rs:97-98 | folded quotient and remainder recombine: a == b * (a / b) + a % b |
| ConstEval.EvalBinary | src/ast/exp.rs:93-106 | comparisons give 1 if the relation holds and 0 otherwise; Add, Sub and Mul give the exact result when it fits and otherwise fail; And, Or and the rest are unsupported |
| ConstEval.EvalUnaryOp | src/ast/exp.rs:134-138 | Plus is the identity; Minus negates, failing only on MIN; Not gives 1 iff the operand is 0 |
| ConstEval.EvalLVal | src/ast/exp.rs:68-122 | a name evaluates to its value iff it resolves to a constant; an unknown name and a non-constant symbol are distinct errors |
| ConstEval.EvalExp | src/ast/exp.rs:84-110 | a comparison node yields 0 or 1; a node whose operator the back end cannot lower never folds |
| ConstEval.EvalUnary | src/ast/exp.rs:128-142 | a `!` node yields 0 or 1 |
| ConstEval.EvalPrimary | src/ast/exp.rs:112-126 | a number is its own value, and a name is looked up |
| ConstEval.ParenIsTransparent | src/ast/exp.rs:116 | a parenthesised expression has its inside's value |
| ConstEval.BinaryPropagatesErrors | src/ast/exp.rs:89-92 | a binary node folds only if both operands do, and otherwise fails with the left error first, then the right |
| ConstEval.UnaryPropagatesErrors | src/ast/exp.rs:132-133 | a unary node fails with its operand's error, and otherwise applies the operator |
| ConstEval.ExpDependsOnlyOnNames | src/ast/exp.rs:84-142 | two symbol tables that agree on the names an expression mentions fold it to the same result |
| ConstEval.UnaryDependsOnlyOnNames | src/ast/exp.rs:128-142 | the same for unary expressions |
| ConstEval.PrimaryDependsOnlyOnNames | src/ast/exp.rs:112-126 | the same for primary expressions |
| ConstEval.FoldedNamesAreConstants | src/ast/exp.rs:68-142 | every name in a successfully folded expression resolves to a constant |
| ConstEval.FoldedUnaryNames | src/ast/exp.rs:128-142 | the same for unary expressions |
| ConstEval.FoldedPrimaryNames | src/ast/exp.rs:112-126 | the same for primary expressions |
| ConstEval.WrapOfI32 | src/asm_generator/instruct_generator.rs:11-15 | reducing an `i32` modulo 2^32 gives its register encoding |
| ConstEval.AluArithmetic | src/asm_generator/instruct_generator.rs:11-13 | `add`, `sub` and `mul` on encoded operands give the encoding of the exact result whenever that fits in `i32` |
| ConstEval.FoldingMatchesTemplate | src/ast/exp.rs:93-105 | whenever folding `a op b` succeeds, the operator is lowerable, and its template leaves the folded value's encoding in the destination when run on a and b |

## Left out

- The koopa IR library is replaced by `Ir`: values are opaque ids, and a function is a map from id to kind plus a block layout. Kinds the back end has no rule for are `Other`.
- Instructions missing from the layout's value map make every operation fail. `InitFunction` and `LayoutAllocs` require a well-formed layout (every instruction known, none repeated), which koopa guarantees.
- HashMap iteration order is an explicit parameter (`CodeGen.IterOrder`). The victim lemmas cover every order; `CodeGen.VisitsEveryEntry` names the one thing a HashMap iteration promises, that it visits every entry.
- `println!` diagnostics are not modelled. `src/main.rs`, the parser and file I/O are not part of this model, nor is the IR builder with its `to_ir` impls. The scoped symbol table is not part of this model either: `ConstEval` uses one flat map from name to symbol, without scope levels.
- Rust panics and `Err` results are both `Failure`. Arithmetic follows a debug build: `i32` overflow panics, where a release build would wrap.
- `ConstEval.EvalExp`: `ConstInitVal::eval_const` only forwards to its expression, so it is `EvalExp` itself.
- `get_return_reg` is the constant `Registers.RETURN_REG`. `generate_load_immediate` and `generate_move` are one-instruction functions with no further contract.
- Machine semantics: memory maps a byte address to a whole word, so overlapping or misaligned word accesses are not modelled byte by byte (the source lays slots out 4 bytes apart from a 16-aligned frame size); `CodeGen.Disturbs` treats any `sw` within 3 bytes of a slot as overwriting it. A word never written reads as 0, sp is an unbounded integer, and `ret` leaves the state unchanged. The `i32` cast of offsets in `format!` is not modelled; offsets are unbounded integers.
- `CodeGen.GenerateProgram`: states only the leading `.text` of the text. The function headers and their order are stated on lines (`CodeGen.ProgramDeclaresEveryFunction`), not on characters.
- `Asm.GenerateBinary`: its contract states shape and destination. What each template computes is stated by `Asm.ComparisonTemplateCorrect` (comparisons), `Asm.BitwiseTemplateCorrect` (`and`, `or`) and `ConstEval.FoldingMatchesTemplate` (`add`, `sub`, `mul`, `div`, `rem`).
- `CodeGen.SpillThenReload`: states that a spilled word survives code that neither stores over any byte of its slot nor moves sp. It does not prove that the code emitted between a spill and its reload meets that condition. A Store whose destination value holds a spill slot would write into it, and only the IR's typing (a Store's destination is an Alloc pointer) rules that out. The return epilogue moves sp, and only the control transfer of `ret` keeps a later reload from following it.
- `CodeGen.PrepareBinaryOps`: does not promise that lhs's register still holds lhs's value when the template runs, because the source does not keep it. Materialising rhs may spill lhs's own register, and `CodeGen.RhsCanEvictLhs` proves that lhs, rhs and the destination then share one register that holds rhs. A spilled register is also handed out with its bank bit clear (gen_instruct.rs:59), so a later `allocate_tmp` in the same instruction can return it again. The model keeps both behaviours as written.
- Register names are parsed as on a 64-bit host, where `usize` holds values below 2^64.
