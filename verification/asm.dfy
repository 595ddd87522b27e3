/** RV32 assembly as the back end emits it
    (src/asm_generator/instruct_generator.rs and the `format!` calls of
    src/asm_generator/gen_instruct.rs and register_manager.rs).

    Output is a sequence of typed lines; `RenderLine` gives the exact text
    each line contributes to the assembly file.  A small machine semantics
    (`Step`, `Exec`) gives the instructions their RV32I/RV32M meaning, so
    that the templates can be proved to compute what the operators mean. */
module Asm {
  import opened Wrappers
  import opened Words
  import opened Registers
  import Ir

  /** Register-register ALU instructions the templates use. */
  datatype AluOp = Add | Sub | Mul | Div | Rem | And | Or | Xor | Slt

  datatype Instr =
    | Alu(op: AluOp, rd: Reg, rs1: Reg, rs2: Reg)
    | Seqz(rd: Reg, rs: Reg)
    | Snez(rd: Reg, rs: Reg)
    | Li(rd: Reg, imm: I32)
    | Mv(rd: Reg, rs: Reg)
    | Lw(rd: Reg, offset: int)     // lw rd, offset(sp)
    | Sw(rs: Reg, offset: int)     // sw rs, offset(sp)
    | AddrOf(rd: Reg, offset: int) // addi rd, sp, offset
    | AdjustSp(delta: int)         // addi sp, sp, delta
    | Ret

  /** One line of the output file. */
  datatype Line = TextSection | Global(symbol: string) | Label(symbol: string) | Emit(instr: Instr)

  // ---------------------------------------------------------------------
  // Text

  function Mnemonic(op: AluOp): string {
    match op
    case Add => "add"
    case Sub => "sub"
    case Mul => "mul"
    case Div => "div"
    case Rem => "rem"
    case And => "and"
    case Or => "or"
    case Xor => "xor"
    case Slt => "slt"
  }

  function SpSlot(offset: int): string {
    IntToString(offset) + "(sp)"
  }

  /** Text of an instruction without its indentation and newline. */
  function InstrBody(i: Instr): string {
    match i
    case Alu(op, rd, rs1, rs2) => Mnemonic(op) + " " + RegName(rd) + ", " + RegName(rs1) + ", " + RegName(rs2)
    case Seqz(rd, rs) => "seqz " + RegName(rd) + ", " + RegName(rs)
    case Snez(rd, rs) => "snez " + RegName(rd) + ", " + RegName(rs)
    case Li(rd, imm) => "li " + RegName(rd) + ", " + IntToString(imm)
    case Mv(rd, rs) => "mv " + RegName(rd) + ", " + RegName(rs)
    case Lw(rd, off) => "lw " + RegName(rd) + ", " + SpSlot(off)
    case Sw(rs, off) => "sw " + RegName(rs) + ", " + SpSlot(off)
    case AddrOf(rd, off) => "addi " + RegName(rd) + ", sp, " + IntToString(off)
    case AdjustSp(delta) => "addi sp, sp, " + IntToString(delta)
    case Ret => "ret"
  }

  /** An instruction's line: two spaces of indentation, then a newline. */
  function RenderInstr(i: Instr): string {
    "  " + InstrBody(i) + "\n"
  }

  function RenderLine(l: Line): string {
    match l
    case TextSection => ".text\n"
    case Global(f) => ".global " + f + "\n"
    case Label(f) => f + ":\n"
    case Emit(i) => RenderInstr(i)
  }

  /** The assembly file: the lines' text, one after the other. */
  function Render(lines: seq<Line>): string {
    if |lines| == 0 then "" else RenderLine(lines[0]) + Render(lines[1..])
  }

  function Emitted(code: seq<Instr>): (ls: seq<Line>)
    ensures |ls| == |code|
    ensures forall k :: 0 <= k < |code| ==> ls[k] == Emit(code[k])
  {
    if |code| == 0 then [] else [Emit(code[0])] + Emitted(code[1..])
  }

  predicate NoNewline(s: string) {
    '\n' !in s
  }

  lemma NoNewlineConcat(a: string, b: string)
    requires NoNewline(a) && NoNewline(b)
    ensures NoNewline(a + b)
  {
  }

  lemma DigitsHaveNoNewline(n: nat)
    ensures NoNewline(NatToString(n))
  {
  }

  lemma DecimalHasNoNewline(x: int)
    ensures NoNewline(IntToString(x))
  {
    if x < 0 {
      DigitsHaveNoNewline(-x);
      assert IntToString(x) == "-" + NatToString(-x);
    } else {
      DigitsHaveNoNewline(x);
    }
  }

  lemma RegNameHasNoNewline(r: Reg)
    ensures NoNewline(RegName(r))
  {
    match r
    case T(i) => DigitsHaveNoNewline(i);
    case S(i) => DigitsHaveNoNewline(i);
    case A(i) => DigitsHaveNoNewline(i);
    case X0 =>
  }

  lemma BodyHasNoNewline(i: Instr)
    ensures NoNewline(InstrBody(i))
  {
    match i {
      case Alu(op, rd, rs1, rs2) =>
        RegNameHasNoNewline(rd);
        RegNameHasNoNewline(rs1);
        RegNameHasNoNewline(rs2);
        NoNewlineConcat(Mnemonic(op), " ");
        JoinHasNoNewline(Mnemonic(op) + " ", RegName(rd), ", ", RegName(rs1));
        JoinHasNoNewline(Mnemonic(op) + " " + RegName(rd) + ", " + RegName(rs1), "", ", ", RegName(rs2));
        assert Mnemonic(op) + " " + RegName(rd) + ", " + RegName(rs1) + "" == Mnemonic(op) + " " + RegName(rd) + ", " + RegName(rs1);
      case Seqz(rd, rs) =>
        RegNameHasNoNewline(rd);
        RegNameHasNoNewline(rs);
        JoinHasNoNewline("seqz ", RegName(rd), ", ", RegName(rs));
      case Snez(rd, rs) =>
        RegNameHasNoNewline(rd);
        RegNameHasNoNewline(rs);
        JoinHasNoNewline("snez ", RegName(rd), ", ", RegName(rs));
      case Mv(rd, rs) =>
        RegNameHasNoNewline(rd);
        RegNameHasNoNewline(rs);
        JoinHasNoNewline("mv ", RegName(rd), ", ", RegName(rs));
      case Ret =>
      case _ => NumericBodyHasNoNewline(i);
    }
  }

  /** The instructions whose text carries a decimal immediate or offset. */
  lemma NumericBodyHasNoNewline(i: Instr)
    requires i.Li? || i.Lw? || i.Sw? || i.AddrOf? || i.AdjustSp?
    ensures NoNewline(InstrBody(i))
  {
    match i {
      case Li(rd, imm) =>
        RegNameHasNoNewline(rd);
        DecimalHasNoNewline(imm);
        JoinHasNoNewline("li ", RegName(rd), ", ", IntToString(imm));
      case Lw(rd, off) =>
        RegNameHasNoNewline(rd);
        SlotHasNoNewline(off);
        JoinHasNoNewline("lw ", RegName(rd), ", ", SpSlot(off));
      case Sw(rs, off) =>
        RegNameHasNoNewline(rs);
        SlotHasNoNewline(off);
        JoinHasNoNewline("sw ", RegName(rs), ", ", SpSlot(off));
      case AddrOf(rd, off) =>
        RegNameHasNoNewline(rd);
        DecimalHasNoNewline(off);
        JoinHasNoNewline("addi ", RegName(rd), ", sp, ", IntToString(off));
      case AdjustSp(delta) =>
        DecimalHasNoNewline(delta);
        NoNewlineConcat("addi sp, sp, ", IntToString(delta));
    }
  }

  lemma JoinHasNoNewline(head: string, x: string, sep: string, y: string)
    requires NoNewline(head) && NoNewline(x) && NoNewline(sep) && NoNewline(y)
    ensures NoNewline(head + x + sep + y)
  {
    NoNewlineConcat(head, x);
    NoNewlineConcat(head + x, sep);
    NoNewlineConcat(head + x + sep, y);
  }

  lemma SlotHasNoNewline(off: int)
    ensures NoNewline(SpSlot(off))
  {
    DecimalHasNoNewline(off);
    NoNewlineConcat(IntToString(off), "(sp)");
  }

  /** Every emitted instruction is exactly one line of text: two spaces of
      indentation, a body with no line break, and a final newline. */
  lemma InstrIsOneIndentedLine(i: Instr)
    ensures var text := RenderInstr(i);
      && |text| >= 4 && text[..2] == "  " && text[|text| - 1] == '\n'
      && NoNewline(text[..|text| - 1])
  {
    var body := InstrBody(i);
    BodyHasNoNewline(i);
    var text := RenderInstr(i);
    assert text[..|text| - 1] == "  " + body;
  }

  lemma SliceBetween(prefix: string, middle: string, suffix: string)
    ensures var text := prefix + middle + suffix;
      text[..|prefix|] == prefix && text[|prefix|..|text| - |suffix|] == middle
  {
    var text := prefix + middle + suffix;
    assert text[..|prefix|] == prefix;
    assert text[|prefix|..|text| - |suffix|] == middle;
  }

  /** The decimal of a `li` line reads back as the immediate it loads. */
  lemma LoadImmediateRoundTrip(rd: Reg, imm: I32)
    ensures var prefix := "  li " + RegName(rd) + ", ";
      var text := RenderInstr(Li(rd, imm));
      && |text| == |prefix| + |IntToString(imm)| + 1
      && text[..|prefix|] == prefix
      && ParseInt(text[|prefix|..|text| - 1]) == Some(imm as int)
  {
    var prefix := "  li " + RegName(rd) + ", ";
    var digits := IntToString(imm);
    LoadImmediateText(rd, imm);
    SliceBetween(prefix, digits, "\n");
    ParseIntToString(imm);
  }

  lemma LoadImmediateText(rd: Reg, imm: I32)
    ensures RenderInstr(Li(rd, imm)) == "  li " + RegName(rd) + ", " + IntToString(imm) + "\n"
  {
    var name, digits := RegName(rd), IntToString(imm);
    calc {
      RenderInstr(Li(rd, imm));
      "  " + InstrBody(Li(rd, imm)) + "\n";
      "  " + ("li " + name + ", " + digits) + "\n";
      { assert "  " + ("li " + name + ", " + digits) == "  li " + name + ", " + digits; }
      "  li " + name + ", " + digits + "\n";
    }
  }

  // ---------------------------------------------------------------------
  // Templates of src/asm_generator/instruct_generator.rs

  /** The operators `generate_binary` has a template for; the others
      (Xor, Shl, Shr, Sar) reach `unreachable!`. */
  predicate Lowerable(op: Ir.BinaryOp) {
    !(op.Xor? || op.Shl? || op.Shr? || op.Sar?)
  }

  function GenerateBinary(op: Ir.BinaryOp, dst: Reg, lhs: Reg, rhs: Reg): (code: seq<Instr>)
    requires Lowerable(op)
    ensures 1 <= |code| <= 2
    ensures |code| == 2 <==> op.Eq? || op.NotEq? || op.Le? || op.Ge?
    ensures code[0].Alu? && code[0].rd == dst
  {
    match op
    case Eq => [Alu(Xor, dst, lhs, rhs), Seqz(dst, dst)]
    case Sub => [Alu(Sub, dst, lhs, rhs)]
    case Add => [Alu(Add, dst, lhs, rhs)]
    case Mul => [Alu(Mul, dst, lhs, rhs)]
    case Div => [Alu(Div, dst, lhs, rhs)]
    case Mod => [Alu(Rem, dst, lhs, rhs)]
    case And => [Alu(And, dst, lhs, rhs)]
    case Or => [Alu(Or, dst, lhs, rhs)]
    case Lt => [Alu(Slt, dst, lhs, rhs)]
    case Gt => [Alu(Slt, dst, rhs, lhs)]
    case Le => [Alu(Slt, dst, rhs, lhs), Seqz(dst, dst)]
    case Ge => [Alu(Slt, dst, lhs, rhs), Seqz(dst, dst)]
    case NotEq => [Alu(Xor, dst, lhs, rhs), Snez(dst, dst)]
  }

  /** Gt and Le are Lt and Ge with the operand registers swapped. */
  lemma SwappedComparisons(dst: Reg, lhs: Reg, rhs: Reg)
    ensures GenerateBinary(Ir.Gt, dst, lhs, rhs) == GenerateBinary(Ir.Lt, dst, rhs, lhs)
    ensures GenerateBinary(Ir.Le, dst, lhs, rhs) == GenerateBinary(Ir.Ge, dst, rhs, lhs)
  {
  }

  /** `generate_return`: move the result into a0 (when there is one), then
      return. */
  function GenerateReturn(val: Option<Reg>): (code: seq<Instr>)
    ensures |code| >= 1 && code[|code| - 1] == Ret
    ensures |code| == 2 <==> val.Some?
    ensures val.Some? ==> code[0] == Mv(RETURN_REG, val.value)
  {
    match val
    case Some(r) => [Mv(RETURN_REG, r), Ret]
    case None => [Ret]
  }

  function GenerateLoadImmediate(dst: Reg, value: I32): seq<Instr> {
    [Li(dst, value)]
  }

  function GenerateMove(dst: Reg, src: Reg): seq<Instr> {
    [Mv(dst, src)]
  }

  // ---------------------------------------------------------------------
  // Machine semantics (RV32I base integer set plus the M extension's
  // mul/div/rem).  Memory is word-addressed by byte offset from zero;
  // `sp` is an unbounded integer (stack-pointer wrap-around is not
  // modelled).  `ret` transfers control, which straight-line execution
  // does not model: it leaves the state unchanged.

  /** Register file and memory; a register or address never written
      reads as zero. */
  datatype Machine = Machine(regs: map<Reg, Word>, mem: map<int, Word>, sp: int)

  /** `x0` always reads as zero. */
  function Read(m: Machine, r: Reg): Word {
    if r == X0 || r !in m.regs then 0 else m.regs[r]
  }

  function Load(m: Machine, addr: int): Word {
    if addr in m.mem then m.mem[addr] else 0
  }

  /** Writes to `x0` are discarded. */
  function Write(m: Machine, r: Reg, w: Word): (m': Machine)
    ensures m'.sp == m.sp && m'.mem == m.mem
    ensures forall q :: Read(m', q) == if q == r && r != X0 then w else Read(m, q)
  {
    if r == X0 then m else m.(regs := m.regs[r := w])
  }

  function Store(m: Machine, addr: int, w: Word): (m': Machine)
    ensures m'.sp == m.sp && m'.regs == m.regs
    ensures forall a :: Load(m', a) == if a == addr then w else Load(m, a)
  {
    m.(mem := m.mem[addr := w])
  }

  const MIN_I32: I32 := -TWO_31

  function AluResult(op: AluOp, a: Word, b: Word): Word {
    var sa, sb := ToSigned(a), ToSigned(b);
    match op
    case Add => Wrap(a + b)
    case Sub => Wrap(a - b)
    case Mul => Wrap(a * b)
    case Div =>
      if sb == 0 then TWO_32 - 1
      else if sa == MIN_I32 && sb == -1 then a
      else Wrap(TruncDiv(sa, sb))
    case Rem =>
      if sb == 0 then a
      else if sa == MIN_I32 && sb == -1 then 0
      else Wrap(TruncRem(sa, sb))
    case And => And32(a, b)
    case Or => Or32(a, b)
    case Xor => Xor32(a, b)
    case Slt => if sa < sb then 1 else 0
  }

  function Step(m: Machine, i: Instr): Machine {
    match i
    case Alu(op, rd, rs1, rs2) => Write(m, rd, AluResult(op, Read(m, rs1), Read(m, rs2)))
    case Seqz(rd, rs) => Write(m, rd, if Read(m, rs) == 0 then 1 else 0)
    case Snez(rd, rs) => Write(m, rd, if Read(m, rs) != 0 then 1 else 0)
    case Li(rd, imm) => Write(m, rd, FromSigned(imm))
    case Mv(rd, rs) => Write(m, rd, Read(m, rs))
    case Lw(rd, off) => Write(m, rd, Load(m, m.sp + off))
    case Sw(rs, off) => Store(m, m.sp + off, Read(m, rs))
    case AddrOf(rd, off) => Write(m, rd, Wrap(m.sp + off))
    case AdjustSp(delta) => m.(sp := m.sp + delta)
    case Ret => m
  }

  function Exec(m: Machine, code: seq<Instr>): Machine
    decreases |code|
  {
    if |code| == 0 then m else Exec(Step(m, code[0]), code[1..])
  }

  lemma {:induction false} ExecAppend(m: Machine, a: seq<Instr>, b: seq<Instr>)
    ensures Exec(m, a + b) == Exec(Exec(m, a), b)
    decreases |a|
  {
    if |a| > 0 {
      assert (a + b)[1..] == a[1..] + b;
      ExecAppend(Step(m, a[0]), a[1..], b);
    } else {
      assert a + b == b;
    }
  }

  lemma ExecTwo(m: Machine, i: Instr, j: Instr)
    ensures Exec(m, [i]) == Step(m, i)
    ensures Exec(m, [i, j]) == Step(Step(m, i), j)
  {
    assert [i, j][1..] == [j];
    assert [j][1..] == [];
    assert Exec(m, [i, j]) == Exec(Step(m, i), [j]);
    assert Exec(Step(m, i), [j]) == Exec(Step(Step(m, i), j), []);
  }

  /** Every comparison template leaves 1 in the destination when the
      relation holds between the signed operand values and 0 otherwise,
      also when the destination is one of the operand registers. */
  lemma ComparisonTemplateCorrect(op: Ir.BinaryOp, dst: Reg, lhs: Reg, rhs: Reg, m: Machine)
    requires Ir.IsComparison(op) && dst != X0
    ensures var m' := Exec(m, GenerateBinary(op, dst, lhs, rhs));
      Read(m', dst) == if Ir.Holds(op, ToSigned(Read(m, lhs)), ToSigned(Read(m, rhs))) then 1 else 0
  {
    if op.Eq? || op.NotEq? {
      EqualityTemplate(op, dst, lhs, rhs, m);
    } else if op.Lt? || op.Ge? {
      OrderTemplate(op, dst, lhs, rhs, m);
    } else {
      SwappedComparisons(dst, lhs, rhs);
      OrderTemplate(if op.Gt? then Ir.Lt else Ir.Ge, dst, rhs, lhs, m);
    }
  }

  /** `xor` then `seqz`/`snez`: zero exactly when the words are equal. */
  lemma EqualityTemplate(op: Ir.BinaryOp, dst: Reg, lhs: Reg, rhs: Reg, m: Machine)
    requires (op.Eq? || op.NotEq?) && dst != X0
    ensures var m' := Exec(m, GenerateBinary(op, dst, lhs, rhs));
      Read(m', dst) == if Ir.Holds(op, ToSigned(Read(m, lhs)), ToSigned(Read(m, rhs))) then 1 else 0
  {
    var a, b := Read(m, lhs), Read(m, rhs);
    ToSignedInjective(a, b);
    var first := Alu(Xor, dst, lhs, rhs);
    var second := if op.Eq? then Seqz(dst, dst) else Snez(dst, dst);
    var m1 := Step(m, first);
    assert Read(m1, dst) == Xor32(a, b) by {
      AluStep(m, Xor, dst, lhs, rhs);
    }
    assert Exec(m, GenerateBinary(op, dst, lhs, rhs)) == Step(m1, second) by {
      assert GenerateBinary(op, dst, lhs, rhs) == [first, second];
      ExecTwo(m, first, second);
    }
    TestStep(m1, dst);
  }

  /** `slt`, optionally followed by `seqz` for the negated relation. */
  lemma OrderTemplate(op: Ir.BinaryOp, dst: Reg, lhs: Reg, rhs: Reg, m: Machine)
    requires (op.Lt? || op.Ge?) && dst != X0
    ensures var m' := Exec(m, GenerateBinary(op, dst, lhs, rhs));
      Read(m', dst) == if Ir.Holds(op, ToSigned(Read(m, lhs)), ToSigned(Read(m, rhs))) then 1 else 0
  {
    var first := Alu(Slt, dst, lhs, rhs);
    var m1 := Step(m, first);
    assert Read(m1, dst) == if ToSigned(Read(m, lhs)) < ToSigned(Read(m, rhs)) then 1 else 0 by {
      AluStep(m, Slt, dst, lhs, rhs);
    }
    if op.Lt? {
      assert Exec(m, GenerateBinary(op, dst, lhs, rhs)) == m1 by {
        assert GenerateBinary(op, dst, lhs, rhs) == [first];
        ExecTwo(m, first, first);
      }
    } else {
      assert Exec(m, GenerateBinary(op, dst, lhs, rhs)) == Step(m1, Seqz(dst, dst)) by {
        assert GenerateBinary(op, dst, lhs, rhs) == [first, Seqz(dst, dst)];
        ExecTwo(m, first, Seqz(dst, dst));
      }
      TestStep(m1, dst);
    }
  }

  /** The `and` and `or` templates leave in the destination the word whose
      every bit is the and (or) of the operands' bits. */
  lemma BitwiseTemplateCorrect(op: Ir.BinaryOp, dst: Reg, lhs: Reg, rhs: Reg, m: Machine)
    requires (op.And? || op.Or?) && dst != X0
    ensures var m' := Exec(m, GenerateBinary(op, dst, lhs, rhs));
      var a, b := Read(m, lhs), Read(m, rhs);
      forall k :: 0 <= k < 32 ==>
        (Bit(Read(m', dst), k) == 1 <==> if op.And? then Bit(a, k) == 1 && Bit(b, k) == 1 else Bit(a, k) == 1 || Bit(b, k) == 1)
  {
    var aluOp := if op.And? then And else Or;
    assert GenerateBinary(op, dst, lhs, rhs) == [Alu(aluOp, dst, lhs, rhs)];
    ExecTwo(m, Alu(aluOp, dst, lhs, rhs), Ret);
    AluStep(m, aluOp, dst, lhs, rhs);
    And32EveryBit(Read(m, lhs), Read(m, rhs));
    Or32EveryBit(Read(m, lhs), Read(m, rhs));
  }

  /** After `generate_return`'s code, a0 holds the returned register's
      value and every other register is unchanged. */
  lemma ReturnLeavesValueInA0(val: Option<Reg>, m: Machine)
    ensures var m' := Exec(m, GenerateReturn(val));
      && m'.sp == m.sp && m'.mem == m.mem
      && (val.Some? ==> Read(m', RETURN_REG) == Read(m, val.value))
      && forall q :: q != RETURN_REG ==> Read(m', q) == Read(m, q)
  {
    match val
    case Some(r) => ExecTwo(m, Mv(RETURN_REG, r), Ret);
    case None => ExecTwo(m, Ret, Ret);
  }

  lemma AluStep(m: Machine, op: AluOp, dst: Reg, lhs: Reg, rhs: Reg)
    requires dst != X0
    ensures Read(Step(m, Alu(op, dst, lhs, rhs)), dst) == AluResult(op, Read(m, lhs), Read(m, rhs))
  {
  }

  lemma TestStep(m: Machine, dst: Reg)
    requires dst != X0
    ensures Read(Step(m, Seqz(dst, dst)), dst) == if Read(m, dst) == 0 then 1 else 0
    ensures Read(Step(m, Snez(dst, dst)), dst) == if Read(m, dst) != 0 then 1 else 0
  {
  }
}
