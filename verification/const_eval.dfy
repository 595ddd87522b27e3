/** Compile-time evaluation of constant expressions
    (the `ConstEval` impls of src/ast/exp.rs).

    Arithmetic is Rust's `i32` arithmetic as a debug build performs it:
    a result outside the `i32` range, a zero divisor, `i32::MIN / -1` and
    `i32::MIN % -1` abort.  Such aborts and the evaluator's own errors are
    both `Failure`s here, told apart by their `EvalError`. */
module ConstEval {
  import opened Wrappers
  import opened Words
  import opened Registers
  import opened Ir
  import opened Asm

  datatype UnaryOp = Plus | Minus | Not

  /** The expression tree after parsing: a binary node carries koopa's
      operator; identifiers are left-values. */
  datatype Exp =
    | PrimaryOf(primary: PrimaryExp)
    | UnaryOf(unary: UnaryExp)
    | Binary(lhs: Exp, op: BinaryOp, rhs: Exp)

  datatype UnaryExp =
    | Atom(atom: PrimaryExp)
    | Apply(uop: UnaryOp, operand: UnaryExp)

  datatype PrimaryExp =
    | Number(n: I32)
    | LVal(id: string)
    | Paren(inner: Exp)

  /** What a name resolves to (scope levels play no part here). */
  datatype Symbol = Const(value: I32) | Variable(v: Value) | Function(fname: string)

  type SymbolTable = map<string, Symbol>

  datatype EvalError =
    | UndefinedName(name: string)       // the lookup's own error
    | NotAConstant(name: string)        // "Not a constant"
    | UnsupportedOperator(op: BinaryOp) // "Unsupported binary operation"
    | Overflow                          // Rust's arithmetic overflow panic
    | DivisionByZero                    // Rust's zero-divisor panic

  predicate InI32(x: int) {
    -TWO_31 <= x < TWO_31
  }

  /** A debug build's overflow check on an exact result. */
  function Checked(x: int): (r: Result<I32, EvalError>)
    ensures r.Success? <==> InI32(x)
    ensures r.Success? ==> r.value == x
    ensures r.Failure? ==> r.error == Overflow
  {
    if InI32(x) then Success(x) else Failure(Overflow)
  }

  /** Rust's `/` on `i32`: rounds toward zero. */
  function EvalDiv(a: I32, b: I32): (r: Result<I32, EvalError>)
    ensures b == 0 ==> r == Failure(DivisionByZero)
    ensures b != 0 ==> (r.Success? <==> !(a == MIN_I32 && b == -1))
    ensures b != 0 && r.Failure? ==> r.error == Overflow
    ensures r.Success? ==>
      var rest := a - b * r.value;
      Abs(rest) < Abs(b) && (rest == 0 || (rest < 0 <==> a < 0))
  {
    if b == 0 then Failure(DivisionByZero)
    else
      TruncDivRem(a, b);
      DivisionOverflowsOnlyAtMin(a, b);
      Checked(TruncDiv(a, b))
  }

  /** Rust's `%` on `i32`: the remainder takes the dividend's sign. */
  function EvalMod(a: I32, b: I32): (r: Result<I32, EvalError>)
    ensures b == 0 ==> r == Failure(DivisionByZero)
    ensures b != 0 ==> (r.Success? <==> !(a == MIN_I32 && b == -1))
    ensures b != 0 && r.Failure? ==> r.error == Overflow
    ensures r.Success? ==> Abs(r.value) < Abs(b) && (r.value == 0 || (r.value < 0 <==> a < 0))
  {
    if b == 0 then Failure(DivisionByZero)
    else if a == MIN_I32 && b == -1 then Failure(Overflow)
    else
      TruncDivRem(a, b);
      Success(TruncRem(a, b))
  }

  /** One binary operator on two evaluated operands. */
  function EvalBinary(op: BinaryOp, a: I32, b: I32): (r: Result<I32, EvalError>)
    ensures IsComparison(op) ==> r == Success(if Holds(op, a, b) then 1 else 0)
    ensures !Lowerable(op) || op.And? || op.Or? ==> r == Failure(UnsupportedOperator(op))
    ensures op.Add? ==> (r.Success? <==> InI32(a + b)) && (r.Success? ==> r.value == a + b)
    ensures op.Sub? ==> (r.Success? <==> InI32(a - b)) && (r.Success? ==> r.value == a - b)
    ensures op.Mul? ==> (r.Success? <==> InI32(a * b)) && (r.Success? ==> r.value == a * b)
    ensures op.Div? ==> r == EvalDiv(a, b)
    ensures op.Mod? ==> r == EvalMod(a, b)
  {
    match op
    case Add => Checked(a + b)
    case Sub => Checked(a - b)
    case Mul => Checked(a * b)
    case Div => EvalDiv(a, b)
    case Mod => EvalMod(a, b)
    case Eq => Success(if a == b then 1 else 0)
    case NotEq => Success(if a != b then 1 else 0)
    case Ge => Success(if a >= b then 1 else 0)
    case Gt => Success(if a > b then 1 else 0)
    case Le => Success(if a <= b then 1 else 0)
    case Lt => Success(if a < b then 1 else 0)
    case _ => Failure(UnsupportedOperator(op))
  }

  /** The only `i32` quotient outside the `i32` range is `MIN / -1`. */
  lemma DivisionOverflowsOnlyAtMin(a: I32, b: I32)
    requires b != 0
    ensures InI32(TruncDiv(a, b)) <==> !(a == MIN_I32 && b == -1)
  {
    TruncDivRem(a, b);
    if a == MIN_I32 && b == -1 {
      assert TruncDiv(a, b) == TWO_31;
    }
  }

  /** Quotient and remainder of the folder fit together as Rust's do:
      a == b * (a / b) + a % b. */
  lemma DivModFit(a: I32, b: I32)
    requires EvalBinary(BinaryOp.Div, a, b).Success? && EvalBinary(BinaryOp.Mod, a, b).Success?
    ensures a == b * EvalBinary(BinaryOp.Div, a, b).value + EvalBinary(BinaryOp.Mod, a, b).value
  {
    TruncDivRem(a, b);
  }

  /** Unary operators: `+` is the identity, `-` negates (and overflows
      only on `i32::MIN`), `!` yields 1 exactly for 0. */
  function EvalUnaryOp(op: UnaryOp, v: I32): (r: Result<I32, EvalError>)
    ensures op.Plus? ==> r == Success(v)
    ensures op.Minus? ==> (r.Success? <==> v != MIN_I32) && (r.Success? ==> r.value + v == 0)
    ensures op.Minus? && r.Failure? ==> r.error == Overflow
    ensures op.Not? ==> r.Success? && (r.value == 1 <==> v == 0) && (r.value == 0 <==> v != 0)
  {
    match op
    case Plus => Success(v)
    case Minus => Checked(-(v as int))
    case Not => Success(if v == 0 then 1 else 0)
  }

  /** `LVal::eval_const` (and the identical LVal arm of
      `PrimaryExp::eval_const`): a name's value when it names a constant. */
  function EvalLVal(t: SymbolTable, id: string): (r: Result<I32, EvalError>)
    ensures r.Success? <==> id in t && t[id].Const?
    ensures r.Success? ==> r.value == t[id].value
    ensures id !in t ==> r == Failure(UndefinedName(id))
    ensures id in t && !t[id].Const? ==> r == Failure(NotAConstant(id))
  {
    if id !in t then Failure(UndefinedName(id))
    else
      match t[id]
      case Const(n) => Success(n)
      case _ => Failure(NotAConstant(id))
  }

  function EvalExp(t: SymbolTable, e: Exp): (r: Result<I32, EvalError>)
    ensures e.Binary? && IsComparison(e.op) && r.Success? ==> r.value == 0 || r.value == 1
    ensures e.Binary? && !Lowerable(e.op) ==> r.Failure?
    decreases e
  {
    match e
    case PrimaryOf(p) => EvalPrimary(t, p)
    case UnaryOf(u) => EvalUnary(t, u)
    case Binary(lhs, op, rhs) =>
      var a :- EvalExp(t, lhs);
      var b :- EvalExp(t, rhs);
      EvalBinary(op, a, b)
  }

  function EvalUnary(t: SymbolTable, u: UnaryExp): (r: Result<I32, EvalError>)
    ensures u.Apply? && u.uop.Not? && r.Success? ==> r.value == 0 || r.value == 1
    decreases u
  {
    match u
    case Atom(p) => EvalPrimary(t, p)
    case Apply(op, x) =>
      var v :- EvalUnary(t, x);
      EvalUnaryOp(op, v)
  }

  function EvalPrimary(t: SymbolTable, p: PrimaryExp): (r: Result<I32, EvalError>)
    ensures p.Number? ==> r == Success(p.n)
    ensures p.LVal? ==> r == EvalLVal(t, p.id)
    decreases p
  {
    match p
    case Number(n) => Success(n)
    case LVal(id) => EvalLVal(t, id)
    case Paren(inner) => EvalExp(t, inner)
  }

  /** A parenthesised expression has the value of its inside. */
  lemma ParenIsTransparent(t: SymbolTable, e: Exp)
    ensures EvalExp(t, PrimaryOf(Paren(e))) == EvalExp(t, e)
    ensures EvalUnary(t, Atom(Paren(e))) == EvalExp(t, e)
  {
  }

  /** Errors propagate through `?`: a binary node succeeds only when both
      operands do, and otherwise fails with the first operand's error
      (left before right). */
  lemma BinaryPropagatesErrors(t: SymbolTable, lhs: Exp, op: BinaryOp, rhs: Exp)
    ensures var r := EvalExp(t, Exp.Binary(lhs, op, rhs));
      && (r.Success? ==>
            && EvalExp(t, lhs).Success? && EvalExp(t, rhs).Success?
            && r == EvalBinary(op, EvalExp(t, lhs).value, EvalExp(t, rhs).value))
      && (EvalExp(t, lhs).Failure? ==> r == Failure(EvalExp(t, lhs).error))
      && (EvalExp(t, lhs).Success? && EvalExp(t, rhs).Failure? ==> r == Failure(EvalExp(t, rhs).error))
  {
  }

  lemma UnaryPropagatesErrors(t: SymbolTable, op: UnaryOp, x: UnaryExp)
    ensures var r := EvalUnary(t, Apply(op, x));
      && (EvalUnary(t, x).Failure? ==> r == Failure(EvalUnary(t, x).error))
      && (EvalUnary(t, x).Success? ==> r == EvalUnaryOp(op, EvalUnary(t, x).value))
  {
  }

  // ---------------------------------------------------------------------
  // Only the names an expression mentions matter

  function ExpNames(e: Exp): set<string>
    decreases e
  {
    match e
    case PrimaryOf(p) => PrimaryNames(p)
    case UnaryOf(u) => UnaryNames(u)
    case Binary(lhs, _, rhs) => ExpNames(lhs) + ExpNames(rhs)
  }

  function UnaryNames(u: UnaryExp): set<string>
    decreases u
  {
    match u
    case Atom(p) => PrimaryNames(p)
    case Apply(_, x) => UnaryNames(x)
  }

  function PrimaryNames(p: PrimaryExp): set<string>
    decreases p
  {
    match p
    case Number(_) => {}
    case LVal(id) => {id}
    case Paren(inner) => ExpNames(inner)
  }

  /** Two symbol tables that resolve every name in `names` alike. */
  predicate AgreeOn(t1: SymbolTable, t2: SymbolTable, names: set<string>) {
    forall n :: n in names ==> (n in t1 <==> n in t2) && (n in t1 ==> t1[n] == t2[n])
  }

  lemma {:induction false} ExpDependsOnlyOnNames(t1: SymbolTable, t2: SymbolTable, e: Exp)
    requires AgreeOn(t1, t2, ExpNames(e))
    ensures EvalExp(t1, e) == EvalExp(t2, e)
    decreases e
  {
    match e
    case PrimaryOf(p) => PrimaryDependsOnlyOnNames(t1, t2, p);
    case UnaryOf(u) => UnaryDependsOnlyOnNames(t1, t2, u);
    case Binary(lhs, _, rhs) =>
      ExpDependsOnlyOnNames(t1, t2, lhs);
      ExpDependsOnlyOnNames(t1, t2, rhs);
  }

  lemma {:induction false} UnaryDependsOnlyOnNames(t1: SymbolTable, t2: SymbolTable, u: UnaryExp)
    requires AgreeOn(t1, t2, UnaryNames(u))
    ensures EvalUnary(t1, u) == EvalUnary(t2, u)
    decreases u
  {
    match u
    case Atom(p) => PrimaryDependsOnlyOnNames(t1, t2, p);
    case Apply(_, x) => UnaryDependsOnlyOnNames(t1, t2, x);
  }

  lemma {:induction false} PrimaryDependsOnlyOnNames(t1: SymbolTable, t2: SymbolTable, p: PrimaryExp)
    requires AgreeOn(t1, t2, PrimaryNames(p))
    ensures EvalPrimary(t1, p) == EvalPrimary(t2, p)
    decreases p
  {
    match p
    case Number(_) =>
    case LVal(id) => assert id in PrimaryNames(p);
    case Paren(inner) => ExpDependsOnlyOnNames(t1, t2, inner);
  }

  /** Every name a successfully folded expression mentions is a constant. */
  lemma {:induction false} FoldedNamesAreConstants(t: SymbolTable, e: Exp)
    requires EvalExp(t, e).Success?
    ensures forall n :: n in ExpNames(e) ==> n in t && t[n].Const?
    decreases e
  {
    match e
    case PrimaryOf(p) => FoldedPrimaryNames(t, p);
    case UnaryOf(u) => FoldedUnaryNames(t, u);
    case Binary(lhs, _, rhs) =>
      FoldedNamesAreConstants(t, lhs);
      FoldedNamesAreConstants(t, rhs);
  }

  lemma {:induction false} FoldedUnaryNames(t: SymbolTable, u: UnaryExp)
    requires EvalUnary(t, u).Success?
    ensures forall n :: n in UnaryNames(u) ==> n in t && t[n].Const?
    decreases u
  {
    match u
    case Atom(p) => FoldedPrimaryNames(t, p);
    case Apply(_, x) => FoldedUnaryNames(t, x);
  }

  lemma {:induction false} FoldedPrimaryNames(t: SymbolTable, p: PrimaryExp)
    requires EvalPrimary(t, p).Success?
    ensures forall n :: n in PrimaryNames(p) ==> n in t && t[n].Const?
    decreases p
  {
    match p
    case Number(_) =>
    case LVal(id) =>
    case Paren(inner) => FoldedNamesAreConstants(t, inner);
  }

  // ---------------------------------------------------------------------
  // Folding agrees with the code the back end emits

  lemma WrapShift(x: int, k: int)
    ensures Wrap(x + k * TWO_32) == Wrap(x)
  {
    var q, r := x / TWO_32, x % TWO_32;
    assert x + k * TWO_32 == (q + k) * TWO_32 + r;
  }

  lemma WrapOfI32(x: I32)
    ensures Wrap(x) == FromSigned(x)
  {
    if x < 0 {
      WrapShift(x + TWO_32, -1);
    }
  }

  /** The register encoding of an `i32` differs from it by a multiple of
      2^32 (0 or 1 of them). */
  lemma FromSignedOffset(x: I32) returns (k: int)
    ensures FromSigned(x) == x + k * TWO_32 && (k == 0 || k == 1)
  {
    k := if x >= 0 then 0 else 1;
  }

  lemma AluArithmetic(op: AluOp, a: I32, b: I32)
    requires op.Add? || op.Sub? || op.Mul?
    requires op.Add? ==> InI32(a + b)
    requires op.Sub? ==> InI32(a - b)
    requires op.Mul? ==> InI32(a * b)
    ensures AluResult(op, FromSigned(a), FromSigned(b)) ==
      FromSigned(if op.Add? then a + b else if op.Sub? then a - b else a * b)
  {
    var x: int, y: int := FromSigned(a), FromSigned(b);
    match op
    case Add =>
      assert AluResult(op, x, y) == Wrap(x + y);
      SumWraps(a, b);
    case Sub =>
      assert AluResult(op, x, y) == Wrap(x - y);
      DifferenceWraps(a, b);
    case Mul =>
      assert AluResult(op, x, y) == Wrap(x * y);
      ProductWraps(a, b);
  }

  /** Adding register encodings wraps to the encoding of the exact sum
      when that fits in an `i32`. */
  lemma SumWraps(a: I32, b: I32)
    requires InI32(a + b)
    ensures Wrap(FromSigned(a) + FromSigned(b)) == FromSigned(a + b)
  {
    var ka := FromSignedOffset(a);
    var kb := FromSignedOffset(b);
    assert FromSigned(a) + FromSigned(b) == (a + b) + (ka + kb) * TWO_32;
    WrapShift(a + b, ka + kb);
    WrapOfI32(a + b);
  }

  /** The same for the difference. */
  lemma DifferenceWraps(a: I32, b: I32)
    requires InI32(a - b)
    ensures Wrap(FromSigned(a) - FromSigned(b)) == FromSigned(a - b)
  {
    var ka := FromSignedOffset(a);
    var kb := FromSignedOffset(b);
    assert FromSigned(a) - FromSigned(b) == (a - b) + (ka - kb) * TWO_32;
    WrapShift(a - b, ka - kb);
    WrapOfI32(a - b);
  }

  /** Multiplying register encodings wraps to the encoding of the exact
      product when that fits in an `i32`. */
  lemma ProductWraps(a: I32, b: I32)
    requires InI32(a * b)
    ensures Wrap(FromSigned(a) * FromSigned(b)) == FromSigned(a * b)
  {
    var ka := FromSignedOffset(a);
    var kb := FromSignedOffset(b);
    var k := Distribute(a, b, ka, kb, TWO_32);
    WrapShift(a * b, k);
    WrapOfI32(a * b);
  }

  /** Multiplying two values offset by multiples of t gives the product
      offset by a multiple of t. */
  lemma Distribute(a: int, b: int, p: int, q: int, t: int) returns (k: int)
    ensures (a + p * t) * (b + q * t) == a * b + k * t
  {
    k := a * q + p * b + p * q * t;
    calc {
      (a + p * t) * (b + q * t);
      a * (b + q * t) + (p * t) * (b + q * t);
      a * b + a * (q * t) + (p * t) * b + (p * t) * (q * t);
      a * b + (a * q) * t + (p * b) * t + (p * q * t) * t;
      a * b + k * t;
    }
  }

  /** Constant folding is sound with respect to the emitted code: when the
      folder evaluates `a op b` to v, the operator's template, run on
      registers holding a and b, leaves v's encoding in dst, whichever
      registers dst, lhs and rhs are. */
  lemma FoldingMatchesTemplate(op: BinaryOp, a: I32, b: I32, dst: Reg, lhs: Reg, rhs: Reg, m: Machine)
    requires dst != X0
    requires Read(m, lhs) == FromSigned(a) && Read(m, rhs) == FromSigned(b)
    requires EvalBinary(op, a, b).Success?
    ensures Lowerable(op)
    ensures Read(Exec(m, GenerateBinary(op, dst, lhs, rhs)), dst) == FromSigned(EvalBinary(op, a, b).value)
  {
    if IsComparison(op) {
      ComparisonTemplateCorrect(op, dst, lhs, rhs, m);
    } else {
      var aluOp := match op
        case Add => AluOp.Add
        case Sub => AluOp.Sub
        case Mul => AluOp.Mul
        case Div => AluOp.Div
        case _ => AluOp.Rem;
      var i := Alu(aluOp, dst, lhs, rhs);
      assert Read(Exec(m, GenerateBinary(op, dst, lhs, rhs)), dst) == AluResult(aluOp, FromSigned(a), FromSigned(b)) by {
        assert GenerateBinary(op, dst, lhs, rhs) == [i];
        ExecTwo(m, i, i);
        AluStep(m, aluOp, dst, lhs, rhs);
      }
      if op.Div? || op.Mod? {
        DivisionMatchesAlu(op, a, b);
      } else {
        AluArithmetic(aluOp, a, b);
      }
    }
  }

  /** `div` and `rem` on the encodings give the encoding of the folded
      quotient and remainder whenever folding succeeds. */
  lemma DivisionMatchesAlu(op: BinaryOp, a: I32, b: I32)
    requires op.Div? || op.Mod?
    requires EvalBinary(op, a, b).Success?
    ensures AluResult(if op.Div? then AluOp.Div else AluOp.Rem, FromSigned(a), FromSigned(b))
      == FromSigned(EvalBinary(op, a, b).value)
  {
    var v := EvalBinary(op, a, b).value;
    assert ToSigned(FromSigned(a)) == a && ToSigned(FromSigned(b)) == b;
    assert b != 0 && !(a == MIN_I32 && b == -1);
    WrapOfI32(v);
  }

}
