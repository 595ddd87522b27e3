/** The slice of the koopa IR that the back end consumes.

    Values are opaque ids; a function is a data-flow graph (id to kind)
    plus a layout of basic blocks, each an ordered list of instruction ids.
    Integer constants live in the graph but not in the layout. */
module Ir {
  import opened Wrappers
  import opened Words

  datatype Value = Value(id: nat)

  /** koopa's binary operators (the back end lowers only some of them). */
  datatype BinaryOp =
    | NotEq | Eq | Gt | Lt | Ge | Le
    | Add | Sub | Mul | Div | Mod
    | And | Or | Xor | Shl | Shr | Sar

  predicate IsComparison(op: BinaryOp) {
    op.NotEq? || op.Eq? || op.Gt? || op.Lt? || op.Ge? || op.Le?
  }

  /** Reference meaning of a comparison operator on signed integers. */
  predicate Holds(op: BinaryOp, x: int, y: int)
    requires IsComparison(op)
  {
    match op
    case NotEq => x != y
    case Eq => x == y
    case Gt => x > y
    case Lt => x < y
    case Ge => x >= y
    case Le => x <= y
  }

  /** Value kinds; `Other` stands for every kind the back end has no rule
      for (branches, jumps, calls, globals, ...). */
  datatype ValueKind =
    | Integer(n: I32)
    | Alloc
    | Load(src: Value)
    | Store(stored: Value, dest: Value)
    | Binary(op: BinaryOp, lhs: Value, rhs: Value)
    | Return(result: Option<Value>)
    | Other

  datatype FunctionData = FunctionData(name: string, dfg: map<Value, ValueKind>, blocks: seq<seq<Value>>)

  /** A program: its functions in layout order. */
  datatype Program = Program(funcs: seq<FunctionData>)

  /** All instructions of a function, block after block. */
  function Flatten(blocks: seq<seq<Value>>): (insts: seq<Value>)
    ensures |blocks| == 0 ==> insts == []
  {
    if |blocks| == 0 then [] else blocks[0] + Flatten(blocks[1..])
  }

  /** Adding a block at the end adds its instructions at the end. */
  lemma {:induction false} FlattenAppend(blocks: seq<seq<Value>>, b: seq<Value>)
    ensures Flatten(blocks + [b]) == Flatten(blocks) + b
  {
    if |blocks| > 0 {
      assert (blocks + [b])[1..] == blocks[1..] + [b];
      FlattenAppend(blocks[1..], b);
    } else {
      assert Flatten([b][1..]) == [];
    }
  }

  /** An instruction is laid out exactly when some block holds it. */
  lemma {:induction false} FlattenMembership(blocks: seq<seq<Value>>, v: Value)
    ensures v in Flatten(blocks) <==> exists i :: 0 <= i < |blocks| && v in blocks[i]
  {
    if |blocks| > 0 {
      FlattenMembership(blocks[1..], v);
      if v in Flatten(blocks[1..]) {
        var i :| 0 <= i < |blocks| - 1 && v in blocks[1..][i];
        assert v in blocks[i + 1];
      }
      if exists i :: 0 <= i < |blocks| && v in blocks[i] {
        var i :| 0 <= i < |blocks| && v in blocks[i];
        if i > 0 {
          assert v in blocks[1..][i - 1];
        }
      }
    }
  }

  function Instructions(f: FunctionData): seq<Value> {
    Flatten(f.blocks)
  }

  /** What koopa guarantees of a layout: every laid-out instruction is in
      the data-flow graph and appears once. */
  predicate WellFormed(f: FunctionData) {
    var insts := Instructions(f);
    && (forall i :: 0 <= i < |insts| ==> insts[i] in f.dfg)
    && (forall i, j :: 0 <= i < j < |insts| ==> insts[i] != insts[j])
  }
}
