/** The use-count pre-pass and the count map's accessors
    (src/asm_generator/riscv_asm_generator.rs:31-79).

    Before a function is lowered, every operand occurrence of a Binary
    instruction and the value of a Return is counted; the generator then
    decrements a value's count each time it consumes the value. */
module UseCounts {
  import opened Wrappers
  import opened Ir

  type Counts = map<Value, nat>

  /** The operands an instruction contributes to the count: both sides of
      a Binary (twice the same value counts twice), a Return's value;
      nothing for any other kind. */
  function CountedOperands(k: ValueKind): (ops: seq<Value>)
    ensures |ops| <= 2
    ensures forall v :: multiset(ops)[v] == OccurrencesIn(k, v)
  {
    match k
    case Binary(_, lhs, rhs) => [lhs, rhs]
    case Return(Some(v)) => [v]
    case _ => []
  }

  /** Counted operands of a sequence of instructions, in order.  A laid-out
      id missing from the data-flow graph (koopa rules this out) contributes
      nothing. */
  function OperandStream(dfg: map<Value, ValueKind>, insts: seq<Value>): seq<Value> {
    if |insts| == 0 then []
    else (if insts[0] in dfg then CountedOperands(dfg[insts[0]]) else []) + OperandStream(dfg, insts[1..])
  }

  /** How often `v` is a Binary operand or the Return value of one
      instruction kind. */
  function OccurrencesIn(k: ValueKind, v: Value): nat {
    match k
    case Binary(_, lhs, rhs) => (if lhs == v then 1 else 0) + (if rhs == v then 1 else 0)
    case Return(Some(w)) => if w == v then 1 else 0
    case _ => 0
  }

  /** Independent reference count: how often `v` is a Binary operand or a
      Return value among `insts`. */
  function Occurrences(dfg: map<Value, ValueKind>, insts: seq<Value>, v: Value): nat {
    if |insts| == 0 then 0
    else (if insts[0] in dfg then OccurrencesIn(dfg[insts[0]], v) else 0) + Occurrences(dfg, insts[1..], v)
  }

  /** `get_use_count`: 0 for a value with no entry. */
  function GetUseCount(c: Counts, v: Value): nat {
    if v in c then c[v] else 0
  }

  /** `increment_use_count` applied to each value of `ops` in turn. */
  function Tally(c: Counts, ops: seq<Value>): (r: Counts)
    ensures r.Keys == c.Keys + set v | v in ops
    ensures forall v :: GetUseCount(r, v) == GetUseCount(c, v) + multiset(ops)[v]
    decreases |ops|
  {
    if |ops| == 0 then c
    else
      var v := ops[0];
      assert ops == [v] + ops[1..];
      Tally(c[v := GetUseCount(c, v) + 1], ops[1..])
  }

  /** `count_value_uses`: the previous counts are discarded and the
      function's operands counted afresh. */
  function CountValueUses(f: FunctionData): (r: Counts)
    ensures forall v :: v in r <==> v in OperandStream(f.dfg, Instructions(f))
    ensures forall v :: v in r ==> r[v] >= 1
  {
    var ops := OperandStream(f.dfg, Instructions(f));
    assert forall v :: v in ops ==> v in multiset(ops);
    Tally(map[], ops)
  }

  lemma OperandsOfKind(k: ValueKind, v: Value)
    ensures multiset(CountedOperands(k))[v] == OccurrencesIn(k, v)
  {
  }

  lemma {:induction false} StreamCountsOccurrences(dfg: map<Value, ValueKind>, insts: seq<Value>, v: Value)
    ensures multiset(OperandStream(dfg, insts))[v] == Occurrences(dfg, insts, v)
    decreases |insts|
  {
    if |insts| > 0 {
      var here := if insts[0] in dfg then CountedOperands(dfg[insts[0]]) else [];
      var rest := OperandStream(dfg, insts[1..]);
      assert OperandStream(dfg, insts) == here + rest;
      assert multiset(here + rest) == multiset(here) + multiset(rest);
      if insts[0] in dfg {
        OperandsOfKind(dfg[insts[0]], v);
      }
      StreamCountsOccurrences(dfg, insts[1..], v);
    }
  }

  /** After the pre-pass, a value's count is exactly the number of its
      occurrences as a Binary operand or Return value in the function. */
  lemma CountIsOccurrences(f: FunctionData, v: Value)
    ensures GetUseCount(CountValueUses(f), v) == Occurrences(f.dfg, Instructions(f), v)
  {
    StreamCountsOccurrences(f.dfg, Instructions(f), v);
  }

  /** Stores, loads, allocs, value-less returns and unhandled kinds add
      nothing to any count; a Binary whose two operands are the same value
      adds two to it. */
  lemma CountContributions(k: ValueKind, v: Value)
    ensures (k.Store? || k.Load? || k.Alloc? || k.Integer? || k.Other? || k == Return(None)) ==> multiset(CountedOperands(k))[v] == 0
    ensures k.Binary? && k.lhs == v && k.rhs == v ==> multiset(CountedOperands(k))[v] == 2
  {
  }

  /** `is_last_use`: at most one use remains (also for absent values). */
  predicate IsLastUse(c: Counts, v: Value) {
    GetUseCount(c, v) <= 1
  }

  /** `decrease_use_count`: a saturating decrement of an existing entry. */
  function DecreaseUseCount(c: Counts, v: Value): (r: Counts)
    ensures r.Keys == c.Keys
    ensures forall w :: w in c && w != v ==> r[w] == c[w]
    ensures v in c ==> r[v] == if c[v] > 0 then c[v] - 1 else 0
  {
    if v in c && c[v] > 0 then c[v := c[v] - 1] else c
  }

  /** `n` decrements of the same value. */
  function DecreaseTimes(c: Counts, v: Value, n: nat): Counts {
    if n == 0 then c else DecreaseUseCount(DecreaseTimes(c, v, n - 1), v)
  }

  /** Counts only go down, and a value's count reaches zero after exactly
      as many decrements as it had uses, and not before. */
  lemma {:induction false} DecreaseTimesReachesZero(c: Counts, v: Value, n: nat)
    ensures GetUseCount(DecreaseTimes(c, v, n), v) == if n <= GetUseCount(c, v) then GetUseCount(c, v) - n else 0
    ensures DecreaseTimes(c, v, n).Keys == c.Keys
    ensures forall w :: w != v ==> GetUseCount(DecreaseTimes(c, v, n), w) == GetUseCount(c, w)
  {
    if n > 0 {
      DecreaseTimesReachesZero(c, v, n - 1);
    }
  }

  /** Two count maps where every count of the second is at most that of the
      first and no new value appears. */
  ghost predicate NonIncreasing(c: Counts, c': Counts) {
    c'.Keys == c.Keys && forall v :: v in c ==> c'[v] <= c[v]
  }

  lemma DecreaseIsNonIncreasing(c: Counts, v: Value)
    ensures NonIncreasing(c, DecreaseUseCount(c, v))
  {
  }
}
