/** The allocator and instruction selector (src/asm_generator/gen_instruct.rs)
    and the function/program driver (src/asm_generator/riscv_asm_generator.rs:8-29).

    The generator state is the register manager plus the output lines so
    far; every step is a pure function from state to state.  The source
    aborts with a panic on an internal inconsistency; here that is a
    `Failure` carrying the reason.  The order in which the source's
    `HashMap` yields the value-to-register entries, which decides ties
    between spill candidates, is an explicit parameter `iter`. */
module CodeGen {
  import opened Wrappers
  import opened Words
  import opened Registers
  import opened Ir
  import opened Asm
  import opened RegisterManager
  import opened UseCounts

  datatype GenError =
    | SpillFailed                      // "Failed to allocate register even after spilling"
    | NoFreeTemporary                  // the `unwrap` in prepare_binary_ops
    | UnknownValue(v: Value)           // koopa's dfg lookup of an absent id
    | AllocWithoutSlot(v: Value)       // "Alloc value must have a stack slot ..."
    | LoadSourceNotAllocated(v: Value) // "Load source must be allocated"
    | UnsupportedValue(v: Value)       // "Unsupported value kind"
    | UnsupportedBinaryOp(op: BinaryOp)
    | NameWithoutAt(name: string)      // `strip_prefix("@").unwrap()`

  /** The order in which a `HashMap<Value, String>` hands out its entries. */
  type IterOrder = map<Value, Reg> -> seq<Value>

  datatype Gen = Gen(rm: Manager, out: seq<Line>)

  function EmitCode(g: Gen, code: seq<Instr>): (g': Gen)
    ensures g'.rm == g.rm && g'.out == g.out + Emitted(code)
  {
    g.(out := g.out + Emitted(code))
  }

  function Bind(g: Gen, v: Value, r: Reg): Gen {
    g.(rm := g.rm.(regOf := g.rm.regOf[v := r]))
  }

  // ---------------------------------------------------------------------
  // Invariants the generator keeps

  /** Only temporaries are ever recorded for a value: never `x0`, never an
      s or a register. */
  ghost predicate MappedToTemps(m: Manager) {
    forall v :: v in m.regOf ==> m.regOf[v].T?
  }

  ghost predicate Inv(m: Manager) {
    MappedToTemps(m) && SlotsBelowOffset(m)
  }

  /** `after` is `before` followed by instruction lines only. */
  ghost predicate EmitsOnly(before: seq<Line>, after: seq<Line>) {
    before <= after && forall k :: |before| <= k < |after| ==> after[k].Emit?
  }

  lemma EmitsOnlyTrans(a: seq<Line>, b: seq<Line>, c: seq<Line>)
    requires EmitsOnly(a, b) && EmitsOnly(b, c)
    ensures EmitsOnly(a, c)
  {
  }

  lemma EmitsOnlyEmitted(out: seq<Line>, code: seq<Instr>)
    ensures EmitsOnly(out, out + Emitted(code))
  {
  }

  lemma InvIgnoresUseCounts(m: Manager, counts: map<Value, nat>)
    ensures Inv(m) ==> Inv(m.(useCount := counts))
  {
  }

  /** `g'` extends `g`: output only appended, use counts untouched. */
  ghost predicate Extends(g: Gen, g': Gen) {
    EmitsOnly(g.out, g'.out) && g'.rm.useCount == g.rm.useCount && g'.rm.saved == g.rm.saved
  }

  lemma ExtendsTrans(g: Gen, g1: Gen, g2: Gen)
    requires Extends(g, g1) && Extends(g1, g2)
    ensures Extends(g, g2)
  {
    EmitsOnlyTrans(g.out, g1.out, g2.out);
  }

  /** The epilogue depends on the saved bank alone. */
  lemma EpilogueOfSavedBank(m: Manager, m': Manager)
    requires m.saved == m'.saved
    ensures GenerateEpilogue(m) == GenerateEpilogue(m')
  {
    assert SavedInUse(m) == SavedInUse(m');
  }

  // ---------------------------------------------------------------------
  // Spill victim

  /** A value the spill engine may evict: held in a temporary and still
      counted as used. */
  predicate Candidate(m: Manager, v: Value) {
    v in m.regOf && m.regOf[v].T? && GetUseCount(m.useCount, v) > 0
  }

  /** The loop of `find_reg_to_spill` over the entries in `order`, with the
      best candidate so far and its count: a later entry replaces it only
      with a strictly larger count. */
  function ScanForVictim(m: Manager, order: seq<Value>, best: Option<(Value, Reg)>, maxUse: nat): (r: Option<(Value, Reg)>)
    requires best.None? ==> maxUse == 0
    requires best.Some? ==>
               Candidate(m, best.value.0) && best.value.1 == m.regOf[best.value.0]
               && GetUseCount(m.useCount, best.value.0) == maxUse
    ensures r.Some? ==> Candidate(m, r.value.0) && r.value.1 == m.regOf[r.value.0]
    ensures r.Some? ==> (r.value.0 in order || r == best) && GetUseCount(m.useCount, r.value.0) >= maxUse
    ensures r.Some? ==> forall w :: w in order && Candidate(m, w) ==> GetUseCount(m.useCount, w) <= GetUseCount(m.useCount, r.value.0)
    ensures r.None? <==> best.None? && forall w :: w in order ==> !Candidate(m, w)
    decreases |order|
  {
    if |order| == 0 then best
    else
      var v := order[0];
      if v in m.regOf && m.regOf[v].T? && v in m.useCount && m.useCount[v] > 0 && m.useCount[v] > maxUse then
        ScanForVictim(m, order[1..], Some((v, m.regOf[v])), m.useCount[v])
      else
        ScanForVictim(m, order[1..], best, maxUse)
  }

  /** `find_reg_to_spill`: among the entries visited, a temporary-held
      value with the largest positive remaining use count. */
  function FindRegToSpill(m: Manager, order: seq<Value>): (r: Option<(Value, Reg)>)
    ensures r.Some? ==> r.value.0 in order && Candidate(m, r.value.0) && r.value.1 == m.regOf[r.value.0]
    ensures r.Some? ==> forall w :: w in order && Candidate(m, w) ==> GetUseCount(m.useCount, w) <= GetUseCount(m.useCount, r.value.0)
    ensures r.None? <==> forall w :: w in order ==> !Candidate(m, w)
  {
    ScanForVictim(m, order, None, 0)
  }

  /** Over an order that visits every entry (as a HashMap iteration does),
      the victim has the largest count of all candidates, and there is no
      victim only when there is no candidate at all. */
  lemma VictimIsGloballyMaximal(m: Manager, order: seq<Value>)
    requires forall v :: v in m.regOf ==> v in order
    ensures var r := FindRegToSpill(m, order);
      && (r.Some? ==> forall w :: Candidate(m, w) ==> GetUseCount(m.useCount, w) <= GetUseCount(m.useCount, r.value.0))
      && (r.None? <==> forall w :: !Candidate(m, w))
  {
  }

  /** What a `HashMap` iteration promises: every entry of the map is
      visited. */
  ghost predicate VisitsEveryEntry(iter: IterOrder) {
    forall regOf: map<Value, Reg>, v :: v in regOf ==> v in iter(regOf)
  }

  /** The victim `spill_and_get_reg` picks through such an iteration is
      maximal among all candidates, whatever order the map hands out. */
  lemma HashMapVictimIsMaximal(m: Manager, iter: IterOrder)
    requires VisitsEveryEntry(iter)
    ensures var r := FindRegToSpill(m, iter(m.regOf));
      && (r.Some? ==> forall w :: Candidate(m, w) ==> GetUseCount(m.useCount, w) <= GetUseCount(m.useCount, r.value.0))
      && (r.None? <==> forall w :: !Candidate(m, w))
  {
    VictimIsGloballyMaximal(m, iter(m.regOf));
  }

  lemma {:induction false} ScanKeepsMaximal(m: Manager, order: seq<Value>, v: Value)
    requires Candidate(m, v)
    requires forall w :: w in order && Candidate(m, w) ==> GetUseCount(m.useCount, w) <= GetUseCount(m.useCount, v)
    ensures ScanForVictim(m, order, Some((v, m.regOf[v])), GetUseCount(m.useCount, v)) == Some((v, m.regOf[v]))
    decreases |order|
  {
    if |order| > 0 {
      assert forall w :: w in order[1..] ==> w in order;
      ScanKeepsMaximal(m, order[1..], v);
    }
  }

  /** Conversely every maximal candidate is the victim for some iteration
      order: any order that visits it first. */
  lemma MaximalCandidateCanBeChosen(m: Manager, v: Value, rest: seq<Value>)
    requires Candidate(m, v)
    requires forall w :: Candidate(m, w) ==> GetUseCount(m.useCount, w) <= GetUseCount(m.useCount, v)
    ensures FindRegToSpill(m, [v] + rest) == Some((v, m.regOf[v]))
  {
    assert ([v] + rest)[0] == v && ([v] + rest)[1..] == rest;
    ScanKeepsMaximal(m, rest, v);
  }

  /** `spill_and_get_reg`: store the victim to a fresh slot, free its
      register and drop its mapping, and hand the register back. */
  function SpillAndGetReg(g: Gen, order: seq<Value>): (r: Option<(Reg, Gen)>)
    ensures r.None? <==> FindRegToSpill(g.rm, order).None?
    ensures r.Some? ==>
      var (victim, reg) := FindRegToSpill(g.rm, order).value;
      var (reg', g') := r.value;
      && reg' == reg && reg.T? && g.rm.regOf[victim] == reg
      && g'.out == g.out + [Emit(Sw(reg, g.rm.offset))]
      && g'.rm.slots == g.rm.slots[victim := g.rm.offset] && g'.rm.offset == g.rm.offset + 4
      && g'.rm.regOf == g.rm.regOf - {victim}
      && !InUse(g'.rm, reg)
      && g'.rm.useCount == g.rm.useCount
  {
    match FindRegToSpill(g.rm, order)
    case None => None
    case Some((victim, reg)) =>
      var (offset, rm1) := SpillToStack(g.rm, victim);
      var rm2 := FreeRegister(rm1, reg);
      var rm3 := rm2.(regOf := rm2.regOf - {victim});
      Some((reg, Gen(rm3, g.out + [Emit(Sw(reg, offset))])))
  }

  /** A fresh temporary: `allocate_tmp`, or, when all seven are taken, the
      register of a spilled victim. */
  function ObtainTemp(g: Gen, iter: IterOrder): (r: Result<(Reg, Gen), GenError>)
    ensures r.Success? ==> r.value.0.T? && Extends(g, r.value.1)
    ensures r.Success? && Inv(g.rm) ==> Inv(r.value.1.rm)
    ensures r.Failure? <==> (forall j :: 0 <= j < TEMP_COUNT ==> g.rm.temp[j]) && FindRegToSpill(g.rm, iter(g.rm.regOf)).None?
    ensures (exists j :: 0 <= j < TEMP_COUNT && !g.rm.temp[j]) ==> r.Success? && r.value.1.out == g.out
  {
    var (reg, rm1) := AllocateTmp(g.rm);
    if reg.Some? then Success((reg.value, g.(rm := rm1)))
    else
      match SpillAndGetReg(g, iter(g.rm.regOf))
      case None => Failure(SpillFailed)
      case Some(p) => Success(p)
  }

  // ---------------------------------------------------------------------
  // Operand materialisation

  /** `generate_value_and_get_reg`: materialise a value that has neither a
      register nor a slot.  Zero is `x0`; other constants are loaded with
      `li`; an Alloc's address is computed from sp; a Load reads its
      source's slot.  Anything else is an internal error. */
  function GenerateValueAndGetReg(f: FunctionData, iter: IterOrder, g: Gen, v: Value): (r: Result<(Reg, Gen), GenError>)
    ensures r.Success? ==> Extends(g, r.value.1)
    ensures r.Success? && Inv(g.rm) ==> Inv(r.value.1.rm)
    ensures r.Success? && r.value.0 == X0 ==> r.value.1 == g
    ensures r.Success? ==> v in f.dfg && (r.value.0 == X0 <==> f.dfg[v] == Integer(0))
    ensures r.Success? && r.value.0 != X0 ==>
      var (reg, g') := r.value;
      && reg.T? && v in g'.rm.regOf && g'.rm.regOf[v] == reg && |g'.out| > |g.out|
      && var last := g'.out[|g'.out| - 1];
      && (f.dfg[v].Integer? ==> last == Emit(Li(reg, f.dfg[v].n)))
      && (f.dfg[v].Alloc? ==> v in g.rm.slots && last == Emit(AddrOf(reg, g.rm.slots[v])))
      && (f.dfg[v].Load? ==> f.dfg[v].src in g.rm.slots && last == Emit(Lw(reg, g.rm.slots[f.dfg[v].src])))
    ensures r.Success? ==> v in f.dfg && (f.dfg[v].Integer? || f.dfg[v].Alloc? || f.dfg[v].Load?)
  {
    if v !in f.dfg then Failure(UnknownValue(v))
    else
      match f.dfg[v]
      case Integer(c) =>
        if c == 0 then Success((X0, g))
        else
          var p :- ObtainTemp(g, iter);
          var (reg, g1) := p;
          BindAfterEmit(g, g1, v, reg, Li(reg, c));
          Success((reg, Bind(EmitCode(g1, GenerateLoadImmediate(reg, c)), v, reg)))
      case Alloc =>
        if v !in g.rm.slots then Failure(AllocWithoutSlot(v))
        else
          var offset := g.rm.slots[v];
          var p :- ObtainTemp(g, iter);
          var (reg, g1) := p;
          BindAfterEmit(g, g1, v, reg, AddrOf(reg, offset));
          Success((reg, Bind(EmitCode(g1, [AddrOf(reg, offset)]), v, reg)))
      case Load(src) =>
        if src !in g.rm.slots then Failure(LoadSourceNotAllocated(src))
        else
          var offset := g.rm.slots[src];
          var p :- ObtainTemp(g, iter);
          var (reg, g1) := p;
          BindAfterEmit(g, g1, v, reg, Lw(reg, offset));
          Success((reg, Bind(EmitCode(g1, [Lw(reg, offset)]), v, reg)))
      case _ => Failure(UnsupportedValue(v))
  }

  /** Emitting one instruction into a fresh temporary and binding the
      value to it extends the generator and keeps the invariant. */
  lemma BindAfterEmit(g: Gen, g1: Gen, v: Value, reg: Reg, i: Instr)
    requires Extends(g, g1) && reg.T?
    ensures var g' := Bind(EmitCode(g1, [i]), v, reg);
      && Extends(g, g')
      && (Inv(g1.rm) ==> Inv(g'.rm))
      && v in g'.rm.regOf && g'.rm.regOf[v] == reg
      && |g'.out| > |g.out| && g'.out[|g'.out| - 1] == Emit(i)
  {
    EmitsOnlyEmitted(g1.out, [i]);
    EmitsOnlyTrans(g.out, g1.out, g1.out + Emitted([i]));
  }

  /** `get_or_generate_value_reg`: a value with a stack slot is always
      reloaded into a newly obtained register; otherwise its current
      register is returned with no output; otherwise it is materialised. */
  function GetOrGenerateValueReg(f: FunctionData, iter: IterOrder, g: Gen, v: Value): (r: Result<(Reg, Gen), GenError>)
    ensures r.Success? ==> Extends(g, r.value.1)
    ensures r.Success? && Inv(g.rm) ==> Inv(r.value.1.rm)
    ensures r.Success? && v in g.rm.slots ==>
      var (reg, g') := r.value;
      reg.T? && v in g'.rm.regOf && g'.rm.regOf[v] == reg && |g'.out| > |g.out|
      && g'.out[|g'.out| - 1] == Emit(Lw(reg, g.rm.slots[v]))
    ensures v !in g.rm.slots && v in g.rm.regOf ==> r == Success((g.rm.regOf[v], g))
    ensures r.Success? && Inv(g.rm) ==> r.value.0 != RETURN_REG && (r.value.0 == X0 || r.value.0.T?)
  {
    if v in g.rm.slots then
      var offset := g.rm.slots[v];
      var p :- ObtainTemp(g, iter);
      var (reg, g1) := p;
      Success((reg, Bind(EmitCode(g1, [Lw(reg, offset)]), v, reg)))
    else if v in g.rm.regOf then
      Success((g.rm.regOf[v], g))
    else
      GenerateValueAndGetReg(f, iter, g, v)
  }

  // ---------------------------------------------------------------------
  // Binary, Store, Return

  /** `can_reuse_register`: the value has a count and at most one use is
      left.  Unlike `is_last_use`, an absent value does not qualify. */
  predicate CanReuseRegister(m: Manager, v: Value) {
    v in m.useCount && m.useCount[v] <= 1
  }

  lemma CanReuseIsStricterThanLastUse(m: Manager, v: Value)
    ensures CanReuseRegister(m, v) ==> IsLastUse(m.useCount, v)
    ensures v !in m.useCount ==> IsLastUse(m.useCount, v) && !CanReuseRegister(m, v)
  {
  }

  /** Destination choice of `prepare_binary_ops`: coalesce into lhs's
      register (dropping lhs's mapping) exactly when lhs is on its last
      counted use and not `x0`; otherwise take the lowest free temporary,
      failing if there is none (no spill is attempted here). */
  function ChooseDestination(g: Gen, lhs: Value, lhsReg: Reg): (r: Result<(Reg, Gen), GenError>)
    ensures CanReuseRegister(g.rm, lhs) && lhsReg != X0 ==>
      r == Success((lhsReg, g.(rm := g.rm.(regOf := g.rm.regOf - {lhs}))))
    ensures !(CanReuseRegister(g.rm, lhs) && lhsReg != X0) ==>
      && (r.Failure? <==> forall j :: 0 <= j < TEMP_COUNT ==> g.rm.temp[j])
      && (r.Success? ==> r.value.0.T? && LowestClear(g.rm.temp, r.value.0.t)
                         && r.value.1 == g.(rm := AllocateTmp(g.rm).1))
    ensures r.Success? ==> Extends(g, r.value.1)
    ensures r.Success? && Inv(g.rm) ==> Inv(r.value.1.rm)
    ensures r.Success? && (lhsReg == X0 || lhsReg.T?) ==> r.value.0.T?
  {
    if CanReuseRegister(g.rm, lhs) && lhsReg != X0 then
      Success((lhsReg, g.(rm := g.rm.(regOf := g.rm.regOf - {lhs}))))
    else
      var (reg, rm1) := AllocateTmp(g.rm);
      if reg.None? then Failure(NoFreeTemporary) else Success((reg.value, g.(rm := rm1)))
  }

  /** `prepare_binary_ops`: lhs, then rhs, then the destination.  The
      result is (destination, lhs's register, rhs's register, state).
      Coalescing is decided on lhs alone; otherwise the destination is
      the lowest temporary still clear once both operands are in
      registers, with no spill. */
  function PrepareBinaryOps(f: FunctionData, iter: IterOrder, g: Gen, lhs: Value, rhs: Value): (r: Result<(Reg, Reg, Reg, Gen), GenError>)
    ensures r.Success? ==> Extends(g, r.value.3)
    ensures r.Success? && Inv(g.rm) ==> Inv(r.value.3.rm)
    ensures r.Success? && Inv(g.rm) ==> r.value.0.T?
    ensures r.Success? ==>
      && GetOrGenerateValueReg(f, iter, g, lhs).Success?
      && var (lhsReg, g1) := GetOrGenerateValueReg(f, iter, g, lhs).value;
      && r.value.1 == lhsReg
      && GetOrGenerateValueReg(f, iter, g1, rhs).Success?
      && var (rhsReg, g2) := GetOrGenerateValueReg(f, iter, g1, rhs).value;
      && r.value.2 == rhsReg
      && r.value.3.out == g2.out
      && (CanReuseRegister(g.rm, lhs) && lhsReg != X0 ==>
            r.value.0 == lhsReg && r.value.3.rm == g2.rm.(regOf := g2.rm.regOf - {lhs}))
      && (!(CanReuseRegister(g.rm, lhs) && lhsReg != X0) ==>
            r.value.0.T? && LowestClear(g2.rm.temp, r.value.0.t) && InUse(r.value.3.rm, r.value.0)
            && r.value.3.rm.regOf == g2.rm.regOf)
    ensures var p1 := GetOrGenerateValueReg(f, iter, g, lhs);
      p1.Success? ==>
      var p2 := GetOrGenerateValueReg(f, iter, p1.value.1, rhs);
      p2.Success? && !(CanReuseRegister(g.rm, lhs) && p1.value.0 != X0) ==>
      (r.Failure? <==> forall j :: 0 <= j < TEMP_COUNT ==> p2.value.1.rm.temp[j])
  {
    var p1 :- GetOrGenerateValueReg(f, iter, g, lhs);
    var (lhsReg, g1) := p1;
    var p2 :- GetOrGenerateValueReg(f, iter, g1, rhs);
    var (rhsReg, g2) := p2;
    var p3 :- ChooseDestination(g2, lhs, lhsReg);
    var (dst, g3) := p3;
    ExtendsTrans(g, g1, g2);
    ExtendsTrans(g, g2, g3);
    Success((dst, lhsReg, rhsReg, g3))
  }

  /** When every temporary is taken and lhs's register is the spill
      victim, materialising a constant rhs evicts lhs: lhs, rhs and the
      destination all get lhs's register, whose last write is rhs's `li`,
      so the template reads rhs's value in place of lhs's. */
  lemma RhsCanEvictLhs(f: FunctionData, iter: IterOrder, g: Gen, lhs: Value, rhs: Value, reg: Reg, c: I32)
    requires forall j :: 0 <= j < TEMP_COUNT ==> g.rm.temp[j]
    requires lhs !in g.rm.slots && lhs in g.rm.regOf && g.rm.regOf[lhs] == reg
    requires rhs !in g.rm.slots && rhs !in g.rm.regOf
    requires rhs in f.dfg && f.dfg[rhs] == Integer(c) && c != 0
    requires FindRegToSpill(g.rm, iter(g.rm.regOf)) == Some((lhs, reg))
    ensures var r := PrepareBinaryOps(f, iter, g, lhs, rhs);
      && r.Success? && r.value.0 == reg && r.value.1 == reg && r.value.2 == reg
      && lhs !in r.value.3.rm.regOf && r.value.3.rm.regOf[rhs] == reg
      && r.value.3.out[|r.value.3.out| - 1] == Emit(Li(reg, c))
  {
    SpillLeavesOnlyVictimClear(g, iter(g.rm.regOf), lhs, reg);
    var g1 := SpillAndGetReg(g, iter(g.rm.regOf)).value.1;
    var g2 := Bind(EmitCode(g1, [Li(reg, c)]), rhs, reg);
    assert ObtainTemp(g, iter) == Success((reg, g1));
    assert GenerateValueAndGetReg(f, iter, g, rhs) == Success((reg, g2));
    assert LowestClear(g2.rm.temp, reg.t);
  }

  /** Spilling from a full temporary bank leaves exactly the victim's
      register clear. */
  lemma SpillLeavesOnlyVictimClear(g: Gen, order: seq<Value>, victim: Value, reg: Reg)
    requires forall j :: 0 <= j < TEMP_COUNT ==> g.rm.temp[j]
    requires FindRegToSpill(g.rm, order) == Some((victim, reg))
    ensures SpillAndGetReg(g, order).Some? && SpillAndGetReg(g, order).value.0 == reg && reg.T?
    ensures var g1 := SpillAndGetReg(g, order).value.1;
      !g1.rm.temp[reg.t] && forall j :: 0 <= j < TEMP_COUNT && j != reg.t ==> g1.rm.temp[j]
  {
    var g1 := SpillAndGetReg(g, order).value.1;
    forall j | 0 <= j < TEMP_COUNT && j != reg.t
      ensures g1.rm.temp[j]
    {
      assert InUse(g.rm, T(j));
    }
  }

  /** `after_value_use` (the source's decrement), skipped for operands
      that resolved to `x0`. */
  function ConsumeOperand(c: Counts, v: Value, reg: Reg): Counts {
    if reg != X0 then DecreaseUseCount(c, v) else c
  }

  /** Consuming two operands raises no count and adds no key. */
  lemma ConsumeTwiceIsNonIncreasing(c: Counts, a: Value, ra: Reg, b: Value, rb: Reg)
    ensures NonIncreasing(c, ConsumeOperand(ConsumeOperand(c, a, ra), b, rb))
  {
    DecreaseIsNonIncreasing(c, a);
    DecreaseIsNonIncreasing(ConsumeOperand(c, a, ra), b);
  }

  /** The tail of `handle_binary` after the template: store the result
      at once if its value owns a stack slot (freeing the destination's
      bit), then record the destination as the value's register. */
  function StoreResult(g: Gen, v: Value, dst: Reg): (g': Gen)
    ensures g'.rm.regOf == g.rm.regOf[v := dst]
    ensures g'.rm.slots == g.rm.slots && g'.rm.offset == g.rm.offset && g'.rm.useCount == g.rm.useCount
    ensures v in g.rm.slots ==> g'.out == g.out + [Emit(Sw(dst, g.rm.slots[v]))] && !InUse(g'.rm, dst)
    ensures v !in g.rm.slots ==> g'.out == g.out && g'.rm == g.rm.(regOf := g'.rm.regOf)
    ensures Inv(g.rm) && dst.T? ==> Inv(g'.rm)
  {
    var g1 :=
      if v in g.rm.slots then
        EmitCode(g, [Sw(dst, g.rm.slots[v])]).(rm := FreeRegister(g.rm, dst))
      else g;
    Bind(g1, v, dst)
  }

  /** `handle_binary`: emit the operator's template into the destination,
      store and record the result, then consume the operands. */
  function HandleBinary(f: FunctionData, iter: IterOrder, g: Gen, v: Value, op: BinaryOp, lhs: Value, rhs: Value): (r: Result<Gen, GenError>)
    ensures r.Success? ==> Lowerable(op) && PrepareBinaryOps(f, iter, g, lhs, rhs).Success?
    ensures r.Success? ==>
      var (dst, lhsReg, rhsReg, g1) := PrepareBinaryOps(f, iter, g, lhs, rhs).value;
      var g2 := EmitCode(g1, GenerateBinary(op, dst, lhsReg, rhsReg));
      var g' := r.value;
      && v in g'.rm.regOf && g'.rm.regOf[v] == dst
      && (v in g1.rm.slots ==> g'.out == g2.out + [Emit(Sw(dst, g1.rm.slots[v]))] && !InUse(g'.rm, dst))
      && (v !in g1.rm.slots ==> g'.out == g2.out)
      && g'.rm.useCount == ConsumeOperand(ConsumeOperand(g.rm.useCount, lhs, lhsReg), rhs, rhsReg)
    ensures r.Success? && Inv(g.rm) ==> Inv(r.value.rm) && r.value.rm.regOf[v].T?
    ensures r.Success? ==> EmitsOnly(g.out, r.value.out)
    ensures r.Success? ==> NonIncreasing(g.rm.useCount, r.value.rm.useCount)
  {
    var p :- PrepareBinaryOps(f, iter, g, lhs, rhs);
    var (dst, lhsReg, rhsReg, g1) := p;
    if !Lowerable(op) then Failure(UnsupportedBinaryOp(op))
    else
      var g2 := EmitCode(g1, GenerateBinary(op, dst, lhsReg, rhsReg));
      EmitsOnlyEmitted(g1.out, GenerateBinary(op, dst, lhsReg, rhsReg));
      EmitsOnlyTrans(g.out, g1.out, g2.out);
      var g3 := StoreResult(g2, v, dst);
      assert EmitsOnly(g2.out, g3.out);
      EmitsOnlyTrans(g.out, g2.out, g3.out);
      var counts := ConsumeOperand(ConsumeOperand(g.rm.useCount, lhs, lhsReg), rhs, rhsReg);
      ConsumeTwiceIsNonIncreasing(g.rm.useCount, lhs, lhsReg, rhs, rhsReg);
      Success(g3.(rm := g3.rm.(useCount := counts)))
  }

  /** `handle_store`: materialise the stored value, write it to the
      destination's slot (if it has one), then consume both operands. */
  function HandleStore(f: FunctionData, iter: IterOrder, g: Gen, stored: Value, dest: Value): (r: Result<Gen, GenError>)
    ensures r.Success? ==> GetOrGenerateValueReg(f, iter, g, stored).Success?
    ensures r.Success? ==>
      var (reg, g1) := GetOrGenerateValueReg(f, iter, g, stored).value;
      var g' := r.value;
      && g'.rm == g1.rm.(useCount := DecreaseUseCount(DecreaseUseCount(g.rm.useCount, stored), dest))
      && g'.out == g1.out + (if dest in g1.rm.slots then [Emit(Sw(reg, g1.rm.slots[dest]))] else [])
    ensures r.Success? && Inv(g.rm) ==> Inv(r.value.rm)
    ensures r.Success? ==> EmitsOnly(g.out, r.value.out)
    ensures r.Success? ==> NonIncreasing(g.rm.useCount, r.value.rm.useCount)
  {
    var p :- GetOrGenerateValueReg(f, iter, g, stored);
    var (reg, g1) := p;
    var g2 := if dest in g1.rm.slots then EmitCode(g1, [Sw(reg, g1.rm.slots[dest])]) else g1;
    assert EmitsOnly(g.out, g2.out) by {
      if dest in g1.rm.slots {
        EmitsOnlyEmitted(g1.out, [Sw(reg, g1.rm.slots[dest])]);
        EmitsOnlyTrans(g.out, g1.out, g2.out);
      }
    }
    var counts := DecreaseUseCount(DecreaseUseCount(g2.rm.useCount, stored), dest);
    InvIgnoresUseCounts(g2.rm, counts);
    Success(g2.(rm := g2.rm.(useCount := counts)))
  }

  /** The first half of `handle_return`: get the result into a0 (a
      direct load when it has a slot, a move unless it already is a0). */
  function ReturnValueToA0(f: FunctionData, iter: IterOrder, g: Gen, val: Option<Value>): (r: Result<Gen, GenError>)
    ensures r.Success? ==> Extends(g, r.value)
    ensures r.Success? && Inv(g.rm) ==> Inv(r.value.rm)
    ensures val.None? ==> r == Success(g)
    ensures val.Some? && val.value in g.rm.slots ==> r == Success(EmitCode(g, [Lw(RETURN_REG, g.rm.slots[val.value])]))
    ensures val.Some? && val.value !in g.rm.slots && r.Success? && Inv(g.rm) ==>
      && GetOrGenerateValueReg(f, iter, g, val.value).Success?
      && var (reg, g1) := GetOrGenerateValueReg(f, iter, g, val.value).value;
         r.value == EmitCode(g1, [Mv(RETURN_REG, reg)])
  {
    match val
    case None => Success(g)
    case Some(v) =>
      if v in g.rm.slots then
        EmitsOnlyEmitted(g.out, [Lw(RETURN_REG, g.rm.slots[v])]);
        Success(EmitCode(g, [Lw(RETURN_REG, g.rm.slots[v])]))
      else
        var p :- GetOrGenerateValueReg(f, iter, g, v);
        var (reg, g1) := p;
        EmitsOnlyEmitted(g1.out, [Mv(RETURN_REG, reg)]);
        Success(if reg != RETURN_REG then EmitCode(g1, [Mv(RETURN_REG, reg)]) else g1)
  }

  /** `handle_return`: the result into a0, then the epilogue and `ret`.
      Use counts are not touched. */
  function HandleReturn(f: FunctionData, iter: IterOrder, g: Gen, val: Option<Value>): (r: Result<Gen, GenError>)
    ensures r.Success? ==> ReturnValueToA0(f, iter, g, val).Success?
    ensures r.Success? ==>
      var g1 := ReturnValueToA0(f, iter, g, val).value;
      r.value == EmitCode(g1, GenerateEpilogue(g.rm) + [Ret])
    ensures r.Success? ==> Extends(g, r.value)
    ensures r.Success? && Inv(g.rm) ==> Inv(r.value.rm)
  {
    var g1 :- ReturnValueToA0(f, iter, g, val);
    EpilogueOfSavedBank(g.rm, g1.rm);
    EmitsOnlyEmitted(g1.out, GenerateEpilogue(g1.rm) + [Ret]);
    EmitsOnlyTrans(g.out, g1.out, g1.out + Emitted(GenerateEpilogue(g1.rm) + [Ret]));
    Success(EmitCode(g1, GenerateEpilogue(g1.rm) + [Ret]))
  }

  /** `generate_instruction`: dispatch on the instruction's kind; kinds
      other than Return, Binary and Store emit nothing and change nothing. */
  function GenerateInstruction(f: FunctionData, iter: IterOrder, g: Gen, v: Value): (r: Result<Gen, GenError>)
    ensures v !in f.dfg ==> r == Failure(UnknownValue(v))
    ensures v in f.dfg && !(f.dfg[v].Return? || f.dfg[v].Binary? || f.dfg[v].Store?) ==> r == Success(g)
    ensures r.Success? && Inv(g.rm) ==> Inv(r.value.rm)
    ensures r.Success? ==> EmitsOnly(g.out, r.value.out)
    ensures r.Success? ==> NonIncreasing(g.rm.useCount, r.value.rm.useCount)
  {
    if v !in f.dfg then Failure(UnknownValue(v))
    else
      match f.dfg[v]
      case Return(val) => HandleReturn(f, iter, g, val)
      case Binary(op, lhs, rhs) => HandleBinary(f, iter, g, v, op, lhs, rhs)
      case Store(stored, dest) => HandleStore(f, iter, g, stored, dest)
      case _ => Success(g)
  }

  /** The instructions of a function lowered one after another, stopping
      at the first failure. */
  function GenerateInstructions(f: FunctionData, iter: IterOrder, g: Gen, insts: seq<Value>): (r: Result<Gen, GenError>)
    ensures r.Success? && Inv(g.rm) ==> Inv(r.value.rm)
    ensures r.Success? ==> EmitsOnly(g.out, r.value.out)
    ensures r.Success? ==> NonIncreasing(g.rm.useCount, r.value.rm.useCount)
    decreases |insts|
  {
    if |insts| == 0 then Success(g)
    else
      var g1 :- GenerateInstruction(f, iter, g, insts[0]);
      GenerateInstructions(f, iter, g1, insts[1..])
  }

  // ---------------------------------------------------------------------
  // Frame layout

  /** The Alloc instructions among `insts`, in order. */
  function AllocsIn(f: FunctionData, insts: seq<Value>): (allocs: seq<Value>)
    ensures forall v :: v in allocs <==> v in insts && v in f.dfg && f.dfg[v].Alloc?
    ensures |allocs| <= |insts|
  {
    if |insts| == 0 then []
    else
      var last := insts[|insts| - 1];
      AllocsIn(f, insts[..|insts| - 1]) + (if last in f.dfg && f.dfg[last].Alloc? then [last] else [])
  }

  /** The frame for n word-sized Alloc slots, rounded up to 16 bytes. */
  function FrameSize(n: nat): int {
    (4 * n + 15) / 16 * 16
  }

  /** The frame is the least multiple of 16 that covers every slot. */
  lemma FrameSizeIsLeastAlignedCover(n: nat)
    ensures FrameSize(n) % 16 == 0 && 4 * n <= FrameSize(n) < 4 * n + 16
    ensures forall k: int :: k % 16 == 0 && k >= 4 * n ==> k >= FrameSize(n)
  {
    var q := (4 * n + 15) / 16;
    assert 16 * q <= 4 * n + 15 < 16 * q + 16;
    forall k: int | k % 16 == 0 && k >= 4 * n
      ensures k >= FrameSize(n)
    {
      var j := k / 16;
      assert k == 16 * j;
      assert 16 * j > 16 * q - 16;
    }
  }

  /** One more instruction of the layout adds it to the Allocs exactly
      when it is one, and, the instructions being distinct, it is new. */
  lemma AllocsInStep(f: FunctionData, insts: seq<Value>, i: nat)
    requires i < |insts|
    requires forall j :: 0 <= j < i ==> insts[j] != insts[i]
    ensures AllocsIn(f, insts[..i + 1]) ==
      AllocsIn(f, insts[..i]) + (if insts[i] in f.dfg && f.dfg[insts[i]].Alloc? then [insts[i]] else [])
    ensures insts[i] !in AllocsIn(f, insts[..i])
  {
    assert insts[..i + 1][..i] == insts[..i];
  }

  /** The slot assignment loop of `init_function`: slot 4k for the k-th
      Alloc, and the total size of the slots. */
  method LayoutAllocs(f: FunctionData, insts: seq<Value>) returns (slots: map<Value, int>, size: int)
    requires forall i :: 0 <= i < |insts| ==> insts[i] in f.dfg
    requires forall i, j :: 0 <= i < j < |insts| ==> insts[i] != insts[j]
    ensures var allocs := AllocsIn(f, insts);
      && size == 4 * |allocs|
      && (forall v :: v in slots <==> v in allocs)
      && (forall k :: 0 <= k < |allocs| ==> slots[allocs[k]] == 4 * k)
  {
    slots := map[];
    size := 0;
    var i := 0;
    ghost var allocs: seq<Value> := [];
    while i < |insts|
      invariant 0 <= i <= |insts|
      invariant allocs == AllocsIn(f, insts[..i])
      invariant size == 4 * |allocs|
      invariant forall v :: v in slots <==> v in allocs
      invariant forall k :: 0 <= k < |allocs| ==> slots[allocs[k]] == 4 * k
    {
      var v := insts[i];
      AllocsInStep(f, insts, i);
      if f.dfg[v].Alloc? {
        ExtendLayout(slots, allocs, v);
        slots := slots[v := size];
        size := size + 4;
        allocs := allocs + [v];
      }
      i := i + 1;
    }
    assert insts[..i] == insts;
  }

  /** Giving a new Alloc the next slot keeps slot 4k for the k-th. */
  lemma ExtendLayout(slots: map<Value, int>, allocs: seq<Value>, v: Value)
    requires forall w :: w in slots <==> w in allocs
    requires forall k :: 0 <= k < |allocs| ==> slots[allocs[k]] == 4 * k
    requires v !in allocs
    ensures var slots', allocs' := slots[v := 4 * |allocs|], allocs + [v];
      && (forall w :: w in slots' <==> w in allocs')
      && (forall k :: 0 <= k < |allocs'| ==> slots'[allocs'[k]] == 4 * k)
  {
  }

  /** Slots 4k for distinct k are distinct and lie below any frame that
      covers them all. */
  lemma LayoutIsSound(m: Manager, allocs: seq<Value>)
    requires forall v :: v in m.slots <==> v in allocs
    requires forall k :: 0 <= k < |allocs| ==> m.slots[allocs[k]] == 4 * k
    requires m.offset >= 4 * |allocs|
    ensures SlotsBelowOffset(m)
  {
    forall v, w | v in m.slots && w in m.slots && v != w
      ensures m.slots[v] != m.slots[w]
    {
      var kv :| 0 <= kv < |allocs| && allocs[kv] == v;
      var kw :| 0 <= kw < |allocs| && allocs[kw] == w;
    }
    forall v | v in m.slots
      ensures m.slots[v] < m.offset
    {
      var kv :| 0 <= kv < |allocs| && allocs[kv] == v;
    }
  }

  /** `init_function`: lay out the Alloc slots, set the spill offset to the
      16-byte-aligned frame size, clear the three banks, and emit the
      prologue (which, with the saved bank just cleared, is empty).
      Register mappings and use counts are kept. */
  method InitFunction(f: FunctionData, g: Gen) returns (g': Gen)
    requires WellFormed(f)
    ensures var allocs := AllocsIn(f, Instructions(f));
      && (forall v :: v in g'.rm.slots <==> v in allocs)
      && (forall k :: 0 <= k < |allocs| ==> g'.rm.slots[allocs[k]] == 4 * k)
      && g'.rm.offset == FrameSize(|allocs|)
    ensures forall r :: !InUse(g'.rm, r)
    ensures g'.out == g.out
    ensures g'.rm.regOf == g.rm.regOf && g'.rm.useCount == g.rm.useCount
    ensures SlotsBelowOffset(g'.rm)
  {
    var insts := Instructions(f);
    var slots, size := LayoutAllocs(f, insts);
    var rm := g.rm.(slots := slots, offset := (size + 15) / 16 * 16);
    rm := rm.(temp := AllFree(TEMP_COUNT), saved := AllFree(SAVED_COUNT), arg := AllFree(ARG_COUNT));
    var prologue := GeneratePrologue(rm);
    assert prologue == [];
    g' := Gen(rm, g.out + Emitted(prologue));
    FrameSizeIsLeastAlignedCover(|AllocsIn(f, insts)|);
    LayoutIsSound(rm, AllocsIn(f, insts));
  }

  // ---------------------------------------------------------------------
  // Spill and reload

  /** Whether an instruction may change the word at sp+off or sp itself.
      Memory is byte-addressed on RV32, so any `sw` whose four bytes
      overlap the slot's four bytes counts, not only one at `off`. */
  predicate Disturbs(i: Instr, off: int) {
    (i.Sw? && off - 4 < i.offset < off + 4) || i.AdjustSp?
  }

  lemma {:induction false} UndisturbedSlot(m: Machine, code: seq<Instr>, off: int)
    requires forall k :: 0 <= k < |code| ==> !Disturbs(code[k], off)
    ensures Exec(m, code).sp == m.sp
    ensures Asm.Load(Exec(m, code), m.sp + off) == Asm.Load(m, m.sp + off)
    decreases |code|
  {
    if |code| > 0 {
      UndisturbedSlot(Step(m, code[0]), code[1..], off);
    }
  }

  /** A spilled value survives until its reload: after `sw r, off(sp)`,
      any code that neither stores over any byte of that slot nor moves
      sp, and `lw r', off(sp)`, the register r' holds what r held. */
  lemma SpillThenReload(m: Machine, r: Reg, between: seq<Instr>, r': Reg, off: int)
    requires r' != X0
    requires forall k :: 0 <= k < |between| ==> !Disturbs(between[k], off)
    ensures Read(Exec(m, [Sw(r, off)] + between + [Lw(r', off)]), r') == Read(m, r)
  {
    UndisturbedSlot(Step(m, Sw(r, off)), between, off);
    SpillKeptUntilReload(m, r, between, r', off);
  }

  /** The spill-and-reload chain once the slot is known to survive
      `between`. */
  lemma SpillKeptUntilReload(m: Machine, r: Reg, between: seq<Instr>, r': Reg, off: int)
    requires r' != X0
    requires var m1 := Step(m, Sw(r, off));
      Exec(m1, between).sp == m1.sp && Asm.Load(Exec(m1, between), m1.sp + off) == Asm.Load(m1, m1.sp + off)
    ensures Read(Exec(m, [Sw(r, off)] + between + [Lw(r', off)]), r') == Read(m, r)
  {
    var m1 := Step(m, Sw(r, off));
    var mb := Exec(m1, between);
    SpillStep(m, r, off);
    ReloadStep(mb, r', off);
    assert Asm.Load(mb, mb.sp + off) == Read(m, r);
    ExecAround(m, Sw(r, off), between, Lw(r', off));
  }

  /** `sw r, off(sp)` puts r's word in the slot and keeps sp. */
  lemma SpillStep(m: Machine, r: Reg, off: int)
    ensures Step(m, Sw(r, off)).sp == m.sp
    ensures Asm.Load(Step(m, Sw(r, off)), m.sp + off) == Read(m, r)
  {
    assert Step(m, Sw(r, off)) == Asm.Store(m, m.sp + off, Read(m, r));
  }

  /** `lw r', off(sp)` gives r' the slot's word. */
  lemma ReloadStep(m: Machine, r': Reg, off: int)
    requires r' != X0
    ensures Read(Step(m, Lw(r', off)), r') == Asm.Load(m, m.sp + off)
  {
    assert Step(m, Lw(r', off)) == Write(m, r', Asm.Load(m, m.sp + off));
  }

  /** Running one instruction, a block, and one more instruction. */
  lemma ExecAround(m: Machine, first: Instr, between: seq<Instr>, last: Instr)
    ensures Exec(m, [first] + between + [last]) == Step(Exec(Step(m, first), between), last)
  {
    ExecAppend(m, [first] + between, [last]);
    ExecAppend(m, [first], between);
    ExecTwo(m, first, Ret);
    ExecTwo(Exec(Step(m, first), between), last, Ret);
  }

  /** With use counts 1, 3 and 5 on three temporaries, every iteration
      order spills the value with 5 remaining uses. */
  lemma SpillPicksMostUsed(m: Manager, order: seq<Value>)
    requires m.regOf == map[Value(1) := T(0), Value(2) := T(1), Value(3) := T(2)]
    requires m.useCount == map[Value(1) := 1, Value(2) := 3, Value(3) := 5]
    requires forall v :: v in m.regOf ==> v in order
    ensures FindRegToSpill(m, order) == Some((Value(3), T(2)))
  {
    VictimIsGloballyMaximal(m, order);
    assert Candidate(m, Value(3));
    var r := FindRegToSpill(m, order);
    assert GetUseCount(m.useCount, r.value.0) >= 5;
  }

  // ---------------------------------------------------------------------
  // Function and program driver

  /** `generate_function`: count uses afresh, emit `.global f` and `f:`
      for the name without its leading '@', then lower every instruction
      in block order.  (The source does not call `init_function` here.) */
  function GenerateFunction(f: FunctionData, iter: IterOrder, g: Gen): (r: Result<Gen, GenError>)
    ensures (|f.name| == 0 || f.name[0] != '@') ==> r == Failure(NameWithoutAt(f.name))
    ensures r.Success? ==>
      var g' := r.value;
      && |f.name| >= 1 && "@" + f.name[1..] == f.name
      && g.out + [Global(f.name[1..]), Label(f.name[1..])] <= g'.out
      && forall k :: |g.out| + 2 <= k < |g'.out| ==> g'.out[k].Emit?
    ensures r.Success? && Inv(g.rm) ==> Inv(r.value.rm)
    ensures r.Success? ==> NonIncreasing(CountValueUses(f), r.value.rm.useCount)
  {
    if |f.name| == 0 || f.name[0] != '@' then Failure(NameWithoutAt(f.name))
    else
      var name := f.name[1..];
      assert "@" + name == f.name;
      var g1 := Gen(g.rm.(useCount := CountValueUses(f)), g.out + [Global(name), Label(name)]);
      assert Inv(g.rm) ==> Inv(g1.rm);
      var r := GenerateInstructions(f, iter, g1, Instructions(f));
      assert r.Success? ==> EmitsOnly(g1.out, r.value.out);
      r
  }

  function GenerateFunctions(funcs: seq<FunctionData>, iter: IterOrder, g: Gen): (r: Result<Gen, GenError>)
    ensures r.Success? ==> g.out <= r.value.out
    decreases |funcs|
  {
    if |funcs| == 0 then Success(g)
    else
      var g1 :- GenerateFunction(funcs[0], iter, g);
      GenerateFunctions(funcs[1..], iter, g1)
  }

  /** `generate_program`: clear the output, emit `.text`, then every
      function in layout order.  The register manager carries over from
      the generator it runs in. */
  function GenerateProgramLines(p: Program, iter: IterOrder, rm: Manager): (r: Result<seq<Line>, GenError>)
    ensures r.Success? ==> |r.value| >= 1 && r.value[0] == TextSection
  {
    var g :- GenerateFunctions(p.funcs, iter, Gen(rm, [TextSection]));
    Success(g.out)
  }

  function GenerateProgram(p: Program, iter: IterOrder, rm: Manager): (r: Result<string, GenError>)
    ensures r.Success? ==> |r.value| >= 6 && r.value[..6] == ".text\n"
  {
    var lines :- GenerateProgramLines(p, iter, rm);
    assert lines == [lines[0]] + lines[1..];
    Success(Render(lines))
  }

  /** The symbols of the `.global` lines, in order. */
  function Globals(lines: seq<Line>): seq<string> {
    if |lines| == 0 then []
    else (if lines[0].Global? then [lines[0].symbol] else []) + Globals(lines[1..])
  }

  lemma {:induction false} GlobalsAppend(a: seq<Line>, b: seq<Line>)
    ensures Globals(a + b) == Globals(a) + Globals(b)
  {
    if |a| == 0 {
      assert a + b == b;
    } else {
      assert (a + b)[1..] == a[1..] + b;
      GlobalsAppend(a[1..], b);
    }
  }

  lemma {:induction false} GlobalsOfEmits(lines: seq<Line>)
    requires forall k :: 0 <= k < |lines| ==> lines[k].Emit?
    ensures Globals(lines) == []
  {
    if |lines| > 0 {
      GlobalsOfEmits(lines[1..]);
    }
  }

  function StrippedNames(funcs: seq<FunctionData>): seq<string> {
    if |funcs| == 0 then []
    else (if |funcs[0].name| >= 1 then [funcs[0].name[1..]] else []) + StrippedNames(funcs[1..])
  }

  lemma {:induction false} FunctionsDeclareNamesInOrder(funcs: seq<FunctionData>, iter: IterOrder, g: Gen)
    requires GenerateFunctions(funcs, iter, g).Success?
    ensures var g' := GenerateFunctions(funcs, iter, g).value;
      Globals(g'.out) == Globals(g.out) + StrippedNames(funcs)
    decreases |funcs|
  {
    if |funcs| > 0 {
      var g1 := FirstFunctionGlobals(funcs, iter, g);
      FunctionsDeclareNamesInOrder(funcs[1..], iter, g1);
      var done := GenerateFunctions(funcs[1..], iter, g1).value;
      SplitAfterFirst(Globals(g.out), funcs[0].name[1..], StrippedNames(funcs[1..]), Globals(g1.out), Globals(done.out));
    } else {
      assert StrippedNames(funcs) == [];
    }
  }

  lemma SplitAfterFirst(before: seq<string>, name: string, later: seq<string>, mid: seq<string>, after: seq<string>)
    requires mid == before + [name] && after == mid + later
    ensures after == before + ([name] + later)
  {
  }

  /** Lowering the first function adds exactly its name to the globals;
      the rest are lowered after it. */
  lemma FirstFunctionGlobals(funcs: seq<FunctionData>, iter: IterOrder, g: Gen) returns (g1: Gen)
    requires |funcs| > 0 && GenerateFunctions(funcs, iter, g).Success?
    ensures GenerateFunctions(funcs, iter, g) == GenerateFunctions(funcs[1..], iter, g1)
    ensures StrippedNames(funcs) == [funcs[0].name[1..]] + StrippedNames(funcs[1..])
    ensures Globals(g1.out) == Globals(g.out) + [funcs[0].name[1..]]
  {
    g1 := GenerateFunction(funcs[0], iter, g).value;
    FunctionHeaderGlobals(g, g1, funcs[0].name[1..]);
  }

  lemma FunctionHeaderGlobals(g: Gen, g1: Gen, name: string)
    requires g.out + [Global(name), Label(name)] <= g1.out
    requires forall k :: |g.out| + 2 <= k < |g1.out| ==> g1.out[k].Emit?
    ensures Globals(g1.out) == Globals(g.out) + [name]
  {
    var header := [Global(name), Label(name)];
    var head := g.out + header;
    var rest := g1.out[|head|..];
    assert g1.out == head + rest;
    GlobalsOfEmits(rest);
    GlobalsAppend(head, rest);
    GlobalsAppend(g.out, header);
    assert Globals(header) == [name] by {
      assert header[1..] == [Label(name)];
      assert [Label(name)][1..] == [];
      assert Globals([Label(name)]) == [];
    }
  }

  /** The program's `.global` directives name its functions, in layout
      order, each without its leading '@'. */
  lemma ProgramDeclaresEveryFunction(p: Program, iter: IterOrder, rm: Manager)
    requires GenerateProgramLines(p, iter, rm).Success?
    ensures Globals(GenerateProgramLines(p, iter, rm).value) == StrippedNames(p.funcs)
  {
    var start := Gen(rm, [TextSection]);
    LinesAreFunctionsOutput(p, iter, rm);
    FunctionsDeclareNamesInOrder(p.funcs, iter, start);
    assert Globals([TextSection]) == [] by {
      assert [TextSection][1..] == [];
    }
    assert [] + StrippedNames(p.funcs) == StrippedNames(p.funcs);
  }

  lemma LinesAreFunctionsOutput(p: Program, iter: IterOrder, rm: Manager)
    requires GenerateProgramLines(p, iter, rm).Success?
    ensures GenerateFunctions(p.funcs, iter, Gen(rm, [TextSection])).Success?
    ensures GenerateProgramLines(p, iter, rm).value == GenerateFunctions(p.funcs, iter, Gen(rm, [TextSection])).value.out
  {
  }
}
