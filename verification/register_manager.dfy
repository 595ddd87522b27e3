/** Register file and frame bookkeeping
    (src/asm_generator/register_manager.rs).

    Three fixed boolean banks record which t, s and a registers are in
    use; three maps record, per IR value, its register, its remaining use
    count and its stack slot; `offset` is the bump pointer for new spill
    slots. */
module RegisterManager {
  import opened Wrappers
  import opened Words
  import opened Registers
  import opened Asm
  import Ir

  type TempBank = b: seq<bool> | |b| == TEMP_COUNT witness [false, false, false, false, false, false, false]
  type SavedBank = b: seq<bool> | |b| == SAVED_COUNT
    witness [false, false, false, false, false, false, false, false, false, false, false, false]
  type ArgBank = b: seq<bool> | |b| == ARG_COUNT witness [false, false, false, false, false, false, false, false]

  datatype Manager = Manager(
    temp: TempBank,
    saved: SavedBank,
    arg: ArgBank,
    regOf: map<Ir.Value, Reg>,
    useCount: map<Ir.Value, nat>,
    slots: map<Ir.Value, int>,
    offset: int)

  function AllFree(n: nat): (b: seq<bool>)
    ensures |b| == n && forall i :: 0 <= i < n ==> !b[i]
  {
    seq(n, _ => false)
  }

  /** `RiscvRegisterManager::new`: every bank free, every map empty. */
  const Fresh: Manager := Manager(AllFree(TEMP_COUNT), AllFree(SAVED_COUNT), AllFree(ARG_COUNT), map[], map[], map[], 0)

  /** Whether the bank bit of a register is set; `x0` has no bit. */
  function InUse(m: Manager, r: Reg): bool {
    match r
    case T(i) => m.temp[i]
    case S(i) => m.saved[i]
    case A(i) => m.arg[i]
    case X0 => false
  }

  /** `m'` differs from `m` at most in the bank bits, and only in the bit
      of `r`. */
  ghost predicate OnlyBitChanged(m: Manager, m': Manager, r: Reg) {
    && m'.regOf == m.regOf && m'.useCount == m.useCount
    && m'.slots == m.slots && m'.offset == m.offset
    && forall q :: q != r ==> InUse(m', q) == InUse(m, q)
  }

  // ---------------------------------------------------------------------
  // First-fit allocation

  /** Index of the first clear bit at or after `from`. */
  function FirstClear(b: seq<bool>, from: nat): (r: Option<nat>)
    requires from <= |b|
    ensures r.Some? ==> from <= r.value < |b| && !b[r.value] && forall j :: from <= j < r.value ==> b[j]
    ensures r.None? ==> forall j :: from <= j < |b| ==> b[j]
    decreases |b| - from
  {
    if from == |b| then None
    else if !b[from] then Some(from)
    else FirstClear(b, from + 1)
  }

  /** `i` is the lowest clear bit of `b`. */
  predicate LowestClear(b: seq<bool>, i: nat) {
    i < |b| && !b[i] && forall j :: 0 <= j < i ==> b[j]
  }

  /** `allocate_tmp`: claim the lowest free temporary. */
  function AllocateTmp(m: Manager): (r: (Option<Reg>, Manager))
    ensures r.0.None? <==> forall j :: 0 <= j < TEMP_COUNT ==> m.temp[j]
    ensures r.0.None? ==> r.1 == m
    ensures r.0.Some? ==> r.0.value.T? && LowestClear(m.temp, r.0.value.t)
    ensures r.0.Some? ==> InUse(r.1, r.0.value) && OnlyBitChanged(m, r.1, r.0.value)
  {
    match FirstClear(m.temp, 0)
    case None => (None, m)
    case Some(i) => (Some(T(i)), m.(temp := m.temp[i := true]))
  }

  /** `allocate_saved`: claim the lowest free saved register. */
  function AllocateSaved(m: Manager): (r: (Option<Reg>, Manager))
    ensures r.0.None? <==> forall j :: 0 <= j < SAVED_COUNT ==> m.saved[j]
    ensures r.0.None? ==> r.1 == m
    ensures r.0.Some? ==> r.0.value.S? && LowestClear(m.saved, r.0.value.s)
    ensures r.0.Some? ==> InUse(r.1, r.0.value) && OnlyBitChanged(m, r.1, r.0.value)
  {
    match FirstClear(m.saved, 0)
    case None => (None, m)
    case Some(i) => (Some(S(i)), m.(saved := m.saved[i := true]))
  }

  // ---------------------------------------------------------------------
  // Freeing and marking by register

  /** `free_register` on a well-formed name: clear that register's bit;
      `x0` has none, so freeing it changes nothing. */
  function FreeRegister(m: Manager, r: Reg): (m': Manager)
    ensures !InUse(m', r)
    ensures OnlyBitChanged(m, m', r)
    ensures r == X0 ==> m' == m
  {
    match r
    case T(i) => m.(temp := m.temp[i := false])
    case S(i) => m.(saved := m.saved[i := false])
    case A(i) => m.(arg := m.arg[i := false])
    case X0 => m
  }

  /** `mark_register_live`: set that register's bit. */
  function MarkRegisterLive(m: Manager, r: Reg): (m': Manager)
    ensures InUse(m', r) <==> r != X0
    ensures OnlyBitChanged(m, m', r)
    ensures r == X0 ==> m' == m
  {
    match r
    case T(i) => m.(temp := m.temp[i := true])
    case S(i) => m.(saved := m.saved[i := true])
    case A(i) => m.(arg := m.arg[i := true])
    case X0 => m
  }

  /** The source's name-driven bit update shared by `free_register`
      (`value == false`) and `mark_register_live` (`value == true`): the
      first character picks the bank and the rest is parsed as an index.
      `None` where the source panics: an empty name, a first character
      the byte slice `reg[1..]` would cut, an index `usize` cannot parse
      or hold, or an index past the end of the bank.  Any other letter is
      a no-op. */
  function SetBitByName(m: Manager, name: string, value: bool): (r: Option<Manager>)
    ensures r.Some? ==> r.value.regOf == m.regOf && r.value.slots == m.slots && r.value.useCount == m.useCount
  {
    match SplitName(name)
    case None => None
    case Some((c, n)) =>
      if c == 't' then (if n < TEMP_COUNT then Some(m.(temp := m.temp[n := value])) else None)
      else if c == 's' then (if n < SAVED_COUNT then Some(m.(saved := m.saved[n := value])) else None)
      else if c == 'a' then (if n < ARG_COUNT then Some(m.(arg := m.arg[n := value])) else None)
      else Some(m)
  }

  /** `free_register(name)` as written, on text. */
  function FreeRegisterByName(m: Manager, name: string): Option<Manager> {
    SetBitByName(m, name, false)
  }

  /** `mark_register_live(name)` as written, on text. */
  function MarkRegisterLiveByName(m: Manager, name: string): Option<Manager> {
    SetBitByName(m, name, true)
  }

  /** The typed operations agree with the source's name parsing on every
      register name the back end produces. */
  lemma ByNameAgreesWithTyped(m: Manager, r: Reg)
    ensures FreeRegisterByName(m, RegName(r)) == Some(FreeRegister(m, r))
    ensures MarkRegisterLiveByName(m, RegName(r)) == Some(MarkRegisterLive(m, r))
  {
    SplitRegName(r);
  }

  /** Names whose one-byte letter is not t, s or a (such as "x0") leave
      the banks alone, whatever `usize` their index reads as. */
  lemma OtherLetterIsNoOp(m: Manager, name: string, value: bool)
    requires |name| >= 2 && name[0] !in {'t', 's', 'a'} && (name[0] as int) < 0x80
    requires ParseUsize(name[1..]).Some?
    ensures SetBitByName(m, name, value) == Some(m)
  {
  }

  /** An index too large for `usize` makes the update fail whatever the
      letter, as `parse().unwrap()` panics on it. */
  lemma OversizeIndexFails(m: Manager, letter: char, n: nat, value: bool)
    requires n >= USIZE_LIMIT
    ensures SetBitByName(m, [letter] + NatToString(n), value) == None
  {
    var name := [letter] + NatToString(n);
    assert name[1..] == NatToString(n);
    UsizeOverflowRejected(n);
  }

  /** Allocating a temporary and freeing the register it returned gives
      back the original state. */
  lemma AllocateThenFree(m: Manager)
    requires AllocateTmp(m).0.Some?
    ensures FreeRegister(AllocateTmp(m).1, AllocateTmp(m).0.value) == m
  {
    var (r, m1) := AllocateTmp(m);
    assert m1.temp[r.value.t := false] == m.temp;
  }

  /** Marking a register live twice is marking it once. */
  lemma MarkIdempotent(m: Manager, r: Reg)
    ensures MarkRegisterLive(MarkRegisterLive(m, r), r) == MarkRegisterLive(m, r)
  {
  }

  // ---------------------------------------------------------------------
  // Stack slots and calling convention

  /** `spill_to_stack`: the current bump offset becomes the value's slot,
      and the bump pointer moves one 32-bit word on. */
  function SpillToStack(m: Manager, v: Ir.Value): (r: (int, Manager))
    ensures r.0 == m.offset && r.1.offset == m.offset + 4
    ensures r.1.slots == m.slots[v := r.0]
    ensures r.1 == m.(slots := r.1.slots, offset := r.1.offset)
  {
    (m.offset, m.(slots := m.slots[v := m.offset], offset := m.offset + 4))
  }

  /** Two spills in a row get offsets exactly one word apart, so never the
      same slot. */
  lemma SuccessiveSpillsAreDistinct(m: Manager, v: Ir.Value, w: Ir.Value)
    ensures var (o1, m1) := SpillToStack(m, v);
      var (o2, m2) := SpillToStack(m1, w);
      o2 == o1 + 4 && m2.offset == o2 + 4
  {
  }

  /** All slots lie below the bump pointer, at distinct offsets. */
  ghost predicate SlotsBelowOffset(m: Manager) {
    && (forall v :: v in m.slots ==> m.slots[v] < m.offset)
    && (forall v, w :: v in m.slots && w in m.slots && v != w ==> m.slots[v] != m.slots[w])
  }

  /** A spill keeps slots distinct: the new slot is above every existing
      one, and re-spilling a value replaces its old slot. */
  lemma SpillKeepsSlotsDistinct(m: Manager, v: Ir.Value)
    requires SlotsBelowOffset(m)
    ensures SlotsBelowOffset(SpillToStack(m, v).1)
  {
  }

  /** `get_calling_convention_reg`. */
  function CallingConventionReg(index: nat): (r: Option<Reg>)
    ensures r.Some? <==> index < ARG_COUNT
    ensures r.Some? ==> r.value.A? && RegName(r.value) == "a" + NatToString(index)
  {
    if index < ARG_COUNT then Some(A(index)) else None
  }

  function Min(a: nat, b: nat): nat {
    if a < b then a else b
  }

  /** `reserve_for_call`: mark a0 .. a(min(n, 8) - 1) in use, that is,
      the calling-convention register of each of the first n arguments
      that has one, and nothing else. */
  method ReserveForCall(m: Manager, argCount: nat) returns (m': Manager)
    ensures forall i :: 0 <= i < ARG_COUNT ==> m'.arg[i] == (i < argCount || m.arg[i])
    ensures m' == m.(arg := m'.arg)
    ensures forall i: nat :: i < argCount && CallingConventionReg(i).Some? ==> InUse(m', CallingConventionReg(i).value)
    ensures forall r: Reg :: InUse(m', r) && !InUse(m, r) ==> r.A? && r.a < argCount && CallingConventionReg(r.a) == Some(r)
  {
    var arg := m.arg;
    var i := 0;
    var limit := Min(argCount, ARG_COUNT);
    while i < limit
      invariant 0 <= i <= limit
      invariant |arg| == ARG_COUNT
      invariant forall j :: 0 <= j < ARG_COUNT ==> arg[j] == (j < i || m.arg[j])
    {
      arg := arg[i := true];
      i := i + 1;
    }
    m' := m.(arg := arg);
  }

  // ---------------------------------------------------------------------
  // Prologue and epilogue

  /** Indices of the set bits of `b` from `from` on, in ascending order. */
  function SetIndices(b: seq<bool>, from: nat): (r: seq<nat>)
    requires from <= |b|
    ensures forall k :: 0 <= k < |r| ==> from <= r[k] < |b| && b[r[k]]
    ensures forall i :: from <= i < |b| && b[i] ==> i in r
    ensures forall j, k :: 0 <= j < k < |r| ==> r[j] < r[k]
    decreases |b| - from
  {
    if from == |b| then []
    else if b[from] then [from] + SetIndices(b, from + 1)
    else SetIndices(b, from + 1)
  }

  /** The saved registers in use, in ascending register order. */
  function SavedInUse(m: Manager): (regs: seq<SIdx>)
    ensures forall i: SIdx :: m.saved[i] <==> i in regs
    ensures forall j, k :: 0 <= j < k < |regs| ==> regs[j] < regs[k]
  {
    var idx := SetIndices(m.saved, 0);
    assert forall k :: 0 <= k < |idx| ==> idx[k] < SAVED_COUNT;
    idx
  }

  function SaveStores(regs: seq<SIdx>, n: nat): (code: seq<Instr>)
    requires n <= |regs|
    ensures |code| == n
    ensures forall j :: 0 <= j < n ==> code[j] == Sw(S(regs[j]), 4 * j)
  {
    seq(n, j requires 0 <= j < n => Sw(S(regs[j]), 4 * j))
  }

  function RestoreLoads(regs: seq<SIdx>, n: nat): (code: seq<Instr>)
    requires n <= |regs|
    ensures |code| == n
    ensures forall j :: 0 <= j < n ==> code[j] == Lw(S(regs[j]), 4 * j)
  {
    seq(n, j requires 0 <= j < n => Lw(S(regs[j]), 4 * j))
  }

  /** `generate_prologue`: with k saved registers in use, lower sp by 4k
      and store each at 4j(sp), in ascending register order. */
  function GeneratePrologue(m: Manager): (code: seq<Instr>)
    ensures code == [] <==> forall i: SIdx :: !m.saved[i]
    ensures code != [] ==> code == [AdjustSp(-(4 * |SavedInUse(m)|))] + SaveStores(SavedInUse(m), |SavedInUse(m)|)
  {
    var regs := SavedInUse(m);
    var k := |regs|;
    if k == 0 then [] else assert m.saved[regs[0]]; [AdjustSp(-(4 * k))] + SaveStores(regs, k)
  }

  /** `generate_epilogue`: reload the same registers from the same
      offsets, then raise sp by 4k. */
  function GenerateEpilogue(m: Manager): (code: seq<Instr>)
    ensures code == [] <==> forall i: SIdx :: !m.saved[i]
    ensures code != [] ==> code == RestoreLoads(SavedInUse(m), |SavedInUse(m)|) + [AdjustSp(4 * |SavedInUse(m)|)]
  {
    var regs := SavedInUse(m);
    var k := |regs|;
    if k == 0 then [] else assert m.saved[regs[0]]; RestoreLoads(regs, k) + [AdjustSp(4 * k)]
  }

  /** Sum of the stack-pointer adjustments in a code sequence. */
  function SpDelta(code: seq<Instr>): int {
    if |code| == 0 then 0
    else (if code[0].AdjustSp? then code[0].delta else 0) + SpDelta(code[1..])
  }

  lemma {:induction false} SpDeltaAppend(a: seq<Instr>, b: seq<Instr>)
    ensures SpDelta(a + b) == SpDelta(a) + SpDelta(b)
  {
    if |a| > 0 {
      assert (a + b)[1..] == a[1..] + b;
      SpDeltaAppend(a[1..], b);
    } else {
      assert a + b == b;
    }
  }

  lemma {:induction false} NoAdjustInMoves(code: seq<Instr>)
    requires forall j :: 0 <= j < |code| ==> code[j].Sw? || code[j].Lw?
    ensures SpDelta(code) == 0
  {
    if |code| > 0 {
      NoAdjustInMoves(code[1..]);
    }
  }

  /** The prologue's and epilogue's stack adjustments cancel, and each
      stores or loads one word per saved register. */
  lemma StackAdjustmentsCancel(m: Manager)
    ensures SpDelta(GeneratePrologue(m)) + SpDelta(GenerateEpilogue(m)) == 0
    ensures |GeneratePrologue(m)| == |GenerateEpilogue(m)|
  {
    var regs := SavedInUse(m);
    var k := |regs|;
    if k > 0 {
      var st, ld := SaveStores(regs, k), RestoreLoads(regs, k);
      NoAdjustInMoves(st);
      NoAdjustInMoves(ld);
      SpDeltaAppend([AdjustSp(-(4 * k))], st);
      SpDeltaAppend(ld, [AdjustSp(4 * k)]);
    }
  }

  lemma {:induction false} ExecStores(m: Machine, regs: seq<SIdx>, n: nat)
    requires n <= |regs|
    ensures var m' := Exec(m, SaveStores(regs, n));
      && m'.sp == m.sp && m'.regs == m.regs
      && forall j :: 0 <= j < n ==> Load(m', m.sp + 4 * j) == Read(m, S(regs[j]))
  {
    if n > 0 {
      assert SaveStores(regs, n) == SaveStores(regs, n - 1) + [Sw(S(regs[n - 1]), 4 * (n - 1))];
      ExecAppend(m, SaveStores(regs, n - 1), [Sw(S(regs[n - 1]), 4 * (n - 1))]);
      ExecStores(m, regs, n - 1);
      var m1 := Exec(m, SaveStores(regs, n - 1));
      ExecTwo(m1, Sw(S(regs[n - 1]), 4 * (n - 1)), Ret);
      assert Read(m1, S(regs[n - 1])) == Read(m, S(regs[n - 1]));
    }
  }

  lemma {:induction false} ExecLoads(m: Machine, regs: seq<SIdx>, n: nat)
    requires n <= |regs|
    requires forall j, k :: 0 <= j < k < |regs| ==> regs[j] < regs[k]
    ensures var m' := Exec(m, RestoreLoads(regs, n));
      && m'.sp == m.sp && m'.mem == m.mem
      && (forall j :: 0 <= j < n ==> Read(m', S(regs[j])) == Load(m, m.sp + 4 * j))
  {
    if n > 0 {
      ExecLoadsStep(m, regs, n);
      ExecLoads(m, regs, n - 1);
      forall j | 0 <= j < n - 1
        ensures S(regs[j]) != S(regs[n - 1])
      {
        assert regs[j] < regs[n - 1];
      }
    }
  }

  /** The loads change no register outside the listed ones. */
  lemma {:induction false} ExecLoadsFrame(m: Machine, regs: seq<SIdx>, n: nat)
    requires n <= |regs|
    ensures var m' := Exec(m, RestoreLoads(regs, n));
      m'.sp == m.sp && forall r: Reg :: !(r.S? && r.s in regs[..n]) ==> Read(m', r) == Read(m, r)
  {
    if n > 0 {
      ExecLoadsStep(m, regs, n);
      ExecLoadsFrame(m, regs, n - 1);
      assert regs[..n] == regs[..n - 1] + [regs[n - 1]];
    }
  }

  lemma ExecLoadsStep(m: Machine, regs: seq<SIdx>, n: nat)
    requires 0 < n <= |regs|
    ensures var m1 := Exec(m, RestoreLoads(regs, n - 1));
      Exec(m, RestoreLoads(regs, n)) == Write(m1, S(regs[n - 1]), Load(m1, m1.sp + 4 * (n - 1)))
  {
    var last := Lw(S(regs[n - 1]), 4 * (n - 1));
    assert RestoreLoads(regs, n) == RestoreLoads(regs, n - 1) + [last];
    ExecAppend(m, RestoreLoads(regs, n - 1), [last]);
    ExecTwo(Exec(m, RestoreLoads(regs, n - 1)), last, Ret);
  }

  /** Storing the listed registers and loading them back from the same
      offsets changes no register. */
  lemma StoresThenLoads(m: Machine, regs: seq<SIdx>)
    requires forall j, k :: 0 <= j < k < |regs| ==> regs[j] < regs[k]
    ensures var m' := Exec(m, SaveStores(regs, |regs|) + RestoreLoads(regs, |regs|));
      m'.sp == m.sp && forall r :: Read(m', r) == Read(m, r)
  {
    var k := |regs|;
    var st, ld := SaveStores(regs, k), RestoreLoads(regs, k);
    var m2 := Exec(m, st);
    var m3 := Exec(m2, ld);
    assert Exec(m, st + ld) == m3 by {
      ExecAppend(m, st, ld);
    }
    assert m2.sp == m.sp && m2.regs == m.regs
      && forall j :: 0 <= j < k ==> Load(m2, m.sp + 4 * j) == Read(m, S(regs[j])) by {
      ExecStores(m, regs, k);
    }
    assert m3.sp == m.sp && forall j :: 0 <= j < k ==> Read(m3, S(regs[j])) == Load(m2, m.sp + 4 * j) by {
      ExecLoads(m2, regs, k);
    }
    assert forall r: Reg :: !(r.S? && r.s in regs) ==> Read(m3, r) == Read(m2, r) by {
      ExecLoadsFrame(m2, regs, k);
      assert regs[..k] == regs;
    }
    forall r
      ensures Read(m3, r) == Read(m, r)
    {
      if r.S? && r.s in regs {
        var j :| 0 <= j < k && regs[j] == r.s;
        assert r == S(regs[j]);
      } else {
        assert Read(m2, r) == Read(m, r);
      }
    }
  }

  /** Lowering sp, storing and reloading the registers, and raising sp
      again changes no register and leaves sp where it was. */
  lemma FramedStoresThenLoads(mach: Machine, regs: seq<SIdx>)
    requires forall j, k :: 0 <= j < k < |regs| ==> regs[j] < regs[k]
    ensures var k := |regs|;
      var mach' := Exec(mach, [AdjustSp(-(4 * k))] + (SaveStores(regs, k) + RestoreLoads(regs, k)) + [AdjustSp(4 * k)]);
      mach'.sp == mach.sp && forall r :: Read(mach', r) == Read(mach, r)
  {
    var k := |regs|;
    var mid := SaveStores(regs, k) + RestoreLoads(regs, k);
    var down := [AdjustSp(-(4 * k))];
    var up := [AdjustSp(4 * k)];
    ExecAppend(mach, down + mid, up);
    ExecAppend(mach, down, mid);
    ExecTwo(mach, AdjustSp(-(4 * k)), Ret);
    var m1 := Exec(mach, down);
    StoresThenLoads(m1, regs);
    var m3 := Exec(m1, mid);
    ExecTwo(m3, AdjustSp(4 * k), Ret);
    var m4 := Exec(m3, up);
    assert m1.regs == mach.regs && m1.sp == mach.sp - 4 * k;
    assert m4.regs == m3.regs && m4.sp == m3.sp + 4 * k;
    forall r
      ensures Read(m4, r) == Read(mach, r)
    {
      assert Read(m4, r) == Read(m3, r) == Read(m1, r);
    }
  }

  /** Lowering sp by one word per register and storing the j-th register
      at 4j(sp), as the prologue does: no register changes, and the j-th
      word above the new sp holds the j-th register as it was. */
  lemma FramedStores(mach: Machine, regs: seq<SIdx>)
    ensures var k := |regs|;
      var mach' := Exec(mach, [AdjustSp(-(4 * k))] + SaveStores(regs, k));
      && mach'.sp == mach.sp - 4 * k && mach'.regs == mach.regs
      && forall j :: 0 <= j < k ==> Load(mach', mach'.sp + 4 * j) == Read(mach, S(regs[j]))
  {
    var k := |regs|;
    var down, st := [AdjustSp(-(4 * k))], SaveStores(regs, k);
    var m1 := mach.(sp := mach.sp - 4 * k);
    assert Exec(mach, down + st) == Exec(m1, st) by {
      ExecAppend(mach, down, st);
      ExecTwo(mach, AdjustSp(-(4 * k)), Ret);
    }
    ExecStores(m1, regs, k);
    assert forall r :: Read(m1, r) == Read(mach, r);
  }

  /** Reloading the j-th register from 4j(sp) and raising sp by one word
      per register, as the epilogue does: each listed register gets its
      word, memory is untouched, and no other register changes. */
  lemma FramedLoads(mach: Machine, regs: seq<SIdx>)
    requires forall j, k :: 0 <= j < k < |regs| ==> regs[j] < regs[k]
    ensures var k := |regs|;
      var mach' := Exec(mach, RestoreLoads(regs, k) + [AdjustSp(4 * k)]);
      && mach'.sp == mach.sp + 4 * k && mach'.mem == mach.mem
      && (forall j :: 0 <= j < k ==> Read(mach', S(regs[j])) == Load(mach, mach.sp + 4 * j))
      && forall r: Reg :: !(r.S? && r.s in regs) ==> Read(mach', r) == Read(mach, r)
  {
    var k := |regs|;
    var ld, up := RestoreLoads(regs, k), [AdjustSp(4 * k)];
    ExecAppend(mach, ld, up);
    ExecLoads(mach, regs, k);
    ExecLoadsFrame(mach, regs, k);
    assert regs[..k] == regs;
    ExecTwo(Exec(mach, ld), AdjustSp(4 * k), Ret);
  }

  lemma Regroup<T>(a: seq<T>, b: seq<T>, c: seq<T>, d: seq<T>)
    ensures (a + b) + (c + d) == a + (b + c) + d
  {
  }

  /** Running the prologue and then the epilogue leaves the stack pointer
      and every register as they were: each saved register comes back from
      the word the prologue stored it to. */
  lemma PrologueEpilogueRestore(m: Manager, mach: Machine)
    ensures var mach' := Exec(mach, GeneratePrologue(m) + GenerateEpilogue(m));
      mach'.sp == mach.sp && forall r :: Read(mach', r) == Read(mach, r)
  {
    var regs := SavedInUse(m);
    var k := |regs|;
    if k == 0 {
      assert GeneratePrologue(m) + GenerateEpilogue(m) == [];
    } else {
      var st, ld := SaveStores(regs, k), RestoreLoads(regs, k);
      var down := [AdjustSp(-(4 * k))];
      var up := [AdjustSp(4 * k)];
      assert GeneratePrologue(m) == down + st;
      assert GenerateEpilogue(m) == ld + up;
      Regroup(down, st, ld, up);
      FramedStoresThenLoads(mach, regs);
    }
  }
}
