/** What one attempted instruction reports, and what the reference says it must report. */
module StepRecords {
  import opened Bits
  import opened Bytes
  import opened Isa
  import opened Instruction

  datatype StepResult =
    | Ok | Halted | InvalidArgument
    | MisalignedPc | FetchFailed | UnknownInstruction
    | LoadMisaligned | LoadFailed | StoreMisaligned | StoreFailed
    | Ecall | Breakpoint

  datatype RegisterEffect =
    RegisterEffect(written: bool, index: Register, value: Word, before: Word, after: Word, changed: bool)

  datatype MemoryEffect =
    MemoryEffect(attempted: bool, completed: bool, write: bool, width: Byte, address: Word, before: Word, after: Word)

  datatype TrapInfo = TrapInfo(raised: bool, cause: Cause, instructionAddress: Word, value: Word)

  datatype StepRecord = StepRecord(
    result: StepResult, pcBefore: Word, pcAfter: Word, countBefore: Count, countAfter: Count,
    fetched: bool, instruction: Decoded, rs1Value: Word, rs2Value: Word, branchTaken: bool,
    reg: RegisterEffect, memory: MemoryEffect, trap: TrapInfo)

  // The all-zero record parts a step starts from.
  const NO_REGISTER := RegisterEffect(false, 0, 0, 0, 0, false)
  const NO_MEMORY := MemoryEffect(false, false, false, 0, 0, 0, 0)
  const NO_TRAP := TrapInfo(false, INSTRUCTION_MISALIGNED, 0, 0)
  const EMPTY_RECORD := StepRecord(Ok, 0, 0, 0, 0, false, NOTHING_DECODED, 0, 0, false, NO_REGISTER, NO_MEMORY, NO_TRAP)

  /** The result code that goes with each trap cause. */
  function ResultOf(c: Cause): StepResult {
    match c
    case INSTRUCTION_MISALIGNED => MisalignedPc
    case INSTRUCTION_ACCESS => FetchFailed
    case ILLEGAL_INSTRUCTION => UnknownInstruction
    case BREAKPOINT => Breakpoint
    case LOAD_MISALIGNED => LoadMisaligned
    case LOAD_ACCESS => LoadFailed
    case STORE_MISALIGNED => StoreMisaligned
    case STORE_ACCESS => StoreFailed
    case USER_ECALL => Ecall
  }

  // ----- The reference's account of one attempt -----

  /** The state after one attempt: a trap or a halted hart changes nothing. */
  ghost function After(h: Hart): Hart {
    if h.halted then h
    else match Step(h)
      case Retired(next) => next
      case Trap(_, _) => h
  }

  ghost function ResultAfter(h: Hart): StepResult {
    if h.halted then Halted
    else match Step(h)
      case Retired(_) => Ok
      case Trap(cause, _) => ResultOf(cause)
  }

  ghost function TrapAfter(h: Hart): TrapInfo {
    if h.halted then NO_TRAP
    else match Step(h)
      case Retired(_) => NO_TRAP
      case Trap(cause, value) => TrapInfo(true, cause, h.pc, value)
  }

  /** The value computed for the destination register before the x0 rule. */
  ghost function Written(h: Hart, w: Word): Word {
    var k, a, b := KindOf(w), Reg(h, Rs1(w)), Reg(h, Rs2(w));
    var address, width := DataAddress(k, w, a), Width(k);
    if IsLoad(k) then (if InRam(h.ram, address, width) then Extend(k, Load(h.ram, address, width)) else 0)
    else Result(k, w, h.pc, a, b)
  }

  ghost function RegisterAfter(h: Hart, w: Word): RegisterEffect {
    if ResultAfter(h).Ok? && HasDestination(KindOf(w)) then
      var before, after := Reg(h, Rd(w)), Reg(After(h), Rd(w));
      RegisterEffect(true, Rd(w), Written(h, w), before, after, before != after)
    else NO_REGISTER
  }

  /** The raw value a data access covers. */
  function RawValue(ram: seq<Byte>, address: Word, width: nat): Word {
    if address + width <= |ram| && width <= 4 then
      LoadBound(ram, address, width);
      Load(ram, address, width)
    else 0
  }

  ghost function MemoryAfter(h: Hart, w: Word): MemoryEffect {
    var k := KindOf(w);
    if IsLoad(k) || IsStore(k) then
      var address, ok := DataAddress(k, w, Reg(h, Rs1(w))), ResultAfter(h).Ok?;
      MemoryEffect(true, ok, IsStore(k), Width(k), address,
                   if ok then RawValue(h.ram, address, Width(k)) else 0,
                   if ok then RawValue(After(h).ram, address, Width(k)) else 0)
    else NO_MEMORY
  }

  /** The whole record of an attempt that starts in `h`. */
  ghost function RecordOf(h: Hart): StepRecord {
    var r := EMPTY_RECORD.(result := ResultAfter(h), pcBefore := h.pc, pcAfter := After(h).pc,
                           countBefore := h.count, countAfter := After(h).count, trap := TrapAfter(h));
    if h.halted || !Fetchable(h) then r
    else
      var w := Fetched(h);
      var k, a, b := KindOf(w), Reg(h, Rs1(w)), Reg(h, Rs2(w));
      if k == UNKNOWN then r.(fetched := true, instruction := Decode(w))
      else r.(fetched := true, instruction := Decode(w), rs1Value := a, rs2Value := b,
              branchTaken := ResultAfter(h).Ok? && Transfers(k, a, b),
              reg := RegisterAfter(h, w), memory := MemoryAfter(h, w))
  }

  // ----- The three ways a known instruction ends -----

  /** `w` is at the program counter of a running hart, and is known, not ECALL and not EBREAK. */
  ghost predicate Running(h: Hart, w: Word) {
    && !h.halted && Fetchable(h) && w == Fetched(h)
    && var k := KindOf(w); !k.UNKNOWN? && !k.ECALL? && !k.EBREAK?
  }

  ghost predicate Jumps(h: Hart, w: Word) {
    Transfers(KindOf(w), Reg(h, Rs1(w)), Reg(h, Rs2(w)))
  }

  ghost function NextPc(h: Hart, w: Word): Word {
    if Jumps(h, w) then Target(KindOf(w), w, h.pc, Reg(h, Rs1(w))) else Wrap(h.pc + 4)
  }

  ghost predicate AccessesData(w: Word) {
    IsLoad(KindOf(w)) || IsStore(KindOf(w))
  }

  ghost function AddressOf(h: Hart, w: Word): Word {
    DataAddress(KindOf(w), w, Reg(h, Rs1(w)))
  }

  /** A destination write: the value computed, and what the x0 rule lets through. */
  function WriteEffect(before: Word, rd: Register, value: Word): RegisterEffect {
    var after := if rd == 0 then 0 else value;
    RegisterEffect(true, rd, value, before, after, before != after)
  }

  /** The record of a running instruction, given the fields known before it executes. */
  ghost function KnownRecord(step: StepRecord, h: Hart, w: Word): StepRecord {
    step.(rs1Value := Reg(h, Rs1(w)), rs2Value := Reg(h, Rs2(w)), trap := TrapAfter(h),
          branchTaken := ResultAfter(h).Ok? && Jumps(h, w),
          reg := RegisterAfter(h, w), memory := MemoryAfter(h, w))
  }

  /** The fields of a step record before execution. */
  predicate Fresh(step: StepRecord, pc: Word) {
    step.pcBefore == pc && step.trap == NO_TRAP && !step.branchTaken && step.reg == NO_REGISTER
    && step.memory == NO_MEMORY
  }

  function Operands(step: StepRecord, left: Word, right: Word): StepRecord {
    step.(rs1Value := left, rs2Value := right)
  }

  /** How the classes of operations relate. */
  lemma KindClasses(k: Kind)
    ensures IsBranch(k) ==> !HasDestination(k) && !IsLoad(k) && !IsStore(k) && !IsJump(k)
    ensures IsJump(k) ==> HasDestination(k) && !IsLoad(k) && !IsStore(k)
    ensures IsLoad(k) ==> HasDestination(k) && !IsStore(k)
    ensures IsStore(k) ==> !HasDestination(k)
    ensures Width(k) != 0 <==> IsLoad(k) || IsStore(k)
    ensures Width(k) in {0, 1, 2, 4}
  {
  }

  lemma TransferKinds(k: Kind, a: Word, b: Word)
    ensures Transfers(k, a, b) ==> IsBranch(k) || IsJump(k)
    ensures IsJump(k) ==> Transfers(k, a, b)
  {
  }

  lemma EndsInTransferTrap(step: StepRecord, h: Hart, w: Word)
    requires Running(h, w) && Jumps(h, w) && NextPc(h, w) % 4 != 0 && Fresh(step, h.pc)
    ensures After(h) == h && ResultAfter(h) == MisalignedPc
    ensures KnownRecord(step, h, w)
         == Operands(step, Reg(h, Rs1(w)), Reg(h, Rs2(w))).(
              trap := TrapInfo(true, INSTRUCTION_MISALIGNED, h.pc, NextPc(h, w)))
  {
    hide Load, Store, Target, DataAddress, Extend, Fetched, KindOf, Result, Reg, SetReg, Retire, Transfers, InRam;
    hide IsBranch, IsJump, IsLoad, IsStore, HasDestination, Width, Rd, Rs1, Rs2;
    KindClasses(KindOf(w));
    TransferKinds(KindOf(w), Reg(h, Rs1(w)), Reg(h, Rs2(w)));
  }

  lemma EndsInDataTrap(step: StepRecord, h: Hart, w: Word, misaligned: bool)
    requires Running(h, w) && AccessesData(w) && Fresh(step, h.pc)
    requires misaligned == (AddressOf(h, w) % Width(KindOf(w)) != 0)
    requires misaligned || !InRam(h.ram, AddressOf(h, w), Width(KindOf(w)))
    ensures var store := IsStore(KindOf(w));
            var cause := if misaligned then (if store then STORE_MISALIGNED else LOAD_MISALIGNED)
                         else if store then STORE_ACCESS else LOAD_ACCESS;
            && After(h) == h && ResultAfter(h) == ResultOf(cause)
            && KnownRecord(step, h, w)
            == Operands(step, Reg(h, Rs1(w)), Reg(h, Rs2(w))).(
                 trap := TrapInfo(true, cause, h.pc, AddressOf(h, w)),
                 memory := MemoryEffect(true, false, store, Width(KindOf(w)), AddressOf(h, w), 0, 0))
  {
    hide Load, Store, Target, DataAddress, Extend, Fetched, KindOf, Result, Reg, SetReg, Retire, Transfers, InRam;
    hide IsBranch, IsJump, IsLoad, IsStore, HasDestination, Width, Rd, Rs1, Rs2;
    KindClasses(KindOf(w));
    TransferKinds(KindOf(w), Reg(h, Rs1(w)), Reg(h, Rs2(w)));
  }

  /** The state in which the destination register is written: RAM after the store, if there is one. */
  ghost function Stored(h: Hart, w: Word): Hart
    requires IsStore(KindOf(w)) ==> InRam(h.ram, AddressOf(h, w), Width(KindOf(w)))
  {
    if IsStore(KindOf(w)) then h.(ram := Store(h.ram, AddressOf(h, w), Width(KindOf(w)), Reg(h, Rs2(w)))) else h
  }

  ghost predicate Completes(h: Hart, w: Word) {
    && Running(h, w)
    && (Jumps(h, w) ==> NextPc(h, w) % 4 == 0)
    && (AccessesData(w) ==> AddressOf(h, w) % Width(KindOf(w)) == 0 && InRam(h.ram, AddressOf(h, w), Width(KindOf(w))))
  }

  /** The state a completed step leads to. */
  ghost function RetiredAt(h: Hart, w: Word): Hart
    requires IsStore(KindOf(w)) ==> InRam(h.ram, AddressOf(h, w), Width(KindOf(w)))
  {
    var s := Stored(h, w);
    Retire(if HasDestination(KindOf(w)) then SetReg(s, Rd(w), Written(h, w)) else s, NextPc(h, w))
  }

  lemma EndsRetiredState(h: Hart, w: Word)
    requires Completes(h, w)
    ensures After(h) == RetiredAt(h, w)
    ensures ResultAfter(h) == Ok && TrapAfter(h) == NO_TRAP
  {
    hide Load, Store, Target, DataAddress, Extend, Fetched, KindOf, Transfers, Result, Reg, SetReg, Retire, Written;
    hide Execute;
    if Jumps(h, w) {
      RetiresJump(h, w);
    } else if AccessesData(w) {
      RetiresData(h, w);
    } else {
      RetiresPlain(h, w);
    }
  }

  lemma RetiresJump(h: Hart, w: Word)
    requires Completes(h, w) && Jumps(h, w)
    ensures !IsStore(KindOf(w))
    ensures Execute(h, w)
         == Retired(Retire(if HasDestination(KindOf(w)) then SetReg(h, Rd(w), Written(h, w)) else h, NextPc(h, w)))
  {
    hide Load, Store, Target, DataAddress, Extend, Fetched, KindOf, Result, Reg, SetReg, Retire, Transfers, Rd, Rs1;
    hide Rs2;
    hide IsBranch, IsJump, IsLoad, IsStore, HasDestination, Fetchable, InRam, Width, AddressOf;
    var k, a, b := KindOf(w), Reg(h, Rs1(w)), Reg(h, Rs2(w));
    KindClasses(k);
    TransferKinds(k, a, b);
    JumpResult(k, w, h.pc, a, b);
  }

  lemma RetiresData(h: Hart, w: Word)
    requires Completes(h, w) && !Jumps(h, w) && AccessesData(w)
    ensures Execute(h, w) == Retired(RetiredAt(h, w))
  {
    hide Load, Store, Target, DataAddress, Extend, Fetched, KindOf, Result, Reg, SetReg, Retire, Transfers, InRam;
    hide IsLoad, IsStore, HasDestination, Fetchable, Width, Rd, Rs1, Rs2;
    KindClasses(KindOf(w));
  }

  lemma RetiresPlain(h: Hart, w: Word)
    requires Completes(h, w) && !Jumps(h, w) && !AccessesData(w)
    ensures Execute(h, w)
         == Retired(Retire(if HasDestination(KindOf(w)) then SetReg(h, Rd(w), Written(h, w)) else h, NextPc(h, w)))
  {
    hide Load, Store, Target, DataAddress, Extend, Fetched, KindOf, Result, Reg, SetReg, Retire, Transfers;
    hide IsLoad, IsStore, HasDestination, Fetchable, Width, Rd, Rs1, Rs2;
  }

  lemma JumpResult(k: Kind, w: Word, pc: Word, a: Word, b: Word)
    ensures IsJump(k) ==> Result(k, w, pc, a, b) == Wrap(pc + 4)
  {
    hide Xor, And, Or, Pow2;
  }

  lemma EndsRetired(step: StepRecord, h: Hart, w: Word)
    requires Completes(h, w) && Fresh(step, h.pc)
    ensures KnownRecord(step, h, w)
         == Operands(step, Reg(h, Rs1(w)), Reg(h, Rs2(w))).(
              branchTaken := Jumps(h, w),
              reg := if HasDestination(KindOf(w)) then WriteEffect(Reg(Stored(h, w), Rd(w)), Rd(w), Written(h, w))
                     else NO_REGISTER,
              memory := if AccessesData(w) then
                          MemoryEffect(true, true, IsStore(KindOf(w)), Width(KindOf(w)), AddressOf(h, w),
                                       RawValue(h.ram, AddressOf(h, w), Width(KindOf(w))),
                                       RawValue(Stored(h, w).ram, AddressOf(h, w), Width(KindOf(w))))
                        else NO_MEMORY)
  {
    hide Load, Store, Target, DataAddress, Extend, Fetched, After, ResultAfter, TrapAfter, Written, KindOf, NextPc;
    hide Jumps, RawValue;
    EndsRetiredState(h, w);
  }

  // ----- The record on each way out of a step -----

  /** The record a step starts from. */
  function Start(h: Hart): StepRecord {
    EMPTY_RECORD.(pcBefore := h.pc, pcAfter := h.pc, countBefore := h.count, countAfter := h.count)
  }

  function Finish(record: StepRecord, result: StepResult, post: Hart): StepRecord {
    record.(result := result, pcAfter := post.pc, countAfter := post.count)
  }

  function Fault(record: StepRecord, cause: Cause, value: Word): StepRecord {
    record.(trap := TrapInfo(true, cause, record.pcBefore, value))
  }

  lemma HaltedRecord(h: Hart)
    requires h.halted
    ensures After(h) == h && ResultAfter(h) == Halted && RecordOf(h) == Finish(Start(h), Halted, h)
  {
  }

  lemma FetchTrapRecord(h: Hart)
    requires !h.halted && !Fetchable(h)
    ensures var cause := if h.pc % 4 != 0 then INSTRUCTION_MISALIGNED else INSTRUCTION_ACCESS;
            After(h) == h && ResultAfter(h) == ResultOf(cause)
            && RecordOf(h) == Finish(Fault(Start(h), cause, h.pc), ResultOf(cause), h)
  {
  }

  lemma UnknownRecord(h: Hart, w: Word)
    requires !h.halted && Fetchable(h) && w == Fetched(h) && KindOf(w) == UNKNOWN
    ensures After(h) == h && ResultAfter(h) == UnknownInstruction
    ensures RecordOf(h)
         == Finish(Fault(Start(h).(fetched := true, instruction := Decode(w)), ILLEGAL_INSTRUCTION, w),
                   UnknownInstruction, h)
  {
    hide KindOf, Decode, Fetched;
  }

  lemma SystemRecord(h: Hart, w: Word)
    requires !h.halted && Fetchable(h) && w == Fetched(h) && (KindOf(w) == ECALL || KindOf(w) == EBREAK)
    ensures var cause := if KindOf(w) == ECALL then USER_ECALL else BREAKPOINT;
            && After(h) == h && ResultAfter(h) == ResultOf(cause)
            && var decoded := Start(h).(fetched := true, instruction := Decode(w));
               RecordOf(h) == Finish(Fault(Operands(decoded, Reg(h, Rs1(w)), Reg(h, Rs2(w))),
                                           cause, if cause == BREAKPOINT then h.pc else 0), ResultOf(cause), h)
  {
    hide KindOf, Decode, Fetched, Reg, Rs1, Rs2, Load, Store, Extend, Written, SetReg, Retire, Target, Result;
  }

  lemma RunningRecord(h: Hart, w: Word)
    requires Running(h, w)
    ensures RecordOf(h)
         == Finish(KnownRecord(Start(h).(fetched := true, instruction := Decode(w)), h, w), ResultAfter(h), After(h))
  {
    hide KindOf, Decode, Fetched, Reg, Rs1, Rs2, After, ResultAfter, TrapAfter, RegisterAfter, MemoryAfter, Transfers;
  }
}
