/** Laws of one recorded step: precise traps, and records as a complete undo/redo log. */
module StepLaws {
  import opened Bits
  import opened Bytes
  import opened Isa
  import opened Instruction
  import opened StepRecords

  // ----- Precise traps -----

  /** Anything but `Ok` leaves the whole state as it was. A trap is reported for exactly the nine trap results, at the
      program counter of the instruction, with the cause of that result; argument errors do not arise. */
  lemma PreciseTraps(h: Hart)
    ensures var r := RecordOf(h);
            && r.result == ResultAfter(h) && r.pcBefore == h.pc && r.countBefore == h.count
            && (r.result != Ok ==> After(h) == h && r.pcAfter == h.pc && r.countAfter == h.count)
            && (r.trap.raised <==> !r.result.Ok? && !r.result.Halted?)
            && !r.result.InvalidArgument?
            && (r.trap.raised ==> r.result == ResultOf(r.trap.cause) && r.trap.instructionAddress == h.pc)
            && (r.result.Halted? <==> h.halted)
            && (r.result != Ok ==> !r.reg.written && !r.memory.completed && !r.branchTaken)
  {
    hide Isa.Execute, Decode, KindOf, Fetched;
  }

  lemma ResultsNameCauses(a: Cause, b: Cause)
    ensures ResultOf(a) == ResultOf(b) ==> a == b
    ensures ResultOf(a) !in {Ok, Halted, InvalidArgument}
  {
  }

  /** Every attempt that does not retire, told apart from the ones that do. */
  lemma Endings(h: Hart)
    ensures ResultAfter(h) == Ok ==> Fetchable(h) && Completes(h, Fetched(h))
    ensures ResultAfter(h) != Ok ==> After(h) == h
    ensures ResultAfter(h) == MisalignedPc && h.pc % 4 == 0 ==>
              Fetchable(h) && Running(h, Fetched(h)) && Jumps(h, Fetched(h)) && NextPc(h, Fetched(h)) % 4 != 0
              && TrapAfter(h).value == NextPc(h, Fetched(h))
  {
    hide KindOf, Fetched, After, ResultAfter, TrapAfter, RecordOf, KnownRecord, Jumps, NextPc, AddressOf, Decode, InRam;
    if h.halted {
      HaltedRecord(h);
    } else if !Fetchable(h) {
      FetchTrapRecord(h);
    } else {
      var w := Fetched(h);
      if KindOf(w) == UNKNOWN {
        UnknownRecord(h, w);
      } else if KindOf(w) == ECALL || KindOf(w) == EBREAK {
        SystemRecord(h, w);
      } else if Jumps(h, w) && NextPc(h, w) % 4 != 0 {
        EndsInTransferTrap(Start(h), h, w);
        assert KnownRecord(Start(h), h, w).trap == TrapAfter(h) by {
          KnownTrap(Start(h), h, w);
        }
      } else if Completes(h, w) {
        EndsRetiredState(h, w);
      } else {
        EndsInDataTrap(Start(h), h, w, AddressOf(h, w) % Width(KindOf(w)) != 0);
      }
    }
  }

  lemma KnownTrap(step: StepRecord, h: Hart, w: Word)
    ensures KnownRecord(step, h, w).trap == TrapAfter(h)
  {
    hide TrapAfter, ResultAfter, Jumps, RegisterAfter, MemoryAfter, Reg;
  }

  /** A step that retires moves the count by one, modulo 2^64; nothing else moves it. */
  lemma CountsRetirements(h: Hart)
    ensures After(h).count == (h.count + (if ResultAfter(h).Ok? then 1 else 0)) % 0x1_0000_0000_0000_0000
  {
    hide KindOf, Fetched, Fetchable, After, ResultAfter, Completes, TrapAfter;
    Endings(h);
    if ResultAfter(h).Ok? {
      RetiredCount(h, Fetched(h));
    }
  }

  lemma RetiredCount(h: Hart, w: Word)
    requires Completes(h, w)
    ensures After(h).count == (h.count + 1) % 0x1_0000_0000_0000_0000
  {
    hide KindOf, After, ResultAfter, Written, NextPc, Store, HasDestination, Jumps, AccessesData, Running, AddressOf;
    hide Width, InRam, Rd, IsStore;
    EndsRetiredState(h, w);
  }

  // ----- Invariants of a step -----

  /** x0 is zero and the program counter is aligned. */
  predicate Sound(h: Hart) {
    h.x[0] == 0 && h.pc % 4 == 0
  }

  lemma StepKeepsSound(h: Hart)
    requires Sound(h)
    ensures Sound(After(h)) && |After(h).ram| == |h.ram| && After(h).halted == h.halted
  {
    hide KindOf, Fetched, Fetchable, After, ResultAfter, Completes, TrapAfter;
    Endings(h);
    if ResultAfter(h).Ok? {
      RetiredSound(h, Fetched(h));
    }
  }

  lemma RetiredSound(h: Hart, w: Word)
    requires Sound(h) && h.pc % 4 == 0 && Completes(h, w)
    ensures Sound(After(h)) && |After(h).ram| == |h.ram| && After(h).halted == h.halted
  {
    hide KindOf, After, ResultAfter, Written, NextPc, Store, HasDestination, Jumps, Running, AddressOf, Width, InRam;
    hide Rd, SetReg, Retire, Sound;
    EndsRetiredState(h, w);
    NextPcAligned(h, w);
    CommitKeeps(h, Stored(h, w), Rd(w), Written(h, w), HasDestination(KindOf(w)), NextPc(h, w));
  }

  lemma NextPcAligned(h: Hart, w: Word)
    requires h.pc % 4 == 0 && (Jumps(h, w) ==> NextPc(h, w) % 4 == 0)
    ensures NextPc(h, w) % 4 == 0
  {
    hide KindOf, Jumps, Target;
  }

  lemma CommitKeeps(h: Hart, g: Hart, rd: Register, value: Word, write: bool, pc: Word)
    requires Sound(h) && g == h.(ram := g.ram) && pc % 4 == 0
    ensures var r := Retire(if write then SetReg(g, rd, value) else g, pc);
            Sound(r) && r.ram == g.ram && r.halted == h.halted
  {
  }

  /** With an aligned program counter, a misaligned-PC result is always the work of a taken branch or jump, and the
      reported value is its target. */
  lemma MisalignmentIsATransfer(h: Hart)
    requires h.pc % 4 == 0 && ResultAfter(h) == MisalignedPc
    ensures Fetchable(h) && Running(h, Fetched(h)) && Jumps(h, Fetched(h))
    ensures RecordOf(h).fetched && RecordOf(h).trap.value == NextPc(h, Fetched(h))
    ensures NextPc(h, Fetched(h)) % 4 == 2
  {
    hide KindOf, Fetched, Fetchable, TrapAfter, ResultAfter, After, Jumps, Reg, Target, KnownRecord, RecordOf, Decode;
    hide InRam, Rs1;
    hide NextPc, Running, Completes;
    Endings(h);
    var w := Fetched(h);
    RunningParts(h, w);
    EvenOrOdd(h.pc);
    EvenNextPc(h, w);
    EvenOrOdd(NextPc(h, w));
  }

  lemma EvenOrOdd(v: nat)
    ensures v % 4 == 0 ==> v % 2 == 0
    ensures v % 2 == 0 && v % 4 != 0 ==> v % 4 == 2
  {
  }

  lemma EvenNextPc(h: Hart, w: Word)
    requires h.pc % 2 == 0 && Jumps(h, w)
    ensures NextPc(h, w) % 2 == 0
  {
    hide KindOf, Jumps, Reg, Target, NextPc, Rs1;
    EvenTarget(KindOf(w), w, h.pc, Reg(h, Rs1(w)));
    TargetOfJump(h, w);
  }

  lemma RunningParts(h: Hart, w: Word)
    requires Running(h, w)
    ensures RecordOf(h).fetched && RecordOf(h).trap == TrapAfter(h)
  {
    hide KindOf, Fetched, Fetchable, TrapAfter, ResultAfter, After, Jumps, Reg, KnownRecord, RecordOf, Decode, Running;
    RunningRecord(h, w);
    KnownTrap(Start(h).(fetched := true, instruction := Decode(w)), h, w);
    KnownFetched(Start(h).(fetched := true, instruction := Decode(w)), h, w);
  }

  lemma TargetOfJump(h: Hart, w: Word)
    requires Jumps(h, w)
    ensures NextPc(h, w) == Target(KindOf(w), w, h.pc, Reg(h, Rs1(w)))
  {
    hide Jumps, Target, KindOf, Reg;
  }

  lemma KnownFetched(step: StepRecord, h: Hart, w: Word)
    ensures KnownRecord(step, h, w).fetched == step.fetched
  {
    hide TrapAfter, ResultAfter, Jumps, RegisterAfter, MemoryAfter, Reg;
  }

  /** Branch and jump offsets are even and JALR clears bit zero, so targets are even. */
  lemma EvenTarget(k: Kind, w: Word, pc: Word, a: Word)
    requires pc % 2 == 0
    ensures Target(k, w, pc, a) % 2 == 0
  {
    hide ImmI, ImmB, ImmJ, Wrap;
    EvenOffsets(w);
    WrapParity(pc + ImmB(w));
    WrapParity(pc + ImmJ(w));
  }

  lemma WrapParity(v: int)
    ensures Wrap(v) % 2 == v % 2
  {
  }

  lemma EvenOffsets(w: Word)
    ensures ImmB(w) % 2 == 0 && ImmJ(w) % 2 == 0
  {
    EvenPieces(w / 0x8000_0000, w / 0x80 % 2, w / 0x200_0000 % 64, w / 0x100 % 16, w / 0x1000 % 256, w / 0x10_0000 % 2,
               w / 0x20_0000 % 1024);
  }

  lemma EvenPieces(top: nat, b11: nat, b10: nat, b4: nat, c12: nat, c11: nat, c1: nat)
    ensures TwosComplement(top * 0x1000 + b11 * 0x800 + b10 * 32 + b4 * 2, 0x1000) % 2 == 0
    ensures TwosComplement(top * 0x10_0000 + c12 * 0x1000 + c11 * 0x800 + c1 * 2, 0x10_0000) % 2 == 0
  {
  }

  // ----- Records as a log -----

  /** Apply a record to the state it starts from, using nothing but the record. */
  function Redo(h: Hart, r: StepRecord): Hart {
    var m := r.memory;
    var ram :=
      if m.completed && m.write && m.address + m.width as int <= |h.ram| then
        Store(h.ram, m.address, m.width, m.after)
      else h.ram;
    var written := if r.reg.written then SetReg(h, r.reg.index, r.reg.after) else h;
    written.(pc := r.pcAfter, count := r.countAfter, ram := ram)
  }

  /** Take a record back from the state it ends in. */
  function Undo(h: Hart, r: StepRecord): Hart {
    var m := r.memory;
    var ram :=
      if m.completed && m.write && m.address + m.width as int <= |h.ram| then
        Store(h.ram, m.address, m.width, m.before)
      else h.ram;
    var written := if r.reg.written then SetReg(h, r.reg.index, r.reg.before) else h;
    written.(pc := r.pcBefore, count := r.countBefore, ram := ram)
  }

  lemma RedoStep(h: Hart)
    ensures Redo(h, RecordOf(h)) == After(h)
  {
    hide KindOf, Fetched, After, ResultAfter, RecordOf, Written, HasDestination, NextPc, Store, Load;
    if ResultAfter(h) != Ok {
      PreciseTraps(h);
    } else {
      RetiredRecord(h);
      var w := Fetched(h);
      if IsStore(KindOf(w)) {
        StoreRaw(h.ram, AddressOf(h, w), Width(KindOf(w)), Reg(h, Rs2(w)));
      }
    }
  }

  /** The log fields of a step that retires, and the state it leads to. */
  lemma RetiredRecord(h: Hart)
    requires ResultAfter(h) == Ok
    ensures Fetchable(h) && Completes(h, Fetched(h))
    ensures var w := Fetched(h);
            var k, r := KindOf(w), RecordOf(h);
            && After(h) == RetiredAt(h, w)
            && r.pcBefore == h.pc && r.countBefore == h.count
            && r.pcAfter == After(h).pc && r.countAfter == After(h).count
            && r.reg == (if HasDestination(k) then WriteEffect(Reg(Stored(h, w), Rd(w)), Rd(w), Written(h, w))
                         else NO_REGISTER)
            && r.memory == (if AccessesData(w) then
                              MemoryEffect(true, true, IsStore(k), Width(k), AddressOf(h, w),
                                           RawValue(h.ram, AddressOf(h, w), Width(k)),
                                           RawValue(Stored(h, w).ram, AddressOf(h, w), Width(k)))
                            else NO_MEMORY)
  {
    hide KindOf, Fetched, After, ResultAfter, RecordOf, KnownRecord, Written, HasDestination, NextPc, Store, RawValue;
    hide Jumps;
    Endings(h);
    var w := Fetched(h);
    var step := Start(h).(fetched := true, instruction := Decode(w));
    RunningRecord(h, w);
    EndsRetired(step, h, w);
    EndsRetiredState(h, w);
  }

  /** The raw value a store leaves is enough to repeat it, and the value before is enough to undo it. */
  lemma StoreRaw(ram: seq<Byte>, address: Word, width: nat, value: Word)
    requires address + width <= |ram| && width <= 4
    ensures Store(ram, address, width, RawValue(Store(ram, address, width, value), address, width))
         == Store(ram, address, width, value)
    ensures Store(Store(ram, address, width, value), address, width, RawValue(ram, address, width)) == ram
  {
    hide Store, Load;
    LoadAfterStore(ram, address, width, value);
    TruncatedStore(ram, address, width, value);
    StoreUndo(ram, address, width, value);
  }

  lemma UndoStep(h: Hart)
    ensures Undo(After(h), RecordOf(h)) == h
  {
    hide KindOf, Fetched, After, ResultAfter, RecordOf, Written, HasDestination, NextPc, Store, Load;
    if ResultAfter(h) != Ok {
      PreciseTraps(h);
    } else {
      RetiredRecord(h);
      var w := Fetched(h);
      if IsStore(KindOf(w)) {
        StoreRaw(h.ram, AddressOf(h, w), Width(KindOf(w)), Reg(h, Rs2(w)));
      }
    }
  }

  // ----- Records explain themselves -----

  /** A register by number, with x0 reading as zero. */
  function ValueOf(h: Hart, i: Register): Word {
    if i == 0 then 0 else h.x[i]
  }

  /** The record of a known operation tells what happened in terms of its own fields and the states before and after:
      the operands are the registers its instruction names, the address is the first operand plus the immediate, a
      store puts the second operand there, and the destination gets the recorded value unless it is x0. */
  lemma RecordExplains(h: Hart)
    requires RecordOf(h).fetched && RecordOf(h).instruction.kind != UNKNOWN
    ensures var r := RecordOf(h);
            var f, k, m := r.instruction.fields, r.instruction.kind, r.memory;
            && r.instruction == Decode(Load(h.ram, h.pc, 4))
            && r.rs1Value == ValueOf(h, f.rs1) && r.rs2Value == ValueOf(h, f.rs2)
            && (r.branchTaken ==> IsBranch(k) || IsJump(k))
            && (r.result == Ok && !r.branchTaken ==> r.pcAfter == (r.pcBefore + 4) % 0x1_0000_0000)
            && (m.attempted <==> IsLoad(k) || IsStore(k)) && (m.completed <==> m.attempted && r.result == Ok)
            && (m.attempted ==>
                  && m.write == IsStore(k) && m.width == Width(k)
                  && m.address == (r.rs1Value + r.instruction.immediate) % 0x1_0000_0000)
            && (r.reg.written <==> r.result == Ok && HasDestination(k))
            && (r.reg.written ==>
                  && r.reg.index == f.rd && r.reg.before == ValueOf(h, f.rd) && r.reg.after == ValueOf(After(h), f.rd)
                  && r.reg.changed == (r.reg.before != r.reg.after)
                  && r.reg.after == if f.rd == 0 then 0 else r.reg.value)
  {
    hide Decode, KindOf, RecordOf, After, ResultAfter, Load, ValueOf, IsBranch, IsJump, IsLoad, IsStore, HasDestination;
    KnownAttempt(h);
    var w := Fetched(h);
    OperandsExplained(h, w);
    AccessExplained(h, w);
    if RecordOf(h).result == Ok {
      RetiredExplained(h, w);
    }
  }

  lemma KnownAttempt(h: Hart)
    requires RecordOf(h).fetched && RecordOf(h).instruction.kind != UNKNOWN
    ensures !h.halted && Fetchable(h) && Decode(Fetched(h)).kind != UNKNOWN
  {
    hide Decode, KindOf, After, ResultAfter, TrapAfter, RegisterAfter, MemoryAfter, Transfers, Fetched, Fetchable, Reg;
  }

  predicate KnownFetch(h: Hart, w: Word) {
    !h.halted && Fetchable(h) && w == Fetched(h) && Decode(w).kind != UNKNOWN
  }

  lemma OperandsExplained(h: Hart, w: Word)
    requires KnownFetch(h, w)
    ensures var r := RecordOf(h);
            && r.result == ResultAfter(h) && r.instruction == Decode(w)
            && r.rs1Value == ValueOf(h, Decode(w).fields.rs1) && r.rs2Value == ValueOf(h, Decode(w).fields.rs2)
            && (r.branchTaken <==> r.result == Ok && Jumps(h, w))
            && (Jumps(h, w) ==> IsBranch(KindOf(w)) || IsJump(KindOf(w)))
            && (r.reg.written <==> r.result == Ok && HasDestination(Decode(w).kind))
            && Decode(w).kind == KindOf(w)
  {
    hide Decode, KindOf, After, ResultAfter, TrapAfter, MemoryAfter, Transfers, Rs1, Rs2, Rd, IsBranch, IsJump;
    hide HasDestination, Written;
    DecodeKind(w);
    DecodedFields(w);
    TransferKinds(KindOf(w), Reg(h, Rs1(w)), Reg(h, Rs2(w)));
  }

  lemma AccessExplained(h: Hart, w: Word)
    requires KnownFetch(h, w)
    ensures var r, k := RecordOf(h), Decode(w).kind;
            && (r.memory.attempted <==> IsLoad(k) || IsStore(k))
            && (r.memory.completed <==> r.memory.attempted && r.result == Ok)
            && (r.memory.attempted ==>
                  && r.memory.write == IsStore(k) && r.memory.width == Width(k)
                  && r.memory.address == (r.rs1Value + Decode(w).immediate) % 0x1_0000_0000)
  {
    hide Decode, KindOf, After, ResultAfter, TrapAfter, RegisterAfter, Transfers, Rs1, Rs2, RawValue, Reg, Width, ImmI;
    hide ImmS;
    hide Immediate;
    DecodeKind(w);
    DecodeImmediate(w);
    var k := KindOf(w);
    if IsLoad(k) || IsStore(k) {
      AccessImmediate(k, w);
      WrappedSum(Reg(h, Rs1(w)), Immediate(k, w), Decode(w).immediate);
    }
  }

  lemma AccessImmediate(k: Kind, w: Word)
    requires IsLoad(k) || IsStore(k)
    ensures Immediate(k, w) == (if IsStore(k) then ImmS(w) else ImmI(w)) && FormatOf(k) != FormatU
            && FormatOf(k) != FormatR
  {
    hide ImmS, ImmI;
  }

  lemma WrappedSum(a: Word, v: int, pattern: Word)
    requires pattern == Wrap(v)
    ensures Wrap(a + v) == (a + pattern) % 0x1_0000_0000
  {
  }

  lemma RetiredExplained(h: Hart, w: Word)
    requires KnownFetch(h, w) && RecordOf(h).result == Ok
    ensures var r := RecordOf(h);
            && r.pcBefore == h.pc && (!Jumps(h, w) ==> r.pcAfter == (h.pc + 4) % 0x1_0000_0000)
            && (r.reg.written ==>
                  && r.reg.index == Decode(w).fields.rd && r.reg.before == ValueOf(h, r.reg.index)
                  && r.reg.after == ValueOf(After(h), r.reg.index) && r.reg.changed == (r.reg.before != r.reg.after)
                  && r.reg.after == if r.reg.index == 0 then 0 else r.reg.value)
  {
    hide Decode, KindOf, After, ResultAfter, RecordOf, Rd, Written, HasDestination, Jumps, Target, AccessesData;
    hide Completes;
    hide RawValue, Store, Fetchable, Fetched, IsStore;
    ResultIs(h);
    RetiredRecord(h);
    DecodedFields(w);
  }

  lemma ResultIs(h: Hart)
    ensures RecordOf(h).result == ResultAfter(h)
  {
    hide Decode, KindOf, After, ResultAfter, TrapAfter, RegisterAfter, MemoryAfter, Transfers, Fetched, Fetchable, Reg;
  }

  /** What each trap cause says about the record, and the value reported with it. */
  predicate TrapFits(h: Hart, r: StepRecord) {
    var (value, k, m) := (r.trap.value, r.instruction.kind, r.memory);
    match r.trap.cause
    case INSTRUCTION_MISALIGNED =>
      if r.fetched then (IsBranch(k) || IsJump(k)) && value % 4 != 0 else value == h.pc && h.pc % 4 != 0
    case INSTRUCTION_ACCESS => !r.fetched && value == h.pc && !InRam(h.ram, h.pc, 4)
    case ILLEGAL_INSTRUCTION => r.fetched && k == UNKNOWN && value == r.instruction.fields.raw
    case BREAKPOINT => r.fetched && k == EBREAK && value == h.pc
    case USER_ECALL => r.fetched && k == ECALL && value == 0
    case LOAD_MISALIGNED => IsLoad(k) && m.attempted && value == m.address && m.address % Width(k) != 0
    case STORE_MISALIGNED => IsStore(k) && m.attempted && value == m.address && m.address % Width(k) != 0
    case LOAD_ACCESS => IsLoad(k) && m.attempted && value == m.address && !InRam(h.ram, m.address, Width(k))
    case STORE_ACCESS => IsStore(k) && m.attempted && value == m.address && !InRam(h.ram, m.address, Width(k))
  }

  /** Every trap has the value its cause calls for. */
  lemma TrapsExplained(h: Hart)
    requires RecordOf(h).trap.raised
    ensures TrapFits(h, RecordOf(h))
  {
    hide KindOf, Fetched, After, ResultAfter, TrapAfter, RecordOf, KnownRecord, Jumps, NextPc, AddressOf, Decode, InRam;
    hide Reg, TrapFits;
    if h.halted {
      HaltedRecord(h);
    } else if !Fetchable(h) {
      FetchTrapRecord(h);
      FetchTrapFits(h);
    } else {
      var w := Fetched(h);
      DecodeKind(w);
      DecodedFields(w);
      if KindOf(w) == UNKNOWN {
        UnknownRecord(h, w);
        UnknownTrapFits(h, w);
      } else if KindOf(w) == ECALL || KindOf(w) == EBREAK {
        SystemRecord(h, w);
        SystemTrapFits(h, w);
      } else {
        RunningTrapFits(h, w);
      }
    }
  }

  lemma FetchTrapFits(h: Hart)
    requires !h.halted && !Fetchable(h)
    ensures TrapFits(h, RecordOf(h))
  {
    hide RecordOf, After, ResultAfter, InRam;
    FetchTrapRecord(h);
  }

  lemma UnknownTrapFits(h: Hart, w: Word)
    requires !h.halted && Fetchable(h) && w == Fetched(h) && KindOf(w) == UNKNOWN && Decode(w).kind == UNKNOWN
    requires Decode(w).fields.raw == w
    ensures TrapFits(h, RecordOf(h))
  {
    hide RecordOf, After, ResultAfter, KindOf, Fetched, Fetchable, Decode, InRam;
    UnknownRecord(h, w);
  }

  lemma SystemTrapFits(h: Hart, w: Word)
    requires !h.halted && Fetchable(h) && w == Fetched(h) && (KindOf(w) == ECALL || KindOf(w) == EBREAK)
    requires Decode(w).kind == KindOf(w)
    ensures TrapFits(h, RecordOf(h))
  {
    hide RecordOf, After, ResultAfter, KindOf, Fetched, Fetchable, Decode, InRam, Reg;
    SystemRecord(h, w);
  }

  lemma RunningTrapFits(h: Hart, w: Word)
    requires Running(h, w) && Decode(w).kind == KindOf(w) && RecordOf(h).trap.raised
    ensures TrapFits(h, RecordOf(h))
  {
    hide KindOf, Fetched, Fetchable, After, ResultAfter, RecordOf, KnownRecord, Jumps, NextPc, AddressOf, Decode, InRam;
    hide Reg, IsBranch, IsJump, IsLoad, IsStore, Width;
    var step := Start(h).(fetched := true, instruction := Decode(w));
    RunningRecord(h, w);
    KindClasses(KindOf(w));
    JumpKinds(h, w);
    if Jumps(h, w) && NextPc(h, w) % 4 != 0 {
      EndsInTransferTrap(step, h, w);
    } else if Completes(h, w) {
      EndsRetired(step, h, w);
    } else {
      EndsInDataTrap(step, h, w, AddressOf(h, w) % Width(KindOf(w)) != 0);
    }
  }

  lemma JumpKinds(h: Hart, w: Word)
    ensures Jumps(h, w) ==> IsBranch(KindOf(w)) || IsJump(KindOf(w))
  {
    hide KindOf, Reg;
    TransferKinds(KindOf(w), Reg(h, Rs1(w)), Reg(h, Rs2(w)));
  }
}
