/** The CPU: register access, the instruction switch and one recorded step. */
module Cpus {
  import opened Bits
  import opened Bytes
  import opened Isa
  import opened Instruction
  import opened RamOwner
  import opened StepRecords

  // ----- Arithmetic helpers, as C computes them -----

  function Add32(left: Word, right: Word): Word {
    Wrap(left + right)
  }

  /** Signed comparison by flipping both sign bits. */
  predicate SignedLess(left: Word, right: Word) {
    Xor(left, 0x8000_0000) < Xor(right, 0x8000_0000)
  }

  function ArithmeticRight(value: Word, amount: Word): Word {
    var n := And(amount, 31);
    if n == 0 then value
    else
      ShiftAmount(amount);
      var result := Shr(value, n);
      var filled := if And(value, 0x8000_0000) != 0 then Or(result, Wrap(Shl(0xFFFF_FFFF, 32 - n))) else result;
      Operators32(result, Wrap(Shl(0xFFFF_FFFF, 32 - n)));
      filled
  }

  lemma ShiftAmount(amount: nat)
    ensures And(amount, 31) == amount % 32
  {
    Powers();
    MaskLow(amount, 5);
    ShrIsQuotient(amount, 5);
  }

  lemma TopBit(value: Word)
    ensures And(value, 0x8000_0000) == if value >= 0x8000_0000 then 0x8000_0000 else 0
  {
    hide And;
    Powers();
    Quotient(value, 0, 1);
    Piece(value, 0, 31, 1, 0x8000_0000, 2, 0x8000_0000);
  }

  /** Flipping the sign bits turns unsigned order into signed order. */
  lemma SignedLessMeaning(left: Word, right: Word)
    ensures SignedLess(left, right) <==> Signed(left) < Signed(right)
  {
    hide Xor;
    Powers();
    XorTop(left, 31);
    XorTop(right, 31);
  }

  /** The shift-and-fill computes the floor of the signed value divided by the power of two. */
  lemma ArithmeticRightMeaning(value: Word, amount: Word)
    ensures ArithmeticRight(value, amount) == Wrap(Signed(value) / Pow2(amount % 32))
  {
    hide And, Or, Shr;
    ShiftAmount(amount);
    TopBit(value);
    var n := amount % 32;
    if n != 0 {
      ShiftFill(value, n);
    }
  }

  lemma LogicalRightMeaning(value: Word, n: nat)
    ensures Shr(value, n) == Wrap(value / Pow2(n))
  {
    ShrIsQuotient(value, n);
  }

  /** The ones C shifts in from the left. */
  lemma FillBits(p: nat, q: nat)
    requires p * q == 0x1_0000_0000
    ensures Wrap(0xFFFF_FFFF * q) == 0x1_0000_0000 - q == (p - 1) * q
  {
    assert 0 < q <= 0x1_0000_0000 by {
      if p >= 1 && q > 0 {
        assert p * q >= q;
      }
    }
    DivModUnique(0xFFFF_FFFF * q, 0x1_0000_0000, q - 1, 0x1_0000_0000 - q);
  }

  lemma FloorOfNegative(value: Word, p: nat, q: nat)
    requires p > 0 && p * q == 0x1_0000_0000
    ensures value / p < q && (value - 0x1_0000_0000) / p == value / p - q
  {
    var d, r := value / p, value % p;
    if d >= q {
      assert p * d >= p * q;
    }
    DivModUnique(value - 0x1_0000_0000, p, d - q, r);
  }

  lemma ShiftFill(value: Word, n: nat)
    requires 0 < n < 32
    ensures value < 0x8000_0000 ==> Shr(value, n) == Wrap(Signed(value) / Pow2(n))
    ensures value >= 0x8000_0000 ==> Or(Shr(value, n), Wrap(Shl(0xFFFF_FFFF, 32 - n))) == Wrap(Signed(value) / Pow2(n))
  {
    hide Or, Shr, Wrap, Pow2, Shl;
    ShrIsQuotient(value, n);
    PowSum(n, 32 - n);
    Powers();
    if value >= 0x8000_0000 {
      FillNegative(value, n, Pow2(n), Pow2(32 - n));
    } else {
      WrapQuotient(value, Pow2(n));
    }
  }

  lemma WrapQuotient(value: Word, p: nat)
    requires p > 0
    ensures Wrap(value / p) == value / p
  {
    var d, r := value / p, value % p;
    if d > value {
      MulAtLeast(d, p);
    }
  }

  lemma FillNegative(value: Word, n: nat, p: nat, q: nat)
    requires 0 < n < 32 && p == Pow2(n) && q == Pow2(32 - n) && p * q == 0x1_0000_0000
    ensures Or(value / p, Wrap(Shl(0xFFFF_FFFF, 32 - n))) == Wrap((value - 0x1_0000_0000) / p)
  {
    hide Or, Wrap, Pow2, Shl;
    FloorOfNegative(value, p, q);
    FillJoined(value / p, n, p, q);
    WrapSmall(value / p + 0x1_0000_0000 - q, -1);
  }

  lemma FillJoined(d: nat, n: nat, p: nat, q: nat)
    requires 0 < n < 32 && p == Pow2(n) && q == Pow2(32 - n) && p * q == 0x1_0000_0000 && d < q
    ensures Or(d, Wrap(Shl(0xFFFF_FFFF, 32 - n))) == d + 0x1_0000_0000 - q < 0x1_0000_0000
  {
    hide Or;
    FillBits(p, q);
    OrCommutes(d, (p - 1) * q);
    OrDisjoint(p - 1, d, 32 - n);
  }

  lemma WrapSmall(v: int, k: int)
    requires 0 <= v < 0x1_0000_0000
    ensures Wrap(v + k * 0x1_0000_0000) == v
  {
  }

  lemma ClearBitZero(value: Word)
    ensures And(value, 0xFFFF_FFFE) == value - value % 2
  {
    hide And;
    Powers();
    Quotient(value, 0, 1);
    Piece(value, 0, 1, 31, 2, 0x8000_0000, 0xFFFF_FFFE);
  }

  // ----- The instruction switch -----

  /** Everything the switch decides before memory is touched. */
  datatype Selection =
    Selection(value: Word, nextPc: Word, writesRegister: bool, transfer: bool, store: bool, width: nat)

  /** The assignments of the switch, for operands `left` and `right` and decoded immediate `imm`. Its other cases
      return: ECALL and EBREAK, and a default that no decoded word reaches. */
  function Select(kind: Kind, imm: Word, pc: Word, left: Word, right: Word): Selection
    requires kind !in {UNKNOWN, ECALL, EBREAK}
  {
    var next := Add32(pc, 4);
    var compute := Selection(0, next, true, false, false, 0);
    var branch := compute.(writesRegister := false);
    ShiftAmount(right);
    Operators32(left, right);
    Operators32(left, imm);
    Operators32(Add32(left, imm), 0xFFFF_FFFE);
    match kind
    case ADD => compute.(value := Add32(left, right))
    case SUB => compute.(value := Wrap(left - right))
    case SLL => compute.(value := Wrap(Shl(left, And(right, 31))))
    case SLT => compute.(value := if SignedLess(left, right) then 1 else 0)
    case SLTU => compute.(value := if left < right then 1 else 0)
    case XOR => compute.(value := Xor(left, right))
    case SRL => compute.(value := Shr(left, And(right, 31)))
    case SRA => compute.(value := ArithmeticRight(left, right))
    case OR => compute.(value := Or(left, right))
    case AND => compute.(value := And(left, right))
    case ADDI => compute.(value := Add32(left, imm))
    case SLTI => compute.(value := if SignedLess(left, imm) then 1 else 0)
    case SLTIU => compute.(value := if left < imm then 1 else 0)
    case XORI => compute.(value := Xor(left, imm))
    case ORI => compute.(value := Or(left, imm))
    case ANDI => compute.(value := And(left, imm))
    case SLLI => compute.(value := Wrap(Shl(left, imm)))
    case SRLI => compute.(value := Shr(left, imm))
    case SRAI => compute.(value := ArithmeticRight(left, imm))
    case LUI => compute.(value := imm)
    case AUIPC => compute.(value := Add32(pc, imm))
    case JAL => compute.(value := next, transfer := true, nextPc := Add32(pc, imm))
    case JALR => compute.(value := next, transfer := true, nextPc := And(Add32(left, imm), 0xFFFF_FFFE))
    case BEQ => branch.(transfer := left == right)
    case BNE => branch.(transfer := left != right)
    case BLT => branch.(transfer := SignedLess(left, right))
    case BGE => branch.(transfer := !SignedLess(left, right))
    case BLTU => branch.(transfer := left < right)
    case BGEU => branch.(transfer := left >= right)
    case LB => compute.(width := 1)
    case LBU => compute.(width := 1)
    case LH => compute.(width := 2)
    case LHU => compute.(width := 2)
    case LW => compute.(width := 4)
    case SB => branch.(width := 1, store := true)
    case SH => branch.(width := 2, store := true)
    case SW => branch.(width := 4, store := true)
    case FENCE => branch
  }

  /** The locals that depend on the kind alone, and the next address of everything but jumps. */
  ghost predicate FlagsOf(k: Kind, s: Selection, pc: Word) {
    && s.writesRegister == HasDestination(k) && s.store == IsStore(k) && s.width == Width(k)
    && (!IsJump(k) ==> s.nextPc == Wrap(pc + 4))
  }

  lemma SelectFlags(k: Kind, imm: Word, pc: Word, left: Word, right: Word)
    requires k != UNKNOWN && k != ECALL && k != EBREAK
    ensures FlagsOf(k, Select(k, imm, pc, left, right), pc)
  {
    hide Select, FlagsOf;
    if IsRegisterRegister(k) {
      RegisterFlags(k, imm, pc, left, right);
    } else if IsLoad(k) || IsStore(k) {
      AccessFlags(k, imm, pc, left, right);
    } else {
      OtherFlags(k, imm, pc, left, right);
    }
  }

  lemma RegisterFlags(k: Kind, imm: Word, pc: Word, left: Word, right: Word)
    requires IsRegisterRegister(k)
    ensures FlagsOf(k, Select(k, imm, pc, left, right), pc)
  {
    hide And, Or, Xor, Shr, SignedLess, ArithmeticRight, Pow2, Shl, Signed, Wrap;
  }

  lemma AccessFlags(k: Kind, imm: Word, pc: Word, left: Word, right: Word)
    requires IsLoad(k) || IsStore(k)
    ensures FlagsOf(k, Select(k, imm, pc, left, right), pc)
  {
    hide And, Or, Xor, Shr, SignedLess, ArithmeticRight, Pow2, Shl, Signed, Wrap;
  }

  lemma OtherFlags(k: Kind, imm: Word, pc: Word, left: Word, right: Word)
    requires k != UNKNOWN && k != ECALL && k != EBREAK
    requires !IsRegisterRegister(k) && !IsLoad(k) && !IsStore(k)
    ensures FlagsOf(k, Select(k, imm, pc, left, right), pc)
  {
    hide And, Or, Xor, Shr, SignedLess, ArithmeticRight, Pow2, Shl, Signed, Wrap;
  }

  lemma SelectTransfer(k: Kind, imm: Word, pc: Word, left: Word, right: Word)
    requires k != UNKNOWN && k != ECALL && k != EBREAK
    ensures Select(k, imm, pc, left, right).transfer == Transfers(k, left, right)
  {
    hide And, Or, Xor, Shr, SignedLess, ArithmeticRight, Pow2, Shl, Signed, Wrap;
    SignedLessMeaning(left, right);
  }

  lemma SelectRegisterValue(k: Kind, w: Word, imm: Word, pc: Word, left: Word, right: Word)
    requires IsRegisterRegister(k)
    ensures Select(k, imm, pc, left, right).value == Result(k, w, pc, left, right)
  {
    hide And, Or, Xor, Shr, SignedLess, ArithmeticRight, Pow2, Signed, ImmI;
    SignedLessMeaning(left, right);
    ArithmeticRightMeaning(left, right);
    ShiftAmount(right);
    LogicalRightMeaning(left, right % 32);
  }

  lemma SelectImmediateValue(k: Kind, w: Word, imm: Word, pc: Word, left: Word, right: Word)
    requires HasDestination(k) && FormatOf(k) == FormatI && !IsShiftImmediate(k) && !IsLoad(k)
    requires Denotes(imm, ImmI(w))
    ensures Select(k, imm, pc, left, right).value == Result(k, w, pc, left, right)
  {
    hide And, Or, Xor, Shr, SignedLess, Pow2, ImmI, ArithmeticRight, Shl, Wrap;
    SignedLessMeaning(left, imm);
    WrapAdd(left, imm, ImmI(w));
  }

  lemma WrapAdd(left: Word, imm: Word, v: int)
    requires imm == Wrap(v)
    ensures Wrap(left + imm) == Wrap(left + v)
  {
  }

  lemma SelectIndirect(w: Word, imm: Word, pc: Word, left: Word, right: Word)
    requires Denotes(imm, ImmI(w))
    ensures Select(JALR, imm, pc, left, right).nextPc == Target(JALR, w, pc, left)
  {
    hide And, Or, Xor, Shr, SignedLess, Pow2, ImmI, ArithmeticRight, Shl, Wrap;
    WrapAdd(left, imm, ImmI(w));
    ClearBitZero(Add32(left, imm));
  }

  lemma SelectShiftValue(k: Kind, w: Word, imm: Word, pc: Word, left: Word, right: Word)
    requires IsShiftImmediate(k) && imm == Rs2(w)
    ensures Select(k, imm, pc, left, right).value == Result(k, w, pc, left, right)
  {
    hide And, Or, Xor, Shr, SignedLess, Pow2, ImmI, ArithmeticRight, Rs2, Signed, Wrap, Add32;
    ArithmeticRightMeaning(left, imm);
    assert imm % 32 == imm;
    LogicalRightMeaning(left, imm);
  }

  lemma SelectUpperValue(k: Kind, w: Word, imm: Word, pc: Word, left: Word, right: Word)
    requires k.LUI? || k.AUIPC? || k.JAL?
    requires if k.JAL? then Denotes(imm, ImmJ(w)) else imm == ImmU(w)
    ensures Select(k, imm, pc, left, right).value == Result(k, w, pc, left, right)
    ensures k == JAL ==> Select(k, imm, pc, left, right).nextPc == Target(k, w, pc, left)
  {
    hide And, Or, Xor, Shr, SignedLess, Pow2, ImmI, ImmJ, ImmU, ArithmeticRight;
  }

  /** The switch computes what the reference prescribes for the decoded word. */
  lemma SelectMeaning(w: Word, pc: Word, left: Word, right: Word)
    requires var k := Decode(w).kind; k != UNKNOWN && k != ECALL && k != EBREAK
    ensures var k := Decode(w).kind;
            var s := Select(k, Decode(w).immediate, pc, left, right);
            && s.writesRegister == HasDestination(k)
            && s.transfer == Transfers(k, left, right)
            && s.store == IsStore(k) && s.width == Width(k)
            && s.nextPc == (if IsJump(k) then Target(k, w, pc, left) else Wrap(pc + 4))
            && (HasDestination(k) && !IsLoad(k) ==> s.value == Result(k, w, pc, left, right))
  {
    hide Decode, Select, Result, Target, Transfers, ImmI, ImmB, ImmJ, ImmS, ImmU;
    var d := Decode(w);
    DecodeImmediate(w);
    SelectFlags(d.kind, d.immediate, pc, left, right);
    SelectTransfer(d.kind, d.immediate, pc, left, right);
    if IsRegisterRegister(d.kind) {
      SelectRegisterValue(d.kind, w, d.immediate, pc, left, right);
    } else if IsShiftImmediate(d.kind) {
      SelectShiftValue(d.kind, w, d.immediate, pc, left, right);
    } else if d.kind.LUI? || d.kind.AUIPC? || d.kind.JAL? {
      SelectUpperValue(d.kind, w, d.immediate, pc, left, right);
    } else if HasDestination(d.kind) && !IsLoad(d.kind) {
      SelectImmediateValue(d.kind, w, d.immediate, pc, left, right);
      SelectIndirect(w, d.immediate, pc, left, right);
    }
  }

  // ----- Memory access by width -----

  method ReadWidth(memory: Memory, address: Word, width: nat) returns (ok: bool, value: Word)
    requires width == 1 || width == 2 || width == 4
    ensures ok == (address % width == 0 && InRam(memory.Contents(), address, width))
    ensures ok ==> value == Load(memory.Contents(), address, width)
  {
    AccessCheck(memory, address, width);
    if width == 1 {
      ok, value := memory.ReadU8(address);
    } else if width == 2 {
      ok, value := memory.ReadU16(address);
    } else {
      ok, value := memory.ReadU32(address);
    }
  }

  /** `value` is truncated to the width first, as the C conversions do. */
  method WriteWidth(memory: Memory, address: Word, width: nat, value: Word) returns (ok: bool)
    requires width == 1 || width == 2 || width == 4
    modifies memory.bytes
    ensures ok == (address % width == 0 && InRam(memory.Contents(), address, width))
    ensures memory.Contents()
         == if ok then Store(old(memory.Contents()), address, width, value) else old(memory.Contents())
  {
    AccessCheck(memory, address, width);
    DigitsModulo(value, width);
    Powers();
    if width == 1 {
      ok := memory.WriteU8(address, value % 0x100);
    } else if width == 2 {
      ok := memory.WriteU16(address, value % 0x1_0000);
    } else {
      ok := memory.WriteU32(address, value);
    }
  }

  /** Sign extension of a loaded byte or halfword by or-ing ones. */
  function ExtendLoaded(kind: Kind, value: Word): Word {
    Operators32(value, 0xFFFF_FF00);
    Operators32(value, 0xFFFF_0000);
    if kind == LB && And(value, 0x80) != 0 then Or(value, 0xFFFF_FF00)
    else if kind == LH && And(value, 0x8000) != 0 then Or(value, 0xFFFF_0000)
    else value
  }

  lemma ExtendByte(value: nat)
    requires value < 0x100
    ensures And(value, 0x80) != 0 <==> value >= 0x80
    ensures Or(value, 0xFFFF_FF00) == value + 0xFFFF_FF00
  {
    hide And, Or, Shr;
    Powers();
    Quotient(value, 0, 1);
    Piece(value, 0, 7, 1, 0x80, 2, 0x80);
    OrCommutes(value, 0xFFFF_FF00);
    OrDisjoint(0xFF_FFFF, value, 8);
  }

  lemma ExtendHalfword(value: nat)
    requires value < 0x1_0000
    ensures And(value, 0x8000) != 0 <==> value >= 0x8000
    ensures Or(value, 0xFFFF_0000) == value + 0xFFFF_0000
  {
    hide And, Or, Shr;
    Powers();
    Quotient(value, 0, 1);
    Piece(value, 0, 15, 1, 0x8000, 2, 0x8000);
    OrCommutes(value, 0xFFFF_0000);
    OrDisjoint(0xFFFF, value, 16);
  }

  lemma ExtendLoadedMeaning(kind: Kind, value: Word)
    requires IsLoad(kind) && value < Pow2(8 * Width(kind))
    ensures ExtendLoaded(kind, value) == Extend(kind, value)
  {
    hide And, Or;
    Powers();
    if kind == LB {
      ExtendByte(value);
    } else if kind == LH {
      ExtendHalfword(value);
    }
  }

  /** The store half of a data access: truncate to the width, then write. */
  method StoreValue(memory: Memory, address: Word, width: nat, right: Word) returns (ok: bool, value: Word)
    requires width == 1 || width == 2 || width == 4
    modifies memory.bytes
    ensures ok == (address % width == 0 && InRam(memory.Contents(), address, width))
    ensures memory.Contents()
         == if ok then Store(old(memory.Contents()), address, width, right) else old(memory.Contents())
    ensures ok ==> value == RawValue(memory.Contents(), address, width)
  {
    hide Digits, LittleEndian, Store, Load, Pow2;
    Powers();
    value := if width == 1 then right % 0x100 else if width == 2 then right % 0x1_0000 else right;
    ghost var ram := memory.Contents();
    if InRam(ram, address, width) {
      assert value == right % Pow2(8 * width);
      TruncatedStore(ram, address, width, right);
      LoadAfterStore(ram, address, width, right);
    }
    ok := WriteWidth(memory, address, width, value);
  }

  lemma RawIsLoad(ram: seq<Byte>, address: Word, width: nat)
    requires address + width <= |ram| && width <= 4
    ensures RawValue(ram, address, width) == Load(ram, address, width)
  {
  }

  /** The load or store of `width` bytes at `address`: misalignment first, then bounds, then the access. */
  method AccessData(memory: Memory, kind: Kind, address: Word, width: nat, right: Word, step: StepRecord)
    returns (result: StepResult, record: StepRecord, value: Word)
    requires IsLoad(kind) || IsStore(kind)
    requires width == Width(kind)
    modifies memory.bytes
    ensures var ram := old(memory.Contents());
            var tried := step.(memory := MemoryEffect(true, false, IsStore(kind), width, address, 0, 0));
            if address % width != 0 then
              && memory.Contents() == ram
              && result == (if IsStore(kind) then StoreMisaligned else LoadMisaligned)
              && record == Fault(tried, if IsStore(kind) then STORE_MISALIGNED else LOAD_MISALIGNED, address)
            else if !InRam(ram, address, width) then
              && memory.Contents() == ram
              && result == (if IsStore(kind) then StoreFailed else LoadFailed)
              && record == Fault(tried, if IsStore(kind) then STORE_ACCESS else LOAD_ACCESS, address)
            else
              && memory.Contents() == (if IsStore(kind) then Store(ram, address, width, right) else ram)
              && result == Ok
              && record == step.(memory := MemoryEffect(true, true, IsStore(kind), width, address,
                                                        RawValue(ram, address, width),
                                                        RawValue(memory.Contents(), address, width)))
              && (IsLoad(kind) ==> value == Extend(kind, Load(ram, address, width)))
  {
    hide Digits, LittleEndian, Store, Load, Pow2, ExtendLoaded, Extend, TwosComplement, RawValue, Width;
    KindClasses(kind);
    var store := IsStore(kind);
    value := 0;
    record := step.(memory := MemoryEffect(true, false, store, width, address, 0, 0));
    if address % width != 0 {
      return if store then StoreMisaligned else LoadMisaligned,
             Fault(record, if store then STORE_MISALIGNED else LOAD_MISALIGNED, address), value;
    }
    var ok, previous := ReadWidth(memory, address, width);
    if !ok {
      return if store then StoreFailed else LoadFailed,
             Fault(record, if store then STORE_ACCESS else LOAD_ACCESS, address), value;
    }
    LoadBound(memory.Contents(), address, width);
    RawIsLoad(memory.Contents(), address, width);
    record := record.(memory := record.memory.(before := previous, after := previous));
    if store {
      var written;
      written, value := StoreValue(memory, address, width, right);
      if !written {
        assert false;
        return StoreFailed, Fault(record, STORE_ACCESS, address), value;
      }
      record := record.(memory := record.memory.(after := value));
    } else {
      ExtendLoadedMeaning(kind, previous);
      value := ExtendLoaded(kind, previous);
    }
    record := record.(memory := record.memory.(completed := true));
    return Ok, record, value;
  }

  class Cpu {
    const registers: array<Word>
    var programCounter: Word
    var instructionCount: Count
    var halted: bool

    constructor ()
      ensures Valid() && fresh(registers) && registers[..] == seq(32, i => 0)
      ensures programCounter == 0 && instructionCount == 0 && !halted
    {
      registers := new Word[32](i => 0);
      programCounter, instructionCount, halted := 0, 0, false;
    }

    predicate Valid() {
      registers.Length == 32
    }

    /** The architectural state this object and a RAM image represent. */
    function View(ram: seq<Byte>): Hart
      requires Valid()
      reads this, registers
    {
      Hart(registers[..], programCounter, instructionCount, halted, ram)
    }

    method Reset()
      requires Valid()
      modifies this, registers
      ensures registers[..] == seq(32, i => 0)
      ensures programCounter == 0 && instructionCount == 0 && !halted
    {
      forall i | 0 <= i < registers.Length {
        registers[i] := 0;
      }
      programCounter, instructionCount, halted := 0, 0, false;
    }

    method ReadRegister(index: nat) returns (ok: bool, value: Word)
      requires Valid()
      ensures ok == (index < 32)
      ensures ok ==> value == if index == 0 then 0 else registers[index]
    {
      if index >= 32 {
        return false, 0;
      }
      return true, if index == 0 then 0 else registers[index];
    }

    method WriteRegister(index: nat, value: Word) returns (ok: bool)
      requires Valid()
      modifies registers
      ensures ok == (index < 32)
      ensures registers[..] == if ok && index != 0 then old(registers[..])[index := value] else old(registers[..])
    {
      if index >= 32 {
        return false;
      }
      if index != 0 {
        registers[index] := value;
      }
      return true;
    }

    /** The architectural commit: the destination register, the program counter and the count. */
    method Commit(rd: Register, writesRegister: bool, value: Word, nextPc: Word, step: StepRecord, ghost ram: seq<Byte>)
      returns (result: StepResult, record: StepRecord)
      requires Valid()
      modifies this, registers
      ensures result == Ok && halted == old(halted)
      ensures var h := old(View(ram));
              && View(ram) == Retire(if writesRegister then SetReg(h, rd, value) else h, nextPc)
              && record == if writesRegister then step.(reg := WriteEffect(Reg(h, rd), rd, value)) else step
    {
      record := step;
      if writesRegister {
        var before: Word := if rd == 0 then 0 else registers[rd];
        var after: Word := if rd == 0 then 0 else value;
        record := record.(reg := RegisterEffect(true, rd, value, before, after, before != after));
        var written := WriteRegister(rd, value);
        if !written {
          assert false;
          return InvalidArgument, record;
        }
      }
      programCounter := nextPc;
      instructionCount := (instructionCount + 1) % 0x1_0000_0000_0000_0000;
      return Ok, record;
    }

    /** The part of an instruction after its next program counter is settled: data access, then commit. */
    method Complete(memory: Memory, d: Decoded, ghost w: Word, s: Selection, nextPc: Word, left: Word, right: Word,
                    step: StepRecord)
      returns (result: StepResult, record: StepRecord)
      requires Valid() && registers as object != memory.bytes as object
      requires var h := View(memory.Contents());
               && Running(h, w) && d.kind == KindOf(w) && d.fields.rd == Rd(w)
               && left == Reg(h, Rs1(w)) && right == Reg(h, Rs2(w))
               && s.transfer == Jumps(h, w) && nextPc == NextPc(h, w) && (s.transfer ==> nextPc % 4 == 0)
               && s.store == IsStore(d.kind) && s.width == Width(d.kind) && s.writesRegister == HasDestination(d.kind)
               && (HasDestination(d.kind) && !IsLoad(d.kind) ==> s.value == Result(d.kind, w, h.pc, left, right))
               && (AccessesData(w) ==> Add32(left, d.immediate) == AddressOf(h, w))
      requires Fresh(step, programCounter)
      modifies this, registers, memory.bytes
      ensures var h := old(View(memory.Contents()));
              View(memory.Contents()) == After(h) && result == ResultAfter(h) && record == KnownRecord(step, h, w)
    {
      hide Decode, Transfers, Target, Result, Store, Load, Extend, RawValue, InRam, KindOf, KnownRecord, DataAddress;
      hide NextPc;
      hide After, ResultAfter, TrapAfter, Fetched, Fetchable, Rd, Rs1, Rs2, Jumps, Reg, IsLoad, IsStore, HasDestination;
      hide Width, SetReg, Retire;
      ghost var h := View(memory.Contents());
      var value := s.value;
      record := Operands(step, left, right).(branchTaken := s.transfer);
      KindClasses(d.kind);
      if s.width != 0 {
        var address := Add32(left, d.immediate);
        result, record, value := AccessData(memory, d.kind, address, s.width, right, record);
        if result != Ok {
          DataDoesNotJump(h, w);
          EndsInDataTrap(step, h, w, address % s.width != 0);
          return;
        }
      }
      EndsRetiredState(h, w);
      EndsRetired(step, h, w);
      result, record := Commit(d.fields.rd, s.writesRegister, value, nextPc, record, memory.Contents());
    }

    /** Run a decoded instruction that is known and is neither ECALL nor EBREAK. */
    method ExecuteKnown(memory: Memory, d: Decoded, ghost w: Word, step: StepRecord)
      returns (result: StepResult, record: StepRecord)
      requires Valid() && registers as object != memory.bytes as object
      requires !halted && Fetchable(View(memory.Contents())) && w == Fetched(View(memory.Contents()))
      requires d == Decode(w) && d.kind != UNKNOWN && d.kind != ECALL && d.kind != EBREAK
      requires Fresh(step, programCounter)
      modifies this, registers, memory.bytes
      ensures var h := old(View(memory.Contents()));
              View(memory.Contents()) == After(h) && result == ResultAfter(h) && record == KnownRecord(step, h, w)
    {
      hide Decode, Select, KindOf, KnownRecord, After, ResultAfter, TrapAfter, Fetched, Fetchable, Rs1, Rs2, Rd, NextPc;
      hide Jumps;
      hide HasDestination, IsStore, IsLoad, Width, Result, AddressOf, AccessesData;
      ghost var h := View(memory.Contents());
      DecodeKind(w);
      DecodedFields(w);
      SwitchFacts(h, w);
      var f := d.fields;
      var pc := programCounter;
      var leftOk, left := ReadRegister(f.rs1);
      var rightOk, right := ReadRegister(f.rs2);
      if !leftOk || !rightOk {
        assert false;
        return InvalidArgument, step;
      }
      assert left == Reg(h, Rs1(w)) && right == Reg(h, Rs2(w));
      var s := Select(d.kind, d.immediate, pc, left, right);
      var nextPc := s.nextPc;
      if d.format == FormatB && s.transfer {
        nextPc := Add32(pc, d.immediate);
      }
      if s.transfer && nextPc % 4 != 0 {
        EndsInTransferTrap(step, h, w);
        return MisalignedPc, Fault(Operands(step, left, right), INSTRUCTION_MISALIGNED, nextPc);
      }
      result, record := Complete(memory, d, w, s, nextPc, left, right, step);
    }

    /** ECALL and EBREAK: read the operands, then trap. */
    method ExecuteSystem(d: Decoded, ghost w: Word, step: StepRecord) returns (result: StepResult, record: StepRecord)
      requires Valid() && d == Decode(w) && (d.kind == ECALL || d.kind == EBREAK) && step.pcBefore == programCounter
      ensures var h := View([]);
              var read := Operands(step, Reg(h, Rs1(w)), Reg(h, Rs2(w)));
              if d.kind == ECALL then result == Ecall && record == Fault(read, USER_ECALL, 0)
              else result == Breakpoint && record == Fault(read, BREAKPOINT, step.pcBefore)
    {
      hide Decode, Rs1, Rs2;
      DecodedFields(w);
      var leftOk, left := ReadRegister(d.fields.rs1);
      var rightOk, right := ReadRegister(d.fields.rs2);
      if !leftOk || !rightOk {
        assert false;
        return InvalidArgument, step;
      }
      record := Operands(step, left, right);
      if d.kind == ECALL {
        return Ecall, Fault(record, USER_ECALL, 0);
      } else {
        return Breakpoint, Fault(record, BREAKPOINT, programCounter);
      }
    }

    /** Fetch, decode and run one instruction. */
    method Execute(memory: Memory, step: StepRecord) returns (result: StepResult, record: StepRecord)
      requires Valid() && registers as object != memory.bytes as object
      requires step == Start(View(memory.Contents()))
      modifies this, registers, memory.bytes
      ensures var h := old(View(memory.Contents()));
              View(memory.Contents()) == After(h) && result == ResultAfter(h)
              && Finish(record, result, After(h)) == RecordOf(h)
    {
      hide Decode, KindOf, RecordOf, After, ResultAfter, TrapAfter, KnownRecord, Load, Rs1, Rs2;
      hide Start, Fault, Finish, Operands, Fresh;
      StartIsFresh(View(memory.Contents()));
      ghost var h := View(memory.Contents());
      record := step;
      if halted {
        HaltedRecord(h);
        return Halted, record;
      }
      var pc := programCounter;
      if pc % 4 != 0 {
        FetchTrapRecord(h);
        return MisalignedPc, Fault(record, INSTRUCTION_MISALIGNED, pc);
      }
      AccessCheck(memory, pc, 4);
      var fetched, word := memory.ReadU32(pc);
      if !fetched {
        FetchTrapRecord(h);
        return FetchFailed, Fault(record, INSTRUCTION_ACCESS, pc);
      }
      var d := Decode(word);
      DecodeKind(word);
      assert word == Fetched(h);
      record := record.(fetched := true, instruction := d);
      if d.kind == UNKNOWN {
        UnknownRecord(h, word);
        return UnknownInstruction, Fault(record, ILLEGAL_INSTRUCTION, word);
      }
      if d.kind == ECALL || d.kind == EBREAK {
        SystemRecord(h, word);
        result, record := ExecuteSystem(d, word, record);
        return;
      }
      RunningRecord(h, word);
      result, record := ExecuteKnown(memory, d, word, record);
    }

    /** `cpu_step_recorded`: one attempt and its full record. */
    method StepRecorded(memory: Memory) returns (result: StepResult, record: StepRecord)
      requires Valid() && registers as object != memory.bytes as object
      modifies this, registers, memory.bytes
      ensures var h := old(View(memory.Contents()));
              View(memory.Contents()) == After(h) && result == ResultAfter(h) && record == RecordOf(h)
    {
      hide RecordOf, After, ResultAfter;
      var step := EMPTY_RECORD.(pcBefore := programCounter, pcAfter := programCounter,
                                countBefore := instructionCount, countAfter := instructionCount);
      result, record := Execute(memory, step);
      record := record.(result := result, pcAfter := programCounter, countAfter := instructionCount);
    }
  }

  lemma StartIsFresh(h: Hart)
    ensures Start(h).pcBefore == h.pc
    ensures forall d :: Fresh(Start(h).(fetched := true, instruction := d), h.pc)
    ensures forall cause, value :: Fault(Start(h), cause, value).trap.instructionAddress == h.pc
  {
  }

  /** The decoded switch agrees with the reference on everything that happens before memory is touched. */
  lemma SwitchFacts(h: Hart, w: Word)
    requires Running(h, w)
    ensures Decode(w).kind == KindOf(w)
    ensures var d, left, right := Decode(w), Reg(h, Rs1(w)), Reg(h, Rs2(w));
            var s := Select(d.kind, d.immediate, h.pc, left, right);
            && s.transfer == Jumps(h, w)
            && (if d.format == FormatB && s.transfer then Add32(h.pc, d.immediate) else s.nextPc) == NextPc(h, w)
            && s.store == IsStore(d.kind) && s.width == Width(d.kind) && s.writesRegister == HasDestination(d.kind)
            && (HasDestination(d.kind) && !IsLoad(d.kind) ==> s.value == Result(d.kind, w, h.pc, left, right))
            && (AccessesData(w) ==> Add32(left, d.immediate) == AddressOf(h, w))
  {
    hide Decode, Select, Transfers, Target, Result, DataAddress, KindOf, ImmI, ImmS, ImmB, ImmJ, ImmU, Rd, Rs1, Rs2;
    hide Reg, Fetched;
    hide Fetchable, HasDestination, Width, Wrap;
    var d, left, right := Decode(w), Reg(h, Rs1(w)), Reg(h, Rs2(w));
    DecodeKind(w);
    DecodeImmediate(w);
    SelectMeaning(w, h.pc, left, right);
    TransferKinds(d.kind, left, right);
    TargetOfBranch(w, d.immediate, h.pc, left);
    if AccessesData(w) {
      DataAddressMeaning(w, d.immediate, left);
    }
  }

  lemma TargetOfBranch(w: Word, imm: Word, pc: Word, left: Word)
    requires IsBranch(KindOf(w)) ==> Denotes(imm, ImmB(w))
    ensures IsBranch(KindOf(w)) ==> Target(KindOf(w), w, pc, left) == Add32(pc, imm)
  {
    hide ImmB, KindOf;
  }

  lemma DataAddressMeaning(w: Word, imm: Word, left: Word)
    requires AccessesData(w) && Denotes(imm, if IsStore(KindOf(w)) then ImmS(w) else ImmI(w))
    ensures DataAddress(KindOf(w), w, left) == Add32(left, imm)
  {
    hide ImmS, ImmI, KindOf;
  }

  lemma DataDoesNotJump(h: Hart, w: Word)
    requires AccessesData(w)
    ensures !Jumps(h, w)
  {
    hide KindOf, Reg;
  }
}
