/** RV32I as integer arithmetic: the reference the simulator is measured against.

Nothing here is taken from the simulator's C code. Encodings are a table of bit patterns, immediates
are signed integers read off their bit positions, and every operation is stated on the numbers a
register denotes (RISC-V Unprivileged ISA, sections 2.2 to 2.8). */
module Isa {
  import opened Bits
  import opened Bytes

  datatype Kind =
    | UNKNOWN
    | ADD | SUB | SLL | SLT | SLTU | XOR | SRL | SRA | OR | AND
    | ADDI | SLTI | SLTIU | XORI | ORI | ANDI | SLLI | SRLI | SRAI
    | LUI | AUIPC | JAL | JALR
    | BEQ | BNE | BLT | BGE | BLTU | BGEU
    | LB | LH | LW | LBU | LHU
    | SB | SH | SW
    | FENCE | ECALL | EBREAK

  // ----- Encodings -----

  function Opcode(w: Word): nat { w % 0x80 }
  function Rd(w: Word): Register { w / 0x80 % 32 }
  function Funct3(w: Word): nat { w / 0x1000 % 8 }
  function Rs1(w: Word): Register { w / 0x8000 % 32 }
  function Rs2(w: Word): Register { w / 0x10_0000 % 32 }
  function Funct7(w: Word): nat { w / 0x200_0000 }

  /** Which bits of a word select an operation. */
  datatype Pattern =
    | Major(opcode: nat)
    | Minor(opcode: nat, funct3: nat)
    | Full(opcode: nat, funct3: nat, funct7: nat)
    | Whole(word: Word)
    | Nothing

  function PatternOf(k: Kind): Pattern {
    match k
    case UNKNOWN => Nothing
    case ADD => Full(0x33, 0, 0)
    case SUB => Full(0x33, 0, 0x20)
    case SLL => Full(0x33, 1, 0)
    case SLT => Full(0x33, 2, 0)
    case SLTU => Full(0x33, 3, 0)
    case XOR => Full(0x33, 4, 0)
    case SRL => Full(0x33, 5, 0)
    case SRA => Full(0x33, 5, 0x20)
    case OR => Full(0x33, 6, 0)
    case AND => Full(0x33, 7, 0)
    case ADDI => Minor(0x13, 0)
    case SLTI => Minor(0x13, 2)
    case SLTIU => Minor(0x13, 3)
    case XORI => Minor(0x13, 4)
    case ORI => Minor(0x13, 6)
    case ANDI => Minor(0x13, 7)
    case SLLI => Full(0x13, 1, 0)
    case SRLI => Full(0x13, 5, 0)
    case SRAI => Full(0x13, 5, 0x20)
    case LUI => Major(0x37)
    case AUIPC => Major(0x17)
    case JAL => Major(0x6F)
    case JALR => Minor(0x67, 0)
    case BEQ => Minor(0x63, 0)
    case BNE => Minor(0x63, 1)
    case BLT => Minor(0x63, 4)
    case BGE => Minor(0x63, 5)
    case BLTU => Minor(0x63, 6)
    case BGEU => Minor(0x63, 7)
    case LB => Minor(0x03, 0)
    case LH => Minor(0x03, 1)
    case LW => Minor(0x03, 2)
    case LBU => Minor(0x03, 4)
    case LHU => Minor(0x03, 5)
    case SB => Minor(0x23, 0)
    case SH => Minor(0x23, 1)
    case SW => Minor(0x23, 2)
    case FENCE => Minor(0x0F, 0)
    case ECALL => Whole(0x0000_0073)
    case EBREAK => Whole(0x0010_0073)
  }

  predicate Matches(k: Kind, w: Word) {
    match PatternOf(k)
    case Nothing => false
    case Major(op) => Opcode(w) == op
    case Minor(op, f3) => Opcode(w) == op && Funct3(w) == f3
    case Full(op, f3, f7) => Opcode(w) == op && Funct3(w) == f3 && Funct7(w) == f7
    case Whole(word) => w == word
  }

  /** The operation a word encodes: the one whose pattern it matches. */
  ghost function KindOf(w: Word): Kind {
    if k: Kind :| Matches(k, w) then k else UNKNOWN
  }

  // ----- Immediates, as signed integers -----

  /** The two's-complement reading of a number below `2 * half`. */
  function TwosComplement(v: nat, half: nat): int {
    if v < half then v else v - 2 * half
  }

  function Signed(x: Word): int {
    TwosComplement(x, 0x8000_0000)
  }

  function ImmI(w: Word): int { TwosComplement(w / 0x10_0000, 0x800) }

  function ImmS(w: Word): int { TwosComplement(w / 0x200_0000 * 32 + w / 0x80 % 32, 0x800) }

  /** imm[12|10:5|4:1|11] from bits 31, 30:25, 11:8 and 7. */
  function ImmB(w: Word): int {
    TwosComplement(w / 0x8000_0000 * 0x1000 + w / 0x80 % 2 * 0x800
                   + w / 0x200_0000 % 64 * 32 + w / 0x100 % 16 * 2, 0x1000)
  }

  function ImmU(w: Word): int { w / 0x1000 * 0x1000 }

  /** imm[20|10:1|11|19:12] from bits 31, 30:21, 20 and 19:12. */
  function ImmJ(w: Word): int {
    TwosComplement(w / 0x8000_0000 * 0x10_0000 + w / 0x1000 % 256 * 0x1000
                   + w / 0x10_0000 % 2 * 0x800 + w / 0x20_0000 % 1024 * 2, 0x10_0000)
  }

  // ----- Architectural state -----

  type Registers = x: seq<Word> | |x| == 32 witness seq(32, i => 0)
  type Count = c: int | 0 <= c < 0x1_0000_0000_0000_0000

  datatype Hart = Hart(x: Registers, pc: Word, count: Count, halted: bool, ram: seq<Byte>)

  datatype Cause =
    | INSTRUCTION_MISALIGNED | INSTRUCTION_ACCESS | ILLEGAL_INSTRUCTION | BREAKPOINT
    | LOAD_MISALIGNED | LOAD_ACCESS | STORE_MISALIGNED | STORE_ACCESS | USER_ECALL

  datatype Outcome = Retired(hart: Hart) | Trap(cause: Cause, value: Word)

  type Register = i: nat | i < 32

  /** x0 reads as zero. */
  function Reg(h: Hart, i: Register): Word {
    if i == 0 then 0 else h.x[i]
  }

  /** Writes to x0 are discarded. */
  function SetReg(h: Hart, i: Register, v: Word): Hart {
    if i == 0 then h else h.(x := h.x[i := v])
  }

  function Retire(h: Hart, pc: Word): Hart {
    h.(pc := pc, count := (h.count + 1) % 0x1_0000_0000_0000_0000)
  }

  /** RAM sizes the simulator supports: 4 bytes to 256 MiB in multiples of four. */
  predicate SizeValid(size: nat) {
    4 <= size <= 0x1000_0000 && size % 4 == 0
  }

  predicate InRam(ram: seq<Byte>, address: nat, width: nat) {
    SizeValid(|ram|) && address + width <= |ram|
  }

  // ----- Operations -----

  predicate IsBranch(k: Kind) { k.BEQ? || k.BNE? || k.BLT? || k.BGE? || k.BLTU? || k.BGEU? }
  predicate IsJump(k: Kind) { k.JAL? || k.JALR? }
  predicate IsLoad(k: Kind) { k.LB? || k.LH? || k.LW? || k.LBU? || k.LHU? }
  predicate IsStore(k: Kind) { k.SB? || k.SH? || k.SW? }

  /** Operations that name a destination register. */
  predicate HasDestination(k: Kind) {
    !k.UNKNOWN? && !IsBranch(k) && !IsStore(k) && !k.FENCE? && !k.ECALL? && !k.EBREAK?
  }

  function Flag(b: bool): Word { if b then 1 else 0 }

  /** The value an operation other than a load puts in its destination, for operands `a` and `b`. */
  function Result(k: Kind, w: Word, pc: Word, a: Word, b: Word): Word {
    Operators32(a, b);
    Operators32(a, Wrap(ImmI(w)));
    match k
    case ADD => Wrap(a + b)
    case SUB => Wrap(a - b)
    case SLL => Wrap(a * Pow2(b % 32))
    case SLT => Flag(Signed(a) < Signed(b))
    case SLTU => Flag(a < b)
    case XOR => Xor(a, b)
    case SRL => Wrap(a / Pow2(b % 32))
    case SRA => Wrap(Signed(a) / Pow2(b % 32))
    case OR => Or(a, b)
    case AND => And(a, b)
    case ADDI => Wrap(a + ImmI(w))
    case SLTI => Flag(Signed(a) < ImmI(w))
    case SLTIU => Flag(a < Wrap(ImmI(w)))
    case XORI => Xor(a, Wrap(ImmI(w)))
    case ORI => Or(a, Wrap(ImmI(w)))
    case ANDI => And(a, Wrap(ImmI(w)))
    case SLLI => Wrap(a * Pow2(Rs2(w)))
    case SRLI => Wrap(a / Pow2(Rs2(w)))
    case SRAI => Wrap(Signed(a) / Pow2(Rs2(w)))
    case LUI => Wrap(ImmU(w))
    case AUIPC => Wrap(pc + ImmU(w))
    case JAL => Wrap(pc + 4)
    case JALR => Wrap(pc + 4)
    case _ => 0
  }

  /** Whether control leaves the next sequential instruction. */
  predicate Transfers(k: Kind, a: Word, b: Word) {
    match k
    case BEQ => a == b
    case BNE => a != b
    case BLT => Signed(a) < Signed(b)
    case BGE => Signed(a) >= Signed(b)
    case BLTU => a < b
    case BGEU => a >= b
    case JAL => true
    case JALR => true
    case _ => false
  }

  /** Branches and JAL are relative to their own address; JALR clears bit zero. */
  function Target(k: Kind, w: Word, pc: Word, a: Word): Word {
    match k
    case JAL => Wrap(pc + ImmJ(w))
    case JALR => var t := Wrap(a + ImmI(w)); t - t % 2
    case _ => Wrap(pc + ImmB(w))
  }

  function Width(k: Kind): nat {
    match k
    case LB => 1 case LBU => 1 case SB => 1
    case LH => 2 case LHU => 2 case SH => 2
    case LW => 4 case SW => 4
    case _ => 0
  }

  function DataAddress(k: Kind, w: Word, a: Word): Word {
    Wrap(a + (if IsStore(k) then ImmS(w) else ImmI(w)))
  }

  /** What a load puts in its destination: LB and LH read their bytes as two's complement. */
  function Extend(k: Kind, raw: nat): Word {
    if k == LB then Wrap(TwosComplement(raw, 0x80))
    else if k == LH then Wrap(TwosComplement(raw, 0x8000))
    else Wrap(raw)
  }

  /** The effect of one instruction word on a hart. */
  ghost function Execute(h: Hart, w: Word): Outcome {
    var k := KindOf(w);
    var a, b := Reg(h, Rs1(w)), Reg(h, Rs2(w));
    var next := Wrap(h.pc + 4);
    if k == UNKNOWN then Trap(ILLEGAL_INSTRUCTION, w)
    else if k == ECALL then Trap(USER_ECALL, 0)
    else if k == EBREAK then Trap(BREAKPOINT, h.pc)
    else if Transfers(k, a, b) then
      var target := Target(k, w, h.pc, a);
      if target % 4 != 0 then Trap(INSTRUCTION_MISALIGNED, target)
      else Retired(Retire(if IsJump(k) then SetReg(h, Rd(w), next) else h, target))
    else if IsLoad(k) || IsStore(k) then
      var address, width := DataAddress(k, w, a), Width(k);
      if address % width != 0 then Trap(if IsStore(k) then STORE_MISALIGNED else LOAD_MISALIGNED, address)
      else if !InRam(h.ram, address, width) then Trap(if IsStore(k) then STORE_ACCESS else LOAD_ACCESS, address)
      else if IsStore(k) then Retired(Retire(h.(ram := Store(h.ram, address, width, b)), next))
      else Retired(Retire(SetReg(h, Rd(w), Extend(k, Load(h.ram, address, width))), next))
    else if HasDestination(k) then Retired(Retire(SetReg(h, Rd(w), Result(k, w, h.pc, a, b)), next))
    else Retired(Retire(h, next))
  }

  /** The instruction word at the program counter, when there is one. */
  predicate Fetchable(h: Hart) {
    h.pc % 4 == 0 && InRam(h.ram, h.pc, 4)
  }

  function Fetched(h: Hart): Word
    requires Fetchable(h)
  {
    LoadBound(h.ram, h.pc, 4);
    Load(h.ram, h.pc, 4)
  }

  /** One step of a running hart. */
  ghost function Step(h: Hart): Outcome {
    if h.pc % 4 != 0 then Trap(INSTRUCTION_MISALIGNED, h.pc)
    else if !InRam(h.ram, h.pc, 4) then Trap(INSTRUCTION_ACCESS, h.pc)
    else Execute(h, Fetched(h))
  }

  /** RAM is whole words: at least one, at most 256 MiB. */
  lemma SizeLimits(size: nat)
    ensures SizeValid(size) <==> 4 <= size <= 256 * 1024 * 1024 && size % 4 == 0
  {
  }
}
