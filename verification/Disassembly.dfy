/** Instruction text: the printer, and how long its output gets. */
module Disassembly {
  import opened Bits
  import opened Isa
  import opened Instruction
  import opened Encoding

  // ----- Number formats -----

  function DigitChar(d: nat): char
    requires d < 16
  {
    if d < 10 then '0' + d as char else 'A' + (d - 10) as char
  }

  /** `%u`: decimal without leading zeros. */
  function Decimal(n: nat): string {
    if n < 10 then [DigitChar(n)] else Decimal(n / 10) + [DigitChar(n % 10)]
  }

  /** `%d`. */
  function SignedDecimal(v: int): string {
    if v < 0 then ['-'] + Decimal(-v) else Decimal(v)
  }

  /** `%0nX` of a value of at most `n` hexadecimal digits. */
  function Hex(v: nat, n: nat): (s: string)
    ensures |s| == n
  {
    if n == 0 then [] else Hex(v / 16, n - 1) + [DigitChar(v % 16)]
  }

  // ----- The printer -----

  /** The name table. */
  function Name(k: Kind): string {
    match k
    case UNKNOWN => "unknown"
    case ADD => "add"
    case SUB => "sub"
    case SLL => "sll"
    case SLT => "slt"
    case SLTU => "sltu"
    case XOR => "xor"
    case SRL => "srl"
    case SRA => "sra"
    case OR => "or"
    case AND => "and"
    case ADDI => "addi"
    case SLTI => "slti"
    case SLTIU => "sltiu"
    case XORI => "xori"
    case ORI => "ori"
    case ANDI => "andi"
    case SLLI => "slli"
    case SRLI => "srli"
    case SRAI => "srai"
    case LUI => "lui"
    case AUIPC => "auipc"
    case JAL => "jal"
    case JALR => "jalr"
    case BEQ => "beq"
    case BNE => "bne"
    case BLT => "blt"
    case BGE => "bge"
    case BLTU => "bltu"
    case BGEU => "bgeu"
    case LB => "lb"
    case LH => "lh"
    case LW => "lw"
    case LBU => "lbu"
    case LHU => "lhu"
    case SB => "sb"
    case SH => "sh"
    case SW => "sw"
    case FENCE => "fence"
    case ECALL => "ecall"
    case EBREAK => "ebreak"
  }

  /** What a text begins with: the name, except that unknown words print as `.word`. */
  function Mnemonic(k: Kind): string {
    if k.UNKNOWN? then ".word" else Name(k)
  }

  function RegisterName(i: Register): string {
    ['x'] + Decimal(i)
  }

  /** Operands that name a register and an offset from another one. */
  predicate HasOffsetOperand(k: Kind) {
    IsStore(k) || IsLoad(k) || k.JALR?
  }

  /** The three ordering fields of a FENCE: predecessors, successors and mode. */
  function FenceFields(w: Word): (nat, nat, nat) {
    (And(Shr(w, 24), 15), And(Shr(w, 20), 15), Shr(w, 28))
  }

  function FenceOperands(fields: (nat, nat, nat)): string {
    "pred=0x" + Hex(fields.0, 1) + ", succ=0x" + Hex(fields.1, 1) + ", fm=0x" + Hex(fields.2, 1)
  }

  /** Register, register-register and register-offset operand lists. */
  function Three(a: string, b: string, c: string): string {
    a + [','] + ([' '] + b + [','] + ([' '] + c))
  }

  function Two(a: string, b: string): string {
    a + [','] + ([' '] + b)
  }

  function OffsetFrom(a: string, offset: string, base: string): string {
    a + [','] + ([' '] + offset + ['('] + (base + [')']))
  }

  /** The operands of a decoded instruction other than FENCE, ECALL, EBREAK and unknown words. */
  function PlainOperands(d: Decoded): string {
    var f := d.fields;
    var imm := SignedValue(d.immediate);
    match d.format
    case FormatR => Three(RegisterName(f.rd), RegisterName(f.rs1), RegisterName(f.rs2))
    case FormatU => Two(RegisterName(f.rd), "0x" + Hex(Shr(d.immediate, 12), 5))
    case FormatJ => Two(RegisterName(f.rd), SignedDecimal(imm))
    case FormatB => Three(RegisterName(f.rs1), RegisterName(f.rs2), SignedDecimal(imm))
    case FormatS => OffsetFrom(RegisterName(f.rs2), SignedDecimal(imm), RegisterName(f.rs1))
    case _ =>
      if HasOffsetOperand(d.kind) then OffsetFrom(RegisterName(f.rd), SignedDecimal(imm), RegisterName(f.rs1))
      else Three(RegisterName(f.rd), RegisterName(f.rs1), SignedDecimal(imm))
  }

  /** Everything after the mnemonic and its space. */
  function OperandText(w: Word): string {
    var d := Decode(w);
    if d.kind == UNKNOWN then "0x" + Hex(w, 8)
    else if d.kind == FENCE then FenceOperands(FenceFields(w))
    else if d.kind == ECALL || d.kind == EBREAK then ""
    else PlainOperands(d)
  }

  /** The complete text of a word. */
  function Text(w: Word): string {
    var k := Decode(w).kind;
    if k == ECALL || k == EBREAK then Mnemonic(k) else Mnemonic(k) + [' '] + OperandText(w)
  }

  /** `instruction_disassemble` into a buffer of `capacity` characters: `snprintf` keeps what fits before the
      terminator, and the call succeeds when nothing was cut. */
  function Disassemble(w: Word, capacity: nat): (bool, string) {
    if capacity == 0 then (false, "")
    else if |Text(w)| < capacity then (true, Text(w))
    else (false, Text(w)[..capacity - 1])
  }

  // ----- Characters -----

  predicate AllDigits(s: string) {
    forall i :: 0 <= i < |s| ==> '0' <= s[i] <= '9'
  }

  lemma {:induction false} DecimalDigits(n: nat)
    ensures AllDigits(Decimal(n)) && |Decimal(n)| >= 1
  {
    if n >= 10 {
      DecimalDigits(n / 10);
    }
  }

  predicate Lacks(s: string, c: char) {
    forall i :: 0 <= i < |s| ==> s[i] != c
  }

  lemma MnemonicShape(k: Kind)
    ensures 2 <= |Mnemonic(k)| <= 6 && Lacks(Mnemonic(k), ' ')
  {
    hide Lacks;
    MnemonicLacks(k);
  }

  lemma MnemonicLacks(k: Kind)
    ensures Lacks(Mnemonic(k), ' ')
  {
  }

  // ----- Length -----

  function Pow10(k: nat): nat {
    if k == 0 then 1 else 10 * Pow10(k - 1)
  }

  lemma {:induction false} DecimalLength(n: nat, k: nat)
    requires k >= 1 && n < Pow10(k)
    ensures |Decimal(n)| <= k
    decreases k
  {
    if n >= 10 {
      assert k > 1;
      DecimalLength(n / 10, k - 1);
    }
  }

  lemma RegisterLength(i: Register)
    ensures |RegisterName(i)| <= 3
  {
    DecimalLength(i, 2);
  }

  /** Jump offsets are the longest: a sign and seven digits. */
  lemma ImmediateLength(w: Word)
    requires Decode(w).kind != UNKNOWN && Decode(w).format != FormatU
    ensures |SignedDecimal(SignedValue(Decode(w).immediate))| <= 8
    ensures Decode(w).format != FormatJ ==> |SignedDecimal(SignedValue(Decode(w).immediate))| <= 5
  {
    hide Decode;
    DecodeImmediate(w);
    var v := SignedValue(Decode(w).immediate);
    ImmediateRange(w, Decode(w).kind);
    assert Pow10(4) == 1_0000 && Pow10(7) == 1000_0000;
    DecimalLength(if v < 0 then -v else v, 7);
    if Decode(w).format != FormatJ {
      DecimalLength(if v < 0 then -v else v, 4);
    }
  }

  lemma ImmediateRange(w: Word, k: Kind)
    requires FormatOf(k) != FormatU
    ensures -0x10_0000 <= Immediate(k, w) <= 0x10_0000
    ensures FormatOf(k) != FormatJ ==> -0x1000 <= Immediate(k, w) <= 0x1000
  {
    hide Or, And, Shr, Shl, SImmediateBits, BImmediateBits, JImmediateBits;
    SBitsMeaning(w);
    BBitsMeaning(w);
    JBitsMeaning(w);
  }

  lemma FenceOperandsLength(fields: (nat, nat, nat))
    ensures |FenceOperands(fields)| == 26
  {
    hide Hex;
  }

  lemma UnknownAndFence()
    ensures |Mnemonic(UNKNOWN)| == 5 && |Mnemonic(FENCE)| == 5
  {
  }

  /** Every text fits in 32 characters, so a buffer of 33 never cuts one. */
  lemma TextLength(w: Word)
    ensures |Text(w)| <= 32
  {
    hide Decode, Mnemonic, PlainOperands, FenceFields, FenceOperands, Hex;
    FenceOperandsLength(FenceFields(w));
    UnknownAndFence();
    var d := Decode(w);
    MnemonicShape(d.kind);
    if d.kind == UNKNOWN || d.kind == FENCE || d.kind == ECALL || d.kind == EBREAK {
    } else {
      PlainLength(w);
    }
  }

  lemma PlainLength(w: Word)
    requires !Decode(w).kind.UNKNOWN? && !IsSystem(Decode(w).kind)
    ensures |PlainOperands(Decode(w))| <= 25
  {
    hide Decode, RegisterName, SignedDecimal, Hex, Shr, SignedValue;
    var d := Decode(w);
    RegisterLength(d.fields.rd);
    RegisterLength(d.fields.rs1);
    RegisterLength(d.fields.rs2);
    if d.format != FormatU {
      ImmediateLength(w);
    }
  }

  /** The bound is met: a FENCE with any ordering bits prints 32 characters. */
  lemma LongestText(w: Word)
    requires Decode(w).kind == FENCE
    ensures |Text(w)| == 32
  {
    hide Decode, Mnemonic, PlainOperands, FenceFields, FenceOperands, Hex;
    FenceOperandsLength(FenceFields(w));
    UnknownAndFence();
  }

  /** Data words print eight digits and upper immediates five, zeros included; decimal numbers have no leading zero. */
  lemma FixedWidths(w: Word, n: nat)
    ensures Decode(w).kind == UNKNOWN ==> |Text(w)| == |".word 0x"| + 8
    ensures Decode(w).kind != UNKNOWN && Decode(w).format == FormatU ==>
              |OperandText(w)| == |RegisterName(Decode(w).fields.rd)| + |", 0x"| + 5
    ensures n > 0 ==> Decimal(n)[0] != '0'
  {
    hide Decode, Mnemonic, Hex, RegisterName, Decimal;
    UnknownAndFence();
    DecodeImmediateFormat(w);
    NoLeadingZero(n);
  }

  lemma DecodeImmediateFormat(w: Word)
    ensures Decode(w).kind != UNKNOWN && Decode(w).format == FormatU ==> !IsSystem(Decode(w).kind)
  {
    hide Decode;
    if Decode(w).kind != UNKNOWN {
      DecodeImmediate(w);
    }
  }

  lemma {:induction false} NoLeadingZero(n: nat)
    ensures Decimal(n) != "" && (n > 0 ==> Decimal(n)[0] != '0')
  {
    if n >= 10 {
      NoLeadingZero(n / 10);
    }
  }

  /** With room for 33 characters disassembly always succeeds with the complete text, and the text shown in any buffer
      is a prefix of it that is complete exactly on success. */
  lemma NeverTruncates(w: Word, capacity: nat)
    ensures capacity >= 33 ==> Disassemble(w, capacity) == (true, Text(w))
    ensures Disassemble(w, capacity).0 <==> |Text(w)| < capacity
    ensures Disassemble(w, capacity).1 <= Text(w)
            && (Disassemble(w, capacity).0 ==> Disassemble(w, capacity).1 == Text(w))
    ensures capacity > 0 ==> |Disassemble(w, capacity).1| < capacity
  {
    hide Text;
    TextLength(w);
  }
}
