/** The decoder: raw fields, sign extension and the opcode switch. */
module Instruction {
  import opened Bits
  import opened Isa

  datatype Format = FormatUnknown | FormatR | FormatI | FormatS | FormatB | FormatU | FormatJ

  datatype Fields = Fields(raw: Word, opcode: Byte, rd: Register, funct3: Byte, rs1: Register, rs2: Register,
                           funct7: Byte)

  datatype Decoded = Decoded(kind: Kind, fields: Fields, format: Format, immediate: Word)

  const NO_FIELDS := Fields(0, 0, 0, 0, 0, 0, 0)
  const NOTHING_DECODED := Decoded(UNKNOWN, NO_FIELDS, FormatUnknown, 0)

  const REGISTER_OPS := [ADD, SLL, SLT, SLTU, XOR, SRL, OR, AND]
  const IMMEDIATE_OPS := [ADDI, UNKNOWN, SLTI, SLTIU, XORI, UNKNOWN, ORI, ANDI]
  const BRANCHES := [BEQ, BNE, UNKNOWN, UNKNOWN, BLT, BGE, BLTU, BGEU]
  const LOADS := [LB, LH, LW, UNKNOWN, LBU, LHU, UNKNOWN, UNKNOWN]
  const STORES := [SB, SH, SW, UNKNOWN, UNKNOWN, UNKNOWN, UNKNOWN, UNKNOWN]

  const FUNCT7_BASE: Byte := 0
  const FUNCT7_ALTERNATE: Byte := 0x20

  /** `(value ^ sign) - sign` in `uint32_t`, with `sign` the top of `bits` bits. */
  function SignExtend(value: Word, bits: nat): Word
    requires 1 <= bits <= 32
  {
    var sign := Shl(1, bits - 1);
    Wrap(Xor(value, sign) - sign)
  }

  /** The number a 32-bit pattern denotes in two's complement, computed as in C. */
  function SignedValue(value: Word): int {
    if value <= 0x7FFF_FFFF then value else value - 0x1_0000_0000
  }

  /** Every slice is a shift followed by a mask of at most seven bits. */
  function Slice(word: Word, shift: nat, mask: Byte): (r: Byte)
    requires mask in {0x7F, 0x1F, 0x07}
    ensures r <= mask
  {
    SliceIs(word, shift, mask);
    And(Shr(word, shift), mask)
  }

  lemma SliceIs(word: Word, shift: nat, mask: Byte)
    requires mask in {0x7F, 0x1F, 0x07}
    ensures And(Shr(word, shift), mask) == word / Pow2(shift) % (mask + 1)
  {
    Powers();
    if mask == 0x7F {
      Piece(word, shift, 0, 7, Pow2(shift), 0x80, 0x7F);
    } else if mask == 0x1F {
      Piece(word, shift, 0, 5, Pow2(shift), 0x20, 0x1F);
    } else {
      Piece(word, shift, 0, 3, Pow2(shift), 0x8, 0x7);
    }
  }

  function ExtractFields(word: Word): Fields {
    Fields(word, Slice(word, 0, 0x7F), Slice(word, 7, 0x1F), Slice(word, 12, 0x07),
           Slice(word, 15, 0x1F), Slice(word, 20, 0x1F), Slice(word, 25, 0x7F))
  }

  /** `word >> 20`, sign-extended from 12 bits. */
  function IImmediate(word: Word): Word {
    SignExtend(Shr(word, 20), 12)
  }

  function SImmediateBits(word: Word): nat {
    Or(And(Shr(word, 20), 0xFE0), And(Shr(word, 7), 0x1F))
  }

  function BImmediateBits(word: Word): nat {
    Or(Or(Or(Shl(Shr(word, 31), 12), And(Wrap(Shl(word, 4)), 0x800)), And(Shr(word, 20), 0x7E0)),
       And(Shr(word, 7), 0x1E))
  }

  function JImmediateBits(word: Word): nat {
    Or(Or(Or(Shl(Shr(word, 31), 20), And(word, 0xF_F000)), And(Shr(word, 9), 0x800)), And(Shr(word, 20), 0x7FE))
  }

  /** `instruction_decode`. */
  function Decode(word: Word): Decoded {
    var f := ExtractFields(word);
    SliceMeaning(word);
    match f.opcode
    case 0x33 =>
      Decoded(if f.funct7 == FUNCT7_BASE then REGISTER_OPS[f.funct3]
              else if f.funct7 == FUNCT7_ALTERNATE && f.funct3 == 0 then SUB
              else if f.funct7 == FUNCT7_ALTERNATE && f.funct3 == 5 then SRA
              else UNKNOWN, f, FormatR, 0)
    case 0x13 =>
      if f.funct3 == 1 || f.funct3 == 5 then
        Decoded(if f.funct7 == FUNCT7_BASE then (if f.funct3 == 1 then SLLI else SRLI)
                else if f.funct3 == 5 && f.funct7 == FUNCT7_ALTERNATE then SRAI
                else UNKNOWN, f, FormatI, f.rs2)
      else
        Decoded(IMMEDIATE_OPS[f.funct3], f, FormatI, IImmediate(word))
    case 0x37 => Decoded(LUI, f, FormatU, UImmediate(word))
    case 0x17 => Decoded(AUIPC, f, FormatU, UImmediate(word))
    case 0x6F => Decoded(JAL, f, FormatJ, JImmediate(word))
    case 0x67 => Decoded(if f.funct3 == 0 then JALR else UNKNOWN, f, FormatI, IImmediate(word))
    case 0x63 => Decoded(BRANCHES[f.funct3], f, FormatB, BImmediate(word))
    case 0x03 => Decoded(LOADS[f.funct3], f, FormatI, IImmediate(word))
    case 0x23 => Decoded(STORES[f.funct3], f, FormatS, SImmediate(word))
    case 0x0F => Decoded(if f.funct3 == 0 then FENCE else UNKNOWN, f, FormatI, 0)
    case 0x73 =>
      Decoded(if word == 0x0000_0073 then ECALL else if word == 0x0010_0073 then EBREAK else UNKNOWN, f, FormatI, 0)
    case _ => Decoded(UNKNOWN, f, FormatUnknown, 0)
  }

  function SImmediate(word: Word): Word {
    SBitsMeaning(word);
    SignExtend(SImmediateBits(word), 12)
  }

  function BImmediate(word: Word): Word {
    BBitsMeaning(word);
    SignExtend(BImmediateBits(word), 13)
  }

  function UImmediate(word: Word): Word {
    Operators32(word, 0xFFFF_F000);
    And(word, 0xFFFF_F000)
  }

  function JImmediate(word: Word): Word {
    JBitsMeaning(word);
    SignExtend(JImmediateBits(word), 21)
  }

  // ----- What the bit expressions mean -----

  lemma SliceMeaning(word: Word)
    ensures var f := ExtractFields(word);
            f.opcode == Opcode(word) && f.rd == Rd(word) && f.funct3 == Funct3(word)
            && f.rs1 == Rs1(word) && f.rs2 == Rs2(word) && f.funct7 == Funct7(word)
  {
    hide And, Shr;
    Powers();
    Piece(word, 0, 0, 7, 0x1, 0x80, 0x7F);
    Piece(word, 7, 0, 5, 0x80, 0x20, 0x1F);
    Piece(word, 12, 0, 3, 0x1000, 0x8, 0x7);
    Piece(word, 15, 0, 5, 0x8000, 0x20, 0x1F);
    Piece(word, 20, 0, 5, 0x10_0000, 0x20, 0x1F);
    Piece(word, 25, 0, 7, 0x200_0000, 0x80, 0x7F);
  }

  /** Decoding keeps the raw slices whatever the opcode. */
  lemma DecodedFields(word: Word)
    ensures Decode(word).fields
         == Fields(word, Opcode(word), Rd(word), Funct3(word), Rs1(word), Rs2(word), Funct7(word))
  {
    hide Slice, IImmediate, SImmediate, BImmediate, UImmediate, JImmediate, Opcode, Rd, Funct3, Rs1, Rs2, Funct7;
    SliceMeaning(word);
  }

  /** Sign extension keeps the number: the result denotes the two's-complement reading of the low bits. */
  lemma SignExtendMeaning(value: Word, bits: nat, half: nat)
    requires 1 <= bits <= 32 && half == Pow2(bits - 1) && value < 2 * half <= MODULUS
    ensures SignExtend(value, bits) == Wrap(TwosComplement(value, half))
    ensures SignedValue(SignExtend(value, bits)) == Signed(SignExtend(value, bits)) == TwosComplement(value, half)
  {
    hide Xor, Pow2, Wrap, SignedValue, Signed;
    PowSum(bits - 1, 1);
    Powers();
    XorTop(value, bits - 1);
    WrapMeaning(TwosComplement(value, half));
  }

  /** Wrapping keeps every number that 32 bits can denote. */
  lemma WrapMeaning(v: int)
    requires -0x8000_0000 <= v < 0x8000_0000
    ensures SignedValue(Wrap(v)) == Signed(Wrap(v)) == v
  {
  }

  lemma SBitsMeaning(word: Word)
    ensures SImmediateBits(word) == word / 0x200_0000 * 32 + word / 0x80 % 32 < 0x1000
  {
    hide And, Shr, Or;
    Powers();
    Piece(word, 20, 5, 7, 0x200_0000, 0x80, 0xFE0);
    Piece(word, 7, 0, 5, 0x80, 0x20, 0x1F);
    OrDisjoint(word / 0x200_0000, word / 0x80 % 32, 5);
  }

  lemma BBitsMeaning(word: Word)
    ensures BImmediateBits(word)
         == word / 0x8000_0000 * 0x1000 + word / 0x80 % 2 * 0x800 + word / 0x200_0000 % 64 * 32 + word / 0x100 % 16 * 2
    ensures BImmediateBits(word) < 0x2000
  {
    hide And, Shr, Or;
    Powers();
    var b12, b11, b10, b4 := word / 0x8000_0000, word / 0x80 % 2, word / 0x200_0000 % 64, word / 0x100 % 16;
    Quotient(word, 31, 0x8000_0000);
    assert And(Wrap(Shl(word, 4)), 0x800) == b11 * 0x800 by {
      BitSeven(word);
    }
    Piece(word, 20, 5, 6, 0x200_0000, 64, 0x7E0);
    Piece(word, 7, 1, 4, 0x100, 16, 0x1E);
    OrDisjoint(b12, b11 * 0x800, 12);
    OrDisjoint(b12 * 2 + b11, b10 * 32, 11);
    OrDisjoint((b12 * 2 + b11) * 64 + b10, b4 * 2, 5);
  }

  /** Bit 7 of a branch, moved to position 11. */
  lemma BitSeven(word: Word)
    ensures And(Wrap(Shl(word, 4)), 0x800) == word / 0x80 % 2 * 0x800
  {
    hide And;
    Powers();
    var y := Wrap(Shl(word, 4));
    Piece(y, 0, 11, 1, 0x800, 2, 0x800);
    BitSevenMoved(word);
  }

  lemma BitSevenMoved(word: Word)
    ensures Wrap(word * 16) / 0x800 % 2 == word / 0x80 % 2
  {
    var h, low := word / 0x80, word % 0x80;
    var q, m := h / 0x20_0000, h % 0x20_0000;
    DivModUnique(word * 16, 0x1_0000_0000, q, 0x800 * m + 16 * low);
    DivModUnique(0x800 * m + 16 * low, 0x800, m, 16 * low);
  }

  lemma JBitsMeaning(word: Word)
    ensures JImmediateBits(word)
         == word / 0x8000_0000 * 0x10_0000 + word / 0x1000 % 256 * 0x1000 + word / 0x10_0000 % 2 * 0x800
           + word / 0x20_0000 % 1024 * 2
    ensures JImmediateBits(word) < 0x20_0000
  {
    hide And, Shr, Or;
    Powers();
    var b20, b12, b11, b1 := word / 0x8000_0000, word / 0x1000 % 256, word / 0x10_0000 % 2, word / 0x20_0000 % 1024;
    Quotient(word, 31, 0x8000_0000);
    Quotient(word, 0, 1);
    Piece(word, 0, 12, 8, 0x1000, 256, 0xF_F000);
    Piece(word, 9, 11, 1, 0x10_0000, 2, 0x800);
    Piece(word, 20, 1, 10, 0x20_0000, 1024, 0x7FE);
    OrDisjoint(b20, b12 * 0x1000, 20);
    OrDisjoint(b20 * 256 + b12, b11 * 0x800, 12);
    OrDisjoint((b20 * 256 + b12) * 2 + b11, b1 * 2, 11);
  }

  /** A 32-bit pattern and the signed integer it stands for. */
  predicate Denotes(pattern: Word, v: int) {
    pattern == Wrap(v) && SignedValue(pattern) == v && Signed(pattern) == v
  }

  lemma DenotesSmall(x: Word)
    requires x < 0x8000_0000
    ensures Denotes(x, x)
  {
  }

  lemma IImmediateMeaning(word: Word)
    ensures Denotes(IImmediate(word), ImmI(word))
  {
    hide Shr, SignExtend;
    Powers();
    Quotient(word, 20, 0x10_0000);
    SignExtendMeaning(Shr(word, 20), 12, 0x800);
  }

  lemma SImmediateMeaning(word: Word)
    ensures Denotes(SImmediate(word), ImmS(word))
  {
    hide SImmediateBits, SignExtend;
    Powers();
    SBitsMeaning(word);
    SignExtendMeaning(SImmediateBits(word), 12, 0x800);
  }

  lemma BImmediateMeaning(word: Word)
    ensures Denotes(BImmediate(word), ImmB(word))
  {
    hide BImmediateBits, SignExtend;
    Powers();
    BBitsMeaning(word);
    SignExtendMeaning(BImmediateBits(word), 13, 0x1000);
  }

  lemma JImmediateMeaning(word: Word)
    ensures Denotes(JImmediate(word), ImmJ(word))
  {
    hide JImmediateBits, SignExtend;
    Powers();
    JBitsMeaning(word);
    SignExtendMeaning(JImmediateBits(word), 21, 0x10_0000);
  }

  lemma UImmediateMeaning(word: Word)
    ensures UImmediate(word) == ImmU(word)
  {
    hide And, Shr;
    Powers();
    Quotient(word, 0, 1);
    Piece(word, 0, 12, 20, 0x1000, 0x10_0000, 0xFFFF_F000);
  }

  // ----- The decoder against the reference -----

  /** A word decodes to kind `k` exactly when it matches the pattern of `k`, and to no kind exactly when it
      matches none of the forty. */
  lemma DecodeKind(word: Word)
    ensures forall k :: k != UNKNOWN ==> (Decode(word).kind == k <==> Matches(k, word))
    ensures Decode(word).kind == KindOf(word)
  {
    hide Decode, Matches;
    var d := Decode(word).kind;
    forall k | Matches(k, word) ensures k == d {
      MatchDecodes(k, word);
    }
    UnknownMatchesNothing(word);
    if d != UNKNOWN {
      MatchWhenKnown(word);
    }
  }

  /** No word matches two of the forty patterns. */
  lemma PatternsDisjoint(j: Kind, k: Kind, word: Word)
    requires Matches(j, word) && Matches(k, word)
    ensures j == k
  {
    hide Decode, Matches;
    MatchDecodes(j, word);
    MatchDecodes(k, word);
  }

  lemma UnknownMatchesNothing(word: Word)
    ensures !Matches(UNKNOWN, word)
  {
  }

  /** Whatever matches a pattern decodes to its kind. */
  lemma MatchDecodes(k: Kind, word: Word)
    requires Matches(k, word)
    ensures Decode(word).kind == k
  {
    hide Decode, Matches;
    if PatternOf(k).Full? {
      FullDecodes(k, word);
    } else if PatternOf(k).Minor? {
      MinorDecodes(k, word);
    } else {
      OtherDecodes(k, word);
    }
  }

  lemma FullDecodes(k: Kind, word: Word)
    requires Matches(k, word) && PatternOf(k).Full?
    ensures Decode(word).kind == k
  {
    hide Slice, IImmediate, SImmediate, BImmediate, UImmediate, JImmediate, Opcode, Rd, Funct3, Rs1, Rs2, Funct7;
    SliceMeaning(word);
  }

  lemma MinorDecodes(k: Kind, word: Word)
    requires Matches(k, word) && PatternOf(k).Minor?
    ensures Decode(word).kind == k
  {
    hide Slice, IImmediate, SImmediate, BImmediate, UImmediate, JImmediate, Opcode, Rd, Funct3, Rs1, Rs2, Funct7;
    SliceMeaning(word);
  }

  lemma OtherDecodes(k: Kind, word: Word)
    requires Matches(k, word) && !PatternOf(k).Full? && !PatternOf(k).Minor?
    ensures Decode(word).kind == k
  {
    hide Slice, IImmediate, SImmediate, BImmediate, UImmediate, JImmediate, Opcode, Rd, Funct3, Rs1, Rs2, Funct7;
    SliceMeaning(word);
    SystemOpcodes();
  }

  lemma SystemOpcodes()
    ensures Opcode(0x0000_0073) == 0x73 && Opcode(0x0010_0073) == 0x73
  {
  }

  /** And whatever decodes to a kind matches its pattern. */
  lemma MatchWhenKnown(word: Word)
    requires Decode(word).kind != UNKNOWN
    ensures Matches(Decode(word).kind, word)
  {
    hide Decode, Matches, Opcode;
    if Opcode(word) == 0x33 || Opcode(word) == 0x13 {
      ComputationMatches(word);
    } else if Opcode(word) == 0x63 || Opcode(word) == 0x03 || Opcode(word) == 0x23 {
      TableMatches(word);
    } else {
      OtherMatches(word);
    }
  }

  lemma ComputationMatches(word: Word)
    requires Decode(word).kind != UNKNOWN && (Opcode(word) == 0x33 || Opcode(word) == 0x13)
    ensures Matches(Decode(word).kind, word)
  {
    hide Slice, IImmediate, SImmediate, BImmediate, UImmediate, JImmediate, Opcode, Rd, Funct3, Rs1, Rs2, Funct7;
    SliceMeaning(word);
  }

  lemma TableMatches(word: Word)
    requires Decode(word).kind != UNKNOWN && (Opcode(word) == 0x63 || Opcode(word) == 0x03 || Opcode(word) == 0x23)
    ensures Matches(Decode(word).kind, word)
  {
    hide Slice, IImmediate, SImmediate, BImmediate, UImmediate, JImmediate, Opcode, Rd, Funct3, Rs1, Rs2, Funct7;
    SliceMeaning(word);
  }

  lemma OtherMatches(word: Word)
    requires Decode(word).kind != UNKNOWN && Opcode(word) !in {0x33, 0x13, 0x63, 0x03, 0x23}
    ensures Matches(Decode(word).kind, word)
  {
    hide Slice, IImmediate, SImmediate, BImmediate, UImmediate, JImmediate, Opcode, Rd, Funct3, Rs1, Rs2, Funct7;
    SliceMeaning(word);
  }

  predicate IsShiftImmediate(k: Kind) { k.SLLI? || k.SRLI? || k.SRAI? }

  predicate IsSystem(k: Kind) { k.FENCE? || k.ECALL? || k.EBREAK? }

  predicate IsRegisterRegister(k: Kind) {
    k.ADD? || k.SUB? || k.SLL? || k.SLT? || k.SLTU? || k.XOR? || k.SRL? || k.SRA? || k.OR? || k.AND?
  }

  function FormatOf(k: Kind): Format {
    if k.UNKNOWN? then FormatUnknown
    else if IsRegisterRegister(k) then FormatR
    else if k.LUI? || k.AUIPC? then FormatU
    else if k.JAL? then FormatJ
    else if IsBranch(k) then FormatB
    else if IsStore(k) then FormatS
    else FormatI
  }

  /** The signed immediate the reference gives each operation; shifts carry their shift amount. */
  function Immediate(k: Kind, w: Word): int {
    if IsShiftImmediate(k) then Rs2(w)
    else if IsSystem(k) then 0
    else
      match FormatOf(k)
      case FormatI => ImmI(w)
      case FormatS => ImmS(w)
      case FormatB => ImmB(w)
      case FormatU => ImmU(w)
      case FormatJ => ImmJ(w)
      case _ => 0
  }

  /** Format and immediate expression of each major opcode. */
  lemma DecodeByOpcode(word: Word)
    ensures var d, op := Decode(word), Opcode(word);
            && (op == 0x33 ==> d.format == FormatR && d.immediate == 0)
            && (op == 0x13 ==>
                  && d.format == FormatI
                  && d.immediate == if Funct3(word) == 1 || Funct3(word) == 5 then Rs2(word) else IImmediate(word))
            && (op == 0x03 || op == 0x67 ==> d.format == FormatI && d.immediate == IImmediate(word))
            && (op == 0x37 || op == 0x17 ==> d.format == FormatU && d.immediate == UImmediate(word))
            && (op == 0x6F ==> d.kind == JAL && d.format == FormatJ && d.immediate == JImmediate(word))
            && (op == 0x63 ==> d.format == FormatB && d.immediate == BImmediate(word))
            && (op == 0x23 ==> d.format == FormatS && d.immediate == SImmediate(word))
            && (op == 0x0F || op == 0x73 ==> d.format == FormatI && d.immediate == 0)
  {
    hide Slice, IImmediate, SImmediate, BImmediate, UImmediate, JImmediate, Opcode, Rd, Funct3, Rs1, Rs2, Funct7;
    SliceMeaning(word);
  }

  /** For every known word the decoded format and immediate are the reference's. */
  lemma DecodeImmediate(word: Word)
    requires Decode(word).kind != UNKNOWN
    ensures var d := Decode(word);
            && d.format == FormatOf(d.kind)
            && match d.format
               case FormatU => d.immediate == ImmU(word)
               case FormatR => d.immediate == 0
               case _ => Denotes(d.immediate, Immediate(d.kind, word))
  {
    hide Decode, IImmediate, SImmediate, BImmediate, UImmediate, JImmediate, KindOf;
    hide ImmI, ImmS, ImmB, ImmJ, ImmU, Rd, Rs1, Denotes;
    DecodeKind(word);
    assert Matches(Decode(word).kind, word);
    DecodeByOpcode(word);
    DenotesSmall(0);
    DenotesSmall(Rs2(word));
    IImmediateMeaning(word);
    SImmediateMeaning(word);
    BImmediateMeaning(word);
    UImmediateMeaning(word);
    JImmediateMeaning(word);
  }
}
