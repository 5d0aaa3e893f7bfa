/** Instruction words built from their parts, and the decoder as their inverse. */
module Encoding {
  import opened Bits
  import opened Isa
  import opened Instruction

  // ----- The encoders -----

  function EncodeR(f3: nat, f7: nat, rd: nat, rs1: nat, rs2: nat): nat {
    Or(Or(Or(Or(Or(Shl(f7, 25), Shl(rs2, 20)), Shl(rs1, 15)), Shl(f3, 12)), Shl(rd, 7)), 0x33)
  }

  function EncodeI(opcode: nat, f3: nat, rd: nat, rs1: nat, imm: int): nat {
    Or(Or(Or(Or(Shl(And(Wrap(imm), 0xFFF), 20), Shl(rs1, 15)), Shl(f3, 12)), Shl(rd, 7)), opcode)
  }

  function EncodeS(f3: nat, rs1: nat, rs2: nat, imm: int): nat {
    var u := And(Wrap(imm), 0xFFF);
    Or(Or(Or(Or(Or(Shl(Shr(u, 5), 25), Shl(rs2, 20)), Shl(rs1, 15)), Shl(f3, 12)), Shl(And(u, 31), 7)), 0x23)
  }

  function EncodeB(f3: nat, rs1: nat, rs2: nat, imm: int): nat {
    var u := And(Wrap(imm), 0x1FFF);
    Or(Or(Or(Or(Or(Or(Or(
      Shl(Shr(u, 12), 31), Shl(And(Shr(u, 5), 63), 25)), Shl(rs2, 20)), Shl(rs1, 15)), Shl(f3, 12)),
      Shl(And(Shr(u, 1), 15), 8)), Shl(And(Shr(u, 11), 1), 7)), 0x63)
  }

  function EncodeJ(rd: nat, imm: int): nat {
    var u := And(Wrap(imm), 0x1F_FFFF);
    Or(Or(Or(Or(Or(
      Shl(Shr(u, 20), 31), Shl(And(Shr(u, 1), 1023), 21)), Shl(And(Shr(u, 11), 1), 20)), And(u, 0xF_F000)),
      Shl(rd, 7)), 0x6F)
  }

  // ----- Words as the sum of six fields -----

  /** The word whose six raw slices are the arguments. */
  function Assemble(f7: nat, rs2: nat, rs1: nat, f3: nat, rd: nat, opcode: nat): nat {
    f7 * 0x200_0000 + rs2 * 0x10_0000 + rs1 * 0x8000 + f3 * 0x1000 + rd * 0x80 + opcode
  }

  predicate InRange(f7: nat, rs2: nat, rs1: nat, f3: nat, rd: nat, opcode: nat) {
    f7 < 128 && rs2 < 32 && rs1 < 32 && f3 < 8 && rd < 32 && opcode < 128
  }

  lemma AssembledFields(f7: nat, rs2: nat, rs1: nat, f3: nat, rd: nat, opcode: nat)
    requires InRange(f7, rs2, rs1, f3, rd, opcode)
    ensures var w := Assemble(f7, rs2, rs1, f3, rd, opcode);
            w < MODULUS && Opcode(w) == opcode && Rd(w) == rd && Funct3(w) == f3
            && Rs1(w) == rs1 && Rs2(w) == rs2 && Funct7(w) == f7
  {
    var w0 := Assemble(f7, rs2, rs1, f3, rd, opcode);
    assert w0 / 0x80 == ((f7 * 32 + rs2) * 32 + rs1) * 256 + f3 * 32 + rd;
    assert w0 / 0x1000 == ((f7 * 32 + rs2) * 32 + rs1) * 8 + f3;
    assert w0 / 0x8000 == (f7 * 32 + rs2) * 32 + rs1;
    assert w0 / 0x10_0000 == f7 * 32 + rs2;
  }

  /** A word is the sum of its slices. */
  lemma AssembleSlices(w: Word)
    ensures w == Assemble(Funct7(w), Rs2(w), Rs1(w), Funct3(w), Rd(w), Opcode(w))
    ensures InRange(Funct7(w), Rs2(w), Rs1(w), Funct3(w), Rd(w), Opcode(w))
  {
    DivDiv(w, 0x80, 32);
    DivDiv(w, 0x1000, 8);
    DivDiv(w, 0x8000, 32);
    DivDiv(w, 0x10_0000, 32);
  }

  // ----- Immediates as the sum of their pieces -----

  /** A branch offset from its four scattered pieces, before sign extension. */
  function BranchOffset(b12: nat, b11: nat, b10: nat, b4: nat): nat {
    b12 * 0x1000 + b11 * 0x800 + b10 * 32 + b4 * 2
  }

  /** A jump offset from its four scattered pieces, before sign extension. */
  function JumpOffset(b20: nat, b12: nat, b11: nat, b1: nat): nat {
    b20 * 0x10_0000 + b12 * 0x1000 + b11 * 0x800 + b1 * 2
  }

  lemma BranchPieces(u: nat)
    requires u < 0x2000 && u % 2 == 0
    ensures u == BranchOffset(u / 0x1000, u / 0x800 % 2, u / 32 % 64, u / 2 % 16)
  {
    var h := u / 2;
    DivDiv(u, 2, 16);
    DivDiv(u, 2, 1024);
    DivDiv(u, 2, 2048);
    DivDiv(h, 16, 64);
    DivDiv(h, 1024, 2);
  }

  lemma BranchPiecesUnique(b12: nat, b11: nat, b10: nat, b4: nat)
    requires b12 < 2 && b11 < 2 && b10 < 64 && b4 < 16
    ensures var u := BranchOffset(b12, b11, b10, b4);
            u < 0x2000 && u / 0x1000 == b12 && u / 0x800 % 2 == b11 && u / 32 % 64 == b10 && u / 2 % 16 == b4
  {
    var high := b12 * 2 + b11;
    var middle := high * 64 + b10;
    var u := middle * 32 + b4 * 2;
    DivModUnique(u, 2, middle * 16 + b4, 0);
    DivModUnique(u, 32, middle, b4 * 2);
    DivModUnique(u, 0x800, high, b10 * 32 + b4 * 2);
    DivModUnique(u, 0x1000, b12, b11 * 0x800 + b10 * 32 + b4 * 2);
    DivModUnique(middle * 16 + b4, 16, middle, b4);
    DivModUnique(middle, 64, high, b10);
    DivModUnique(high, 2, b12, b11);
  }

  lemma JumpPieces(u: nat)
    requires u < 0x20_0000 && u % 2 == 0
    ensures u == JumpOffset(u / 0x10_0000, u / 0x1000 % 256, u / 0x800 % 2, u / 2 % 1024)
  {
    var h := u / 2;
    DivDiv(u, 2, 1024);
    DivDiv(u, 2, 2048);
    DivDiv(u, 2, 0x8_0000);
    DivDiv(h, 1024, 2);
    DivDiv(h, 2048, 256);
  }

  lemma JumpPiecesUnique(b20: nat, b12: nat, b11: nat, b1: nat)
    requires b20 < 2 && b12 < 256 && b11 < 2 && b1 < 1024
    ensures var u := JumpOffset(b20, b12, b11, b1);
            u < 0x20_0000 && u / 0x10_0000 == b20 && u / 0x1000 % 256 == b12 && u / 0x800 % 2 == b11
            && u / 2 % 1024 == b1
  {
    var high := b20 * 256 + b12;
    var middle := high * 2 + b11;
    var u := middle * 2048 + b1 * 2;
    DivModUnique(u, 2, middle * 1024 + b1, 0);
    DivModUnique(u, 0x800, middle, b1 * 2);
    DivModUnique(u, 0x1000, high, b11 * 0x800 + b1 * 2);
    DivModUnique(u, 0x10_0000, b20, b12 * 0x1000 + b11 * 0x800 + b1 * 2);
    DivModUnique(middle * 1024 + b1, 1024, middle, b1);
    DivModUnique(middle, 2, high, b11);
    DivModUnique(high, 256, b20, b12);
  }

  /** Where the pieces sit inside the raw slices. */
  lemma PiecesOfSlices(w: Word)
    ensures w / 0x8000_0000 == Funct7(w) / 64 && w / 0x200_0000 % 64 == Funct7(w) % 64
    ensures w / 0x10_0000 % 2 == Rs2(w) % 2
  {
    DivDiv(w, 0x200_0000, 64);
    ModMod(w / 0x10_0000, 2, 16);
  }

  lemma BranchPiecesOfSlices(w: Word)
    ensures w / 0x100 % 16 == Rd(w) / 2 && w / 0x80 % 2 == Rd(w) % 2
  {
    var h := w / 0x80;
    DivDiv(w, 0x80, 2);
    DivDiv(h, 2, 16);
    DivModUnique(h % 32, 2, h / 2 % 16, h % 2);
  }

  lemma JumpPiecesOfSlices(w: Word)
    ensures w / 0x1000 % 256 == Rs1(w) * 8 + Funct3(w)
  {
    DivDiv(w, 0x1000, 8);
    DivDiv(w / 0x1000, 8, 32);
  }

  lemma JumpLowPiecesOfSlices(w: Word)
    ensures w / 0x20_0000 % 1024 == Funct7(w) % 64 * 16 + Rs2(w) / 2
  {
    var d := w / 0x10_0000;
    DivDiv(w, 0x10_0000, 2);
    DivDiv(w, 0x10_0000, 32);
    DivDiv(d, 2, 16);
    DivDiv(d / 2, 16, 64);
    DivModUnique(d % 32, 2, d / 2 % 16, d % 2);
  }

  /** Both halves of a 12-bit immediate. */
  lemma ImmIFromSlices(w: Word)
    ensures ImmI(w) == TwosComplement(Funct7(w) * 32 + Rs2(w), 0x800)
  {
    DivDiv(w, 0x10_0000, 32);
  }

  /** Truncating an in-range immediate loses nothing: reading it back as two's complement restores it. */
  lemma TruncateThenExtend(imm: int, half: nat)
    requires 0 <= imm + half < 2 * half
    ensures 0 <= imm % (2 * half) < 2 * half && TwosComplement(imm % (2 * half), half) == imm
  {
    if imm >= 0 {
      DivModUnique(imm, 2 * half, 0, imm);
    } else {
      DivModUnique(imm, 2 * half, -1, imm + 2 * half);
    }
  }

  lemma ExtendThenTruncate(v: nat, half: nat)
    requires v < 2 * half
    ensures TwosComplement(v, half) % (2 * half) == v
  {
    if v < half {
      DivModUnique(v, 2 * half, 0, v);
    } else {
      DivModUnique(v - 2 * half, 2 * half, -1, v);
    }
  }

  /** Conversion to `uint32_t` followed by a mask of `n` ones is the remainder modulo `m = 2^n`. */
  lemma MaskImmediate(imm: int, n: nat, m: nat, k: nat)
    requires m == Pow2(n) && m * k == 0x1_0000_0000
    ensures And(Wrap(imm), m - 1) == imm % m
  {
    hide And, Pow2;
    MaskLow(Wrap(imm), n);
    ShrIsQuotient(Wrap(imm), n);
    assert k > 0;
    ModMod(imm, m, k);
  }

  // ----- What the encoders build -----

  /** The common tail of the encoders. */
  lemma JoinSlices(f7: nat, rs2: nat, rs1: nat, f3: nat, rd: nat, opcode: nat)
    requires InRange(f7, rs2, rs1, f3, rd, opcode)
    ensures Or(Or(Or(Or(Or(Shl(f7, 25), Shl(rs2, 20)), Shl(rs1, 15)), Shl(f3, 12)), Shl(rd, 7)), opcode)
         == Assemble(f7, rs2, rs1, f3, rd, opcode)
  {
    hide Or;
    Powers();
    OrDisjoint(f7, rs2 * 0x10_0000, 25);
    JoinLowerSlices(f7 * 32 + rs2, rs1, f3, rd, opcode);
  }

  lemma JoinLowerSlices(high: nat, rs1: nat, f3: nat, rd: nat, opcode: nat)
    requires rs1 < 32 && f3 < 8 && rd < 32 && opcode < 128
    ensures Or(Or(Or(Or(high * 0x10_0000, Shl(rs1, 15)), Shl(f3, 12)), Shl(rd, 7)), opcode)
         == high * 0x10_0000 + rs1 * 0x8000 + f3 * 0x1000 + rd * 0x80 + opcode
  {
    hide Or;
    Powers();
    OrDisjoint(high, rs1 * 0x8000, 20);
    OrDisjoint(high * 32 + rs1, f3 * 0x1000, 15);
    OrDisjoint((high * 32 + rs1) * 8 + f3, rd * 0x80, 12);
    OrDisjoint(((high * 32 + rs1) * 8 + f3) * 32 + rd, opcode, 7);
  }

  lemma EncodeRMeaning(f3: nat, f7: nat, rd: nat, rs1: nat, rs2: nat)
    requires InRange(f7, rs2, rs1, f3, rd, 0x33)
    ensures EncodeR(f3, f7, rd, rs1, rs2) == Assemble(f7, rs2, rs1, f3, rd, 0x33)
  {
    JoinSlices(f7, rs2, rs1, f3, rd, 0x33);
  }

  lemma EncodeIMeaning(opcode: nat, f3: nat, rd: nat, rs1: nat, imm: int)
    requires InRange(0, 0, rs1, f3, rd, opcode)
    ensures EncodeI(opcode, f3, rd, rs1, imm) == Assemble(imm % 0x1000 / 32, imm % 0x1000 % 32, rs1, f3, rd, opcode)
  {
    hide And, Or, Pow2;
    Powers();
    MaskImmediate(imm, 12, 0x1000, 0x10_0000);
    JoinLowerSlices(imm % 0x1000, rs1, f3, rd, opcode);
  }

  lemma EncodeSMeaning(f3: nat, rs1: nat, rs2: nat, imm: int)
    requires InRange(0, rs2, rs1, f3, 0, 0x23)
    ensures EncodeS(f3, rs1, rs2, imm) == Assemble(imm % 0x1000 / 32, rs2, rs1, f3, imm % 0x1000 % 32, 0x23)
  {
    hide And, Or, Shr, Pow2, Shl;
    Powers();
    MaskImmediate(imm, 12, 0x1000, 0x10_0000);
    var u := imm % 0x1000;
    Quotient(u, 5, 32);
    Quotient(u, 0, 1);
    Piece(u, 0, 0, 5, 1, 32, 31);
    JoinSlices(u / 32, rs2, rs1, f3, u % 32, 0x23);
  }

  /** A branch word from its offset, before sign extension. */
  function BranchWord(u: nat, rs2: nat, rs1: nat, f3: nat): nat {
    Assemble(u / 0x1000 * 64 + u / 32 % 64, rs2, rs1, f3, u / 2 % 16 * 2 + u / 0x800 % 2, 0x63)
  }

  lemma EncodeBMeaning(f3: nat, rs1: nat, rs2: nat, imm: int)
    requires InRange(0, rs2, rs1, f3, 0, 0x63)
    ensures EncodeB(f3, rs1, rs2, imm) == BranchWord(imm % 0x2000, rs2, rs1, f3)
  {
    hide And, Or, Shr, Pow2, Shl;
    Powers();
    MaskImmediate(imm, 13, 0x2000, 0x8_0000);
    var u := imm % 0x2000;
    Quotient(u, 12, 0x1000);
    Piece(u, 5, 0, 6, 32, 64, 63);
    Piece(u, 1, 0, 4, 2, 16, 15);
    Piece(u, 11, 0, 1, 0x800, 2, 1);
    JoinBranch(u / 0x1000, u / 32 % 64, rs2, rs1, f3, u / 2 % 16, u / 0x800 % 2);
  }

  lemma JoinBranch(b12: nat, b10: nat, rs2: nat, rs1: nat, f3: nat, b4: nat, b11: nat)
    requires b12 < 2 && b10 < 64 && rs2 < 32 && rs1 < 32 && f3 < 8 && b4 < 16 && b11 < 2
    ensures Or(Or(Or(Or(Or(Or(Or(
              Shl(b12, 31), Shl(b10, 25)), Shl(rs2, 20)), Shl(rs1, 15)), Shl(f3, 12)), Shl(b4, 8)), Shl(b11, 7)), 0x63)
         == Assemble(b12 * 64 + b10, rs2, rs1, f3, b4 * 2 + b11, 0x63)
  {
    hide Or;
    Powers();
    OrDisjoint(b12, b10 * 0x200_0000, 31);
    var f7 := b12 * 64 + b10;
    OrDisjoint(f7, rs2 * 0x10_0000, 25);
    OrDisjoint(f7 * 32 + rs2, rs1 * 0x8000, 20);
    OrDisjoint((f7 * 32 + rs2) * 32 + rs1, f3 * 0x1000, 15);
    var high := ((f7 * 32 + rs2) * 32 + rs1) * 8 + f3;
    OrDisjoint(high, b4 * 0x100, 12);
    OrDisjoint(high * 16 + b4, b11 * 0x80, 8);
    OrDisjoint((high * 16 + b4) * 2 + b11, 0x63, 7);
  }

  lemma EncodeJMeaning(rd: nat, imm: int)
    requires rd < 32
    ensures (var u := imm % 0x20_0000;
             EncodeJ(rd, imm) == JumpWord(u / 0x10_0000, u / 2 % 1024, u / 0x800 % 2, u / 0x1000 % 256, rd))
  {
    hide And, Or, Shr, Pow2, Shl;
    Powers();
    MaskImmediate(imm, 21, 0x20_0000, 0x800);
    var u := imm % 0x20_0000;
    Quotient(u, 20, 0x10_0000);
    Quotient(u, 0, 1);
    Piece(u, 1, 0, 10, 2, 1024, 1023);
    Piece(u, 11, 0, 1, 0x800, 2, 1);
    Piece(u, 0, 12, 8, 0x1000, 256, 0xF_F000);
    JoinJump(u / 0x10_0000, u / 2 % 1024, u / 0x800 % 2, u / 0x1000 % 256, rd);
  }

  /** A JAL word from the pieces of its offset. */
  function JumpWord(b20: nat, b1: nat, b11: nat, b12: nat, rd: nat): nat {
    b20 * 0x8000_0000 + b1 * 0x20_0000 + b11 * 0x10_0000 + b12 * 0x1000 + rd * 0x80 + 0x6F
  }

  lemma JumpWordSlices(b20: nat, b1: nat, b11: nat, b12: nat, rd: nat)
    requires b20 < 2 && b1 < 1024 && b11 < 2 && b12 < 256 && rd < 32
    ensures JumpWord(b20, b1, b11, b12, rd)
         == Assemble(b20 * 64 + b1 / 16, b1 % 16 * 2 + b11, b12 / 8, b12 % 8, rd, 0x6F)
  {
  }

  lemma JoinJump(b20: nat, b1: nat, b11: nat, b12: nat, rd: nat)
    requires b20 < 2 && b1 < 1024 && b11 < 2 && b12 < 256 && rd < 32
    ensures Or(Or(Or(Or(Or(Shl(b20, 31), Shl(b1, 21)), Shl(b11, 20)), b12 * 0x1000), Shl(rd, 7)), 0x6F)
         == JumpWord(b20, b1, b11, b12, rd)
  {
    hide Or;
    Powers();
    OrDisjoint(b20, b1 * 0x20_0000, 31);
    OrDisjoint(b20 * 1024 + b1, b11 * 0x10_0000, 21);
    var high := (b20 * 1024 + b1) * 2 + b11;
    OrDisjoint(high, b12 * 0x1000, 20);
    OrDisjoint(high * 256 + b12, rd * 0x80, 12);
    OrDisjoint((high * 256 + b12) * 32 + rd, 0x6F, 7);
  }

  // ----- Decoding what was encoded -----

  lemma DecodeEncodedR(f3: nat, f7: nat, rd: nat, rs1: nat, rs2: nat)
    requires InRange(f7, rs2, rs1, f3, rd, 0x33)
    ensures var w := EncodeR(f3, f7, rd, rs1, rs2);
            w < MODULUS && Decode(w).fields == Fields(w, 0x33, rd, f3, rs1, rs2, f7) && Decode(w).format == FormatR
  {
    hide Or, Decode;
    EncodeRMeaning(f3, f7, rd, rs1, rs2);
    AssembledFields(f7, rs2, rs1, f3, rd, 0x33);
    DecodedFields(EncodeR(f3, f7, rd, rs1, rs2));
    DecodeByOpcode(EncodeR(f3, f7, rd, rs1, rs2));
  }

  /** Every field survives under every opcode, and so does the 12-bit immediate where the operation has one; of a
      shift's immediate the five bits of the amount. */
  lemma DecodeEncodedI(opcode: nat, f3: nat, rd: nat, rs1: nat, imm: int)
    requires opcode < 128 && f3 < 8 && rd < 32 && rs1 < 32 && -0x800 <= imm < 0x800
    ensures var w, u := EncodeI(opcode, f3, rd, rs1, imm), imm % 0x1000;
            w < MODULUS && Decode(w).fields == Fields(w, opcode, rd, f3, rs1, u % 32, u / 32)
    ensures var d := Decode(EncodeI(opcode, f3, rd, rs1, imm));
            && (opcode in {0x03, 0x0F, 0x13, 0x67, 0x73} ==> d.format == FormatI)
            && (opcode in {0x03, 0x13, 0x67} ==>
                  SignedValue(d.immediate) == if opcode == 0x13 && (f3 == 1 || f3 == 5) then imm % 0x1000 % 32 else imm)
            && (opcode in {0x0F, 0x73} ==> d.immediate == 0)
  {
    hide Or, Decode, EncodeI, IImmediate, Opcode, Rd, Funct3, Rs1, Rs2, Funct7, ImmI, Assemble;
    EncodeIMeaning(opcode, f3, rd, rs1, imm);
    var u := imm % 0x1000;
    AssembledFields(u / 32, u % 32, rs1, f3, rd, opcode);
    var w0 := EncodeI(opcode, f3, rd, rs1, imm);
    DecodedFields(w0);
    DecodeByOpcode(w0);
    ImmIFromSlices(w0);
    TruncateThenExtend(imm, 0x800);
    IImmediateMeaning(w0);
  }

  lemma DecodeEncodedS(f3: nat, rs1: nat, rs2: nat, imm: int)
    requires f3 < 8 && rs1 < 32 && rs2 < 32 && -0x800 <= imm < 0x800
    ensures var w := EncodeS(f3, rs1, rs2, imm);
            && w < MODULUS
            && var d := Decode(w);
            && d.format == FormatS
            && (d.fields.opcode, d.fields.funct3, d.fields.rs1, d.fields.rs2) == (0x23, f3, rs1, rs2)
            && SignedValue(d.immediate) == imm
  {
    hide Or, Decode, EncodeS, SImmediate, Assemble;
    EncodeSMeaning(f3, rs1, rs2, imm);
    var u := imm % 0x1000;
    AssembledFields(u / 32, rs2, rs1, f3, u % 32, 0x23);
    var w0 := EncodeS(f3, rs1, rs2, imm);
    DecodedFields(w0);
    DecodeByOpcode(w0);
    TruncateThenExtend(imm, 0x800);
    SImmediateMeaning(w0);
  }

  lemma BranchWordDecoded(u: nat, rs2: nat, rs1: nat, f3: nat)
    requires u < 0x2000 && u % 2 == 0 && rs2 < 32 && rs1 < 32 && f3 < 8
    ensures var w := BranchWord(u, rs2, rs1, f3);
            w < MODULUS && Opcode(w) == 0x63 && Funct3(w) == f3 && Rs1(w) == rs1 && Rs2(w) == rs2
            && ImmB(w) == TwosComplement(u, 0x1000)
  {
    hide Assemble, Opcode, Rd, Funct3, Rs1, Rs2, Funct7, ImmB, BranchOffset;
    var b12, b11, b10, b4 := u / 0x1000, u / 0x800 % 2, u / 32 % 64, u / 2 % 16;
    AssembledFields(b12 * 64 + b10, rs2, rs1, f3, b4 * 2 + b11, 0x63);
    ImmBOfSlices(BranchWord(u, rs2, rs1, f3), b12, b11, b10, b4);
    BranchPieces(u);
  }

  /** Branch offsets are even; every even 13-bit offset survives its scattering. */
  lemma DecodeEncodedB(f3: nat, rs1: nat, rs2: nat, imm: int)
    requires f3 < 8 && rs1 < 32 && rs2 < 32 && -0x1000 <= imm < 0x1000 && imm % 2 == 0
    ensures var w := EncodeB(f3, rs1, rs2, imm);
            && w < MODULUS
            && var d := Decode(w);
            && d.format == FormatB
            && (d.fields.opcode, d.fields.funct3, d.fields.rs1, d.fields.rs2) == (0x63, f3, rs1, rs2)
            && SignedValue(d.immediate) == imm
  {
    hide Decode, EncodeB, BImmediate, BranchWord, Opcode, Rd, Funct3, Rs1, Rs2, Funct7, ImmB;
    EncodeBMeaning(f3, rs1, rs2, imm);
    ModMod(imm, 2, 0x1000);
    BranchWordDecoded(imm % 0x2000, rs2, rs1, f3);
    var w0 := EncodeB(f3, rs1, rs2, imm);
    DecodedFields(w0);
    DecodeByOpcode(w0);
    TruncateThenExtend(imm, 0x1000);
    BImmediateMeaning(w0);
  }

  lemma ImmBOfSlices(w: Word, b12: nat, b11: nat, b10: nat, b4: nat)
    requires b12 < 2 && b11 < 2 && b10 < 64 && b4 < 16
    requires Funct7(w) == b12 * 64 + b10 && Rd(w) == b4 * 2 + b11
    ensures ImmB(w) == TwosComplement(BranchOffset(b12, b11, b10, b4), 0x1000)
  {
    hide Funct7, Rd;
    PiecesOfSlices(w);
    BranchPiecesOfSlices(w);
    DivModUnique(Funct7(w), 64, b12, b10);
    DivModUnique(Rd(w), 2, b4, b11);
  }

  lemma JumpWordDecoded(b20: nat, b1: nat, b11: nat, b12: nat, rd: nat)
    requires b20 < 2 && b1 < 1024 && b11 < 2 && b12 < 256 && rd < 32
    ensures var w := JumpWord(b20, b1, b11, b12, rd);
            w < MODULUS && Opcode(w) == 0x6F && Rd(w) == rd
            && ImmJ(w) == TwosComplement(JumpOffset(b20, b12, b11, b1), 0x10_0000)
  {
    hide Assemble, JumpWord, Opcode, Rd, Funct3, Rs1, Rs2, Funct7, ImmJ, JumpOffset;
    JumpWordSlices(b20, b1, b11, b12, rd);
    AssembledFields(b20 * 64 + b1 / 16, b1 % 16 * 2 + b11, b12 / 8, b12 % 8, rd, 0x6F);
    ImmJOfSlices(JumpWord(b20, b1, b11, b12, rd), b20, b1, b11, b12);
  }

  lemma DecodeEncodedJ(rd: nat, imm: int)
    requires rd < 32 && -0x10_0000 <= imm < 0x10_0000 && imm % 2 == 0
    ensures var w := EncodeJ(rd, imm);
            && w < MODULUS
            && var d := Decode(w);
            && d.kind == JAL && d.format == FormatJ && d.fields.opcode == 0x6F && d.fields.rd == rd
            && SignedValue(d.immediate) == imm
  {
    hide Decode, EncodeJ, JImmediate, JumpWord, JumpOffset, Opcode, Rd, Funct3, Rs1, Rs2, Funct7, ImmJ;
    EncodeJMeaning(rd, imm);
    var u := imm % 0x20_0000;
    JumpWordDecoded(u / 0x10_0000, u / 2 % 1024, u / 0x800 % 2, u / 0x1000 % 256, rd);
    var w0 := EncodeJ(rd, imm);
    DecodedFields(w0);
    DecodeByOpcode(w0);
    ModMod(imm, 2, 0x10_0000);
    JumpPieces(u);
    TruncateThenExtend(imm, 0x10_0000);
    JImmediateMeaning(w0);
  }

  lemma ImmJOfSlices(w: Word, b20: nat, b1: nat, b11: nat, b12: nat)
    requires b20 < 2 && b1 < 1024 && b11 < 2 && b12 < 256
    requires Funct7(w) == b20 * 64 + b1 / 16 && Rs2(w) == b1 % 16 * 2 + b11 && Rs1(w) == b12 / 8 && Funct3(w) == b12 % 8
    ensures ImmJ(w) == TwosComplement(JumpOffset(b20, b12, b11, b1), 0x10_0000)
  {
    hide Funct7, Rs2, Rs1, Funct3;
    PiecesOfSlices(w);
    JumpPiecesOfSlices(w);
    JumpLowPiecesOfSlices(w);
    DivModUnique(Funct7(w), 64, b20, b1 / 16);
    DivModUnique(Rs2(w), 2, b1 % 16, b11);
  }

  // ----- Encoding what was decoded -----

  /** Rebuild a word from its decoded form alone, never from `fields.raw`. */
  function Reencode(d: Decoded): nat {
    var f := d.fields;
    match d.format
    case FormatR => EncodeR(f.funct3, f.funct7, f.rd, f.rs1, f.rs2)
    case FormatI =>
      if IsShiftImmediate(d.kind) then EncodeI(f.opcode, f.funct3, f.rd, f.rs1, f.funct7 * 32 + d.immediate)
      else if d.kind == ECALL then EncodeI(0x73, 0, 0, 0, 0)
      else if d.kind == EBREAK then EncodeI(0x73, 0, 0, 0, 1)
      else EncodeI(f.opcode, f.funct3, f.rd, f.rs1, SignedValue(d.immediate))
    case FormatS => EncodeS(f.funct3, f.rs1, f.rs2, SignedValue(d.immediate))
    case FormatB => EncodeB(f.funct3, f.rs1, f.rs2, SignedValue(d.immediate))
    case FormatU => d.immediate + f.rd * 0x80 + f.opcode
    case FormatJ => EncodeJ(f.rd, SignedValue(d.immediate))
    case FormatUnknown => 0
  }

  /** Nothing but FENCE's ordering bits is lost in decoding. */
  lemma ReencodeDecoded(w: Word)
    requires Decode(w).kind !in {UNKNOWN, FENCE}
    ensures Reencode(Decode(w)) == w
  {
    hide Decode, EncodeR, EncodeI, EncodeS, EncodeB, EncodeJ, ImmI, ImmS, ImmB, ImmJ, ImmU;
    hide Opcode, Rd, Funct3, Rs1, Rs2, Funct7, KindOf;
    var d := Decode(w);
    DecodeKind(w);
    assert Matches(d.kind, w);
    DecodeImmediate(w);
    DecodedFields(w);
    match d.format
    case FormatR => ReencodeR(w);
    case FormatI =>
      ReencodeI(w);
      ReencodeSystem();
    case FormatS => ReencodeS(w);
    case FormatB => ReencodeB(w);
    case FormatU => ReencodeU(w);
    case FormatJ => ReencodeJ(w);
    case FormatUnknown => assert false;
  }

  lemma ReencodeR(w: Word)
    requires Opcode(w) == 0x33
    ensures EncodeR(Funct3(w), Funct7(w), Rd(w), Rs1(w), Rs2(w)) == w
  {
    hide EncodeR;
    AssembleSlices(w);
    EncodeRMeaning(Funct3(w), Funct7(w), Rd(w), Rs1(w), Rs2(w));
  }

  lemma ReencodeU(w: Word)
    ensures ImmU(w) + Rd(w) * 0x80 + Opcode(w) == w
  {
    var a := w / 0x80;
    assert w / 0x1000 == a / 32;
  }

  lemma ReencodeI(w: Word)
    ensures EncodeI(Opcode(w), Funct3(w), Rd(w), Rs1(w), ImmI(w)) == w
    ensures EncodeI(Opcode(w), Funct3(w), Rd(w), Rs1(w), Funct7(w) * 32 + Rs2(w)) == w
  {
    hide EncodeI, Opcode, Rd, Funct3, Rs1, Rs2, Funct7, ImmI;
    AssembleSlices(w);
    ImmIFromSlices(w);
    var v := Funct7(w) * 32 + Rs2(w);
    ExtendThenTruncate(v, 0x800);
    EncodeIMeaning(Opcode(w), Funct3(w), Rd(w), Rs1(w), ImmI(w));
    EncodeIMeaning(Opcode(w), Funct3(w), Rd(w), Rs1(w), v);
    DivModUnique(v, 0x1000, 0, v);
    DivModUnique(v, 32, Funct7(w), Rs2(w));
  }

  lemma ReencodeSystem()
    ensures EncodeI(0x73, 0, 0, 0, 0) == 0x73 && EncodeI(0x73, 0, 0, 0, 1) == 0x10_0073
  {
    hide EncodeI;
    EncodeIMeaning(0x73, 0, 0, 0, 0);
    EncodeIMeaning(0x73, 0, 0, 0, 1);
  }

  lemma ReencodeS(w: Word)
    requires Opcode(w) == 0x23
    ensures EncodeS(Funct3(w), Rs1(w), Rs2(w), ImmS(w)) == w
  {
    hide EncodeS, Opcode, Funct3, Rs1, Rs2;
    AssembleSlices(w);
    var v := Funct7(w) * 32 + Rd(w);
    ExtendThenTruncate(v, 0x800);
    EncodeSMeaning(Funct3(w), Rs1(w), Rs2(w), ImmS(w));
    DivModUnique(v, 32, Funct7(w), Rd(w));
  }

  lemma ReencodeB(w: Word)
    requires Opcode(w) == 0x63
    ensures EncodeB(Funct3(w), Rs1(w), Rs2(w), ImmB(w)) == w
  {
    hide EncodeB, Opcode, Funct3, Rs1, Rs2, Funct7, Rd, ImmB;
    AssembleSlices(w);
    var b12, b11, b10, b4 := Funct7(w) / 64, Rd(w) % 2, Funct7(w) % 64, Rd(w) / 2;
    ImmBOfSlices(w, b12, b11, b10, b4);
    BranchPiecesUnique(b12, b11, b10, b4);
    ExtendThenTruncate(BranchOffset(b12, b11, b10, b4), 0x1000);
    EncodeBMeaning(Funct3(w), Rs1(w), Rs2(w), ImmB(w));
  }

  lemma ReencodeJ(w: Word)
    requires Opcode(w) == 0x6F
    ensures EncodeJ(Rd(w), ImmJ(w)) == w
  {
    hide EncodeJ, Opcode, Funct3, Rs1, Rs2, Funct7, Rd, ImmJ, Assemble, JumpWord;
    AssembleSlices(w);
    var b20, b1, b11, b12 := Funct7(w) / 64, Funct7(w) % 64 * 16 + Rs2(w) / 2, Rs2(w) % 2, Rs1(w) * 8 + Funct3(w);
    DivModUnique(b1, 16, Funct7(w) % 64, Rs2(w) / 2);
    DivModUnique(b12, 8, Rs1(w), Funct3(w));
    ImmJOfSlices(w, b20, b1, b11, b12);
    JumpPiecesUnique(b20, b12, b11, b1);
    ExtendThenTruncate(JumpOffset(b20, b12, b11, b1), 0x10_0000);
    EncodeJMeaning(Rd(w), ImmJ(w));
    JumpWordSlices(b20, b1, b11, b12, Rd(w));
  }
}
