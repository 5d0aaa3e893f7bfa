/** Assembler text read back: a reader that knows the syntax and the encodings, and what printing means against it. */
module Assembly {
  import opened Bits
  import opened Isa
  import opened Instruction
  import opened Encoding
  import opened Disassembly

  // ----- Numbers and names, by value -----

  predicate IsDigit(c: char, base: nat) {
    ('0' <= c <= '9' && c as int - '0' as int < base) || ('A' <= c <= 'F' && c as int - 'A' as int + 10 < base)
  }

  function DigitOf(c: char, base: nat): (d: nat)
    requires IsDigit(c, base)
    ensures d < base
  {
    if c <= '9' then c as int - '0' as int else c as int - 'A' as int + 10
  }

  predicate IsNumber(s: string, base: nat) {
    s != "" && forall i :: 0 <= i < |s| ==> IsDigit(s[i], base)
  }

  /** Positional notation, most significant digit first. */
  function NumberOf(s: string, base: nat): nat
    requires IsNumber(s, base)
  {
    var n := |s| - 1;
    (if n == 0 then 0 else base * NumberOf(s[..n], base)) + DigitOf(s[n], base)
  }

  predicate IsSigned(s: string) {
    IsNumber(if s != "" && s[0] == '-' then s[1..] else s, 10)
  }

  function SignedOf(s: string): int
    requires IsSigned(s)
  {
    if s[0] == '-' then 0 - NumberOf(s[1..], 10) as int else NumberOf(s, 10)
  }

  predicate IsHex(s: string) {
    |s| > 2 && s[..2] == "0x" && IsNumber(s[2..], 16)
  }

  function HexOf(s: string): nat
    requires IsHex(s)
  {
    NumberOf(s[2..], 16)
  }

  predicate IsRegister(s: string) {
    s != "" && s[0] == 'x' && IsNumber(s[1..], 10) && NumberOf(s[1..], 10) < 32
  }

  function RegisterOf(s: string): Register
    requires IsRegister(s)
  {
    NumberOf(s[1..], 10)
  }

  /** The kinds by name. */
  function KindNamed(s: string): Kind {
    match s
    case "add" => ADD
    case "sub" => SUB
    case "sll" => SLL
    case "slt" => SLT
    case "sltu" => SLTU
    case "xor" => XOR
    case "srl" => SRL
    case "sra" => SRA
    case "or" => OR
    case "and" => AND
    case "addi" => ADDI
    case "slti" => SLTI
    case "sltiu" => SLTIU
    case "xori" => XORI
    case "ori" => ORI
    case "andi" => ANDI
    case "slli" => SLLI
    case "srli" => SRLI
    case "srai" => SRAI
    case "lui" => LUI
    case "auipc" => AUIPC
    case "jal" => JAL
    case "jalr" => JALR
    case "beq" => BEQ
    case "bne" => BNE
    case "blt" => BLT
    case "bge" => BGE
    case "bltu" => BLTU
    case "bgeu" => BGEU
    case "lb" => LB
    case "lh" => LH
    case "lw" => LW
    case "lbu" => LBU
    case "lhu" => LHU
    case "sb" => SB
    case "sh" => SH
    case "sw" => SW
    case "fence" => FENCE
    case "ecall" => ECALL
    case "ebreak" => EBREAK
    case _ => UNKNOWN
  }

  // ----- Pieces of a text -----

  /** What stands before the first `c`, or everything. */
  function Until(s: string, c: char): (r: string)
    ensures r <= s && Lacks(r, c) && (|r| < |s| ==> s[|r|] == c)
  {
    if s == "" || s[0] == c then "" else [s[0]] + Until(s[1..], c)
  }

  /** What stands behind the first `c`, or nothing. */
  function Beyond(s: string, c: char): string {
    var n := |Until(s, c)|;
    if n < |s| then s[n + 1..] else ""
  }

  function Unspaced(s: string): string {
    if s != "" && s[0] == ' ' then s[1..] else s
  }

  /** The operands between commas, each without a leading space. */
  function Operands(s: string): seq<string>
    decreases |s|
  {
    var first := Until(s, ',');
    if |first| == |s| then [s] else [first] + Operands(Unspaced(Beyond(s, ',')))
  }

  /** An operand `offset(base)`. */
  predicate IsOffset(s: string) {
    var offset, rest := Until(s, '('), Beyond(s, '(');
    IsSigned(offset) && IsRegister(Until(rest, ')')) && s == offset + "(" + Until(rest, ')') + ")"
  }

  function OffsetOf(s: string): int
    requires IsOffset(s)
  {
    SignedOf(Until(s, '('))
  }

  function BaseOf(s: string): Register
    requires IsOffset(s)
  {
    RegisterOf(Until(Beyond(s, '('), ')'))
  }

  // ----- The reader -----

  /** What a text stands for: one instruction word, a FENCE with its ordering fields, or a data word. */
  datatype Reading =
    | Code(word: nat)
    | Ordering(predecessors: nat, successors: nat, mode: nat)
    | Data(value: nat)
    | Malformed

  function Read(text: string): Reading {
    var head, operands := Until(text, ' '), Operands(Beyond(text, ' '));
    if head == ".word" then
      if |operands| == 1 && IsHex(operands[0]) then Data(HexOf(operands[0])) else Malformed
    else if text == "ecall" then Code(0x0000_0073)
    else if text == "ebreak" then Code(0x0010_0073)
    else if head == "fence" then ReadOrdering(operands)
    else ReadOperation(KindNamed(head), operands)
  }

  /** `pred=0xP, succ=0xS, fm=0xM`. */
  function ReadOrdering(operands: seq<string>): Reading {
    if |operands| == 3
       && IsField(operands[0], "pred=") && IsField(operands[1], "succ=") && IsField(operands[2], "fm=") then
      Ordering(FieldOf(operands[0], "pred="), FieldOf(operands[1], "succ="), FieldOf(operands[2], "fm="))
    else Malformed
  }

  predicate IsField(s: string, name: string) {
    name <= s && IsHex(s[|name|..])
  }

  function FieldOf(s: string, name: string): nat
    requires IsField(s, name)
  {
    HexOf(s[|name|..])
  }

  /** Operands in assembler order, put where the encoding of their operation wants them. */
  function ReadOperation(k: Kind, operands: seq<string>): Reading {
    if |operands| == 3 && IsRegister(operands[0]) && IsRegister(operands[1]) then
      ReadThree(k, RegisterOf(operands[0]), RegisterOf(operands[1]), operands[2])
    else if |operands| == 2 && IsRegister(operands[0]) then ReadTwo(k, RegisterOf(operands[0]), operands[1])
    else Malformed
  }

  function ReadThree(k: Kind, first: Register, second: Register, third: string): Reading {
    var p := PatternOf(k);
    match FormatOf(k)
    case FormatR =>
      if p.Full? && IsRegister(third) then Code(EncodeR(p.funct3, p.funct7, first, second, RegisterOf(third)))
      else Malformed
    case FormatB =>
      if p.Minor? && IsSigned(third) then Code(EncodeB(p.funct3, first, second, SignedOf(third))) else Malformed
    case FormatI =>
      if !IsSigned(third) then Malformed
      else if p.Full? then Code(EncodeI(p.opcode, p.funct3, first, second, p.funct7 * 32 + SignedOf(third)))
      else if p.Minor? && !IsLoad(k) && k != JALR then Code(EncodeI(p.opcode, p.funct3, first, second, SignedOf(third)))
      else Malformed
    case _ => Malformed
  }

  function ReadTwo(k: Kind, first: Register, second: string): Reading {
    var p := PatternOf(k);
    match FormatOf(k)
    case FormatU =>
      if p.Major? && IsHex(second) then Code(HexOf(second) * 0x1000 + first * 0x80 + p.opcode) else Malformed
    case FormatJ => if IsSigned(second) then Code(EncodeJ(first, SignedOf(second))) else Malformed
    case FormatS =>
      if p.Minor? && IsOffset(second) then Code(EncodeS(p.funct3, BaseOf(second), first, OffsetOf(second)))
      else Malformed
    case FormatI =>
      if p.Minor? && (IsLoad(k) || k == JALR) && IsOffset(second) then
        Code(EncodeI(p.opcode, p.funct3, first, BaseOf(second), OffsetOf(second)))
      else Malformed
    case _ => Malformed
  }

  // ----- Printed parts are read back -----

  lemma DigitReads(d: nat, base: nat)
    requires d < base && d < 16
    ensures IsDigit(DigitChar(d), base) && DigitOf(DigitChar(d), base) == d
  {
  }

  /** One more digit. */
  lemma NumberGrows(s: string, d: nat, base: nat)
    requires (s == "" || IsNumber(s, base)) && d < base && d < 16
    ensures var t := s + [DigitChar(d)];
            IsNumber(t, base) && NumberOf(t, base) == (if s == "" then 0 else base * NumberOf(s, base)) + d
  {
    hide DigitChar, IsDigit, DigitOf;
    DigitReads(d, base);
    var t := s + [DigitChar(d)];
    assert t[..|s|] == s && t[|s|] == DigitChar(d);
  }

  lemma {:induction false} DecimalReads(n: nat)
    ensures IsNumber(Decimal(n), 10) && NumberOf(Decimal(n), 10) == n
  {
    hide DigitChar, IsNumber, NumberOf;
    if n < 10 {
      NumberGrows("", n, 10);
      assert "" + [DigitChar(n)] == [DigitChar(n)];
    } else {
      DecimalReads(n / 10);
      DecimalDigits(n / 10);
      NumberGrows(Decimal(n / 10), n % 10, 10);
    }
  }

  lemma {:induction false} HexReads(v: nat, n: nat)
    requires 0 < n && v < Pow2(4 * n)
    ensures IsNumber(Hex(v, n), 16) && NumberOf(Hex(v, n), 16) == v
    decreases n
  {
    hide DigitChar, IsNumber, NumberOf, Pow2;
    PowSum(4, 4 * (n - 1));
    Powers();
    if n == 1 {
      assert Hex(v / 16, 0) == "";
      NumberGrows("", v % 16, 16);
    } else {
      HexReads(v / 16, n - 1);
      NumberGrows(Hex(v / 16, n - 1), v % 16, 16);
    }
  }

  lemma PrefixedHexReads(v: nat, n: nat)
    requires 0 < n && v < Pow2(4 * n)
    ensures IsHex("0x" + Hex(v, n)) && HexOf("0x" + Hex(v, n)) == v
  {
    hide Hex, IsNumber, NumberOf;
    HexReads(v, n);
    assert ("0x" + Hex(v, n))[2..] == Hex(v, n) && ("0x" + Hex(v, n))[..2] == "0x";
  }

  lemma SignedReads(v: int)
    ensures IsSigned(SignedDecimal(v)) && SignedOf(SignedDecimal(v)) == v
  {
    hide IsNumber, NumberOf;
    var n: nat := if v < 0 then -v else v;
    DecimalReads(n);
    DecimalDigits(n);
    assert v < 0 ==> SignedDecimal(v)[1..] == Decimal(n);
  }

  lemma RegisterReads(i: Register)
    ensures IsRegister(RegisterName(i)) && RegisterOf(RegisterName(i)) == i
  {
    hide IsNumber, NumberOf;
    DecimalReads(i);
    assert RegisterName(i)[1..] == Decimal(i);
  }

  /** Register names and numbers contain no punctuation. */
  predicate IsPlain(s: string) {
    Lacks(s, ' ') && Lacks(s, ',') && Lacks(s, '(') && Lacks(s, ')')
  }

  lemma PrintedIsPlain(i: Register, v: int)
    ensures IsPlain(RegisterName(i)) && IsPlain(SignedDecimal(v))
    ensures Lacks(RegisterName(i), ',') && Lacks(SignedDecimal(v), ',')
  {
    DecimalDigits(i);
    DecimalDigits(if v < 0 then -v else v);
  }

  lemma {:induction false} HexIsPlain(v: nat, n: nat)
    ensures IsPlain(Hex(v, n))
    decreases n
  {
    if n > 0 {
      HexIsPlain(v / 16, n - 1);
    }
  }

  lemma {:induction false} UntilFirst(a: string, c: char, rest: string)
    requires Lacks(a, c)
    ensures Until(a + [c] + rest, c) == a && Beyond(a + [c] + rest, c) == rest
    ensures Until(a, c) == a && Beyond(a, c) == ""
  {
    var s := a + [c] + rest;
    assert s[|a|] == c && forall i :: 0 <= i < |a| ==> s[i] == a[i];
    var u, v := Until(s, c), Until(a, c);
    assert |u| == |a| && |v| == |a|;
    assert u == s[..|a|] == a;
    assert s[|a| + 1..] == rest;
  }

  lemma OneOperand(a: string)
    requires Lacks(a, ',')
    ensures Operands(a) == [a]
  {
    UntilFirst(a, ',', "");
  }

  lemma MoreOperands(a: string, rest: string)
    requires Lacks(a, ',')
    ensures Operands(a + [','] + ([' '] + rest)) == [a] + Operands(rest)
  {
    UntilFirst(a, ',', [' '] + rest);
    assert ([' '] + rest)[1..] == rest;
  }

  lemma TwoOperands(a: string, b: string)
    requires Lacks(a, ',') && Lacks(b, ',')
    ensures Operands(Two(a, b)) == [a, b]
  {
    hide Operands;
    MoreOperands(a, b);
    OneOperand(b);
  }

  lemma ThreeOperands(a: string, b: string, c: string)
    requires Lacks(a, ',') && Lacks(b, ',') && Lacks(c, ',')
    ensures Operands(Three(a, b, c)) == [a, b, c]
  {
    hide Operands;
    assert [' '] + b + [','] + ([' '] + c) == [' '] + Two(b, c);
    MoreOperands(a, Two(b, c));
    TwoOperands(b, c);
  }

  /** How an offset operand is printed. */
  function OffsetText(v: int, base: Register): string {
    SignedDecimal(v) + ['('] + (RegisterName(base) + [')'])
  }

  lemma OffsetReads(v: int, i: Register)
    ensures var s := OffsetText(v, i);
            IsOffset(s) && OffsetOf(s) == v && BaseOf(s) == i && Lacks(s, ',')
  {
    hide SignedDecimal, RegisterName, IsSigned, SignedOf, IsRegister, RegisterOf;
    SignedReads(v);
    RegisterReads(i);
    PrintedIsPlain(i, v);
    UntilFirst(SignedDecimal(v), '(', RegisterName(i) + [')']);
    UntilFirst(RegisterName(i), ')', "");
    assert RegisterName(i) + [')'] + "" == RegisterName(i) + [')'];
    assert SignedDecimal(v) + ['('] + (RegisterName(i) + [')']) == SignedDecimal(v) + "(" + RegisterName(i) + ")";
  }

  lemma OffsetFromIs(a: string, x: string, b: string)
    ensures OffsetFrom(a, x, b) == Two(a, x + ['('] + (b + [')']))
  {
    assert [' '] + x + ['('] + (b + [')']) == [' '] + (x + ['('] + (b + [')']));
  }

  lemma OffsetOperands(a: string, v: int, i: Register)
    requires Lacks(a, ',')
    ensures Operands(OffsetFrom(a, SignedDecimal(v), RegisterName(i))) == [a, OffsetText(v, i)]
  {
    hide SignedDecimal, RegisterName, Operands, OffsetFrom, Two, Lacks;
    OffsetReads(v, i);
    OffsetFromIs(a, SignedDecimal(v), RegisterName(i));
    TwoOperands(a, OffsetText(v, i));
  }

  // ----- The name table read back -----

  /** Every mnemonic names its kind. */
  lemma MnemonicNamed(k: Kind)
    ensures KindNamed(Mnemonic(k)) == k
  {
    hide KindNamed, Mnemonic;
    if IsRegisterRegister(k) {
      RegisterNamed(k);
    } else if IsSystem(k) || k.UNKNOWN? {
      SystemNamed(k);
    } else if IsBranch(k) {
      BranchNamed(k);
    } else if IsLoad(k) {
      LoadNamed(k);
    } else if IsStore(k) {
      StoreNamed(k);
    } else {
      OtherNamed(k);
    }
  }

  lemma SystemNamed(k: Kind)
    requires IsSystem(k) || k.UNKNOWN?
    ensures KindNamed(Mnemonic(k)) == k
  {
  }

  lemma RegisterNamed(k: Kind)
    requires IsRegisterRegister(k)
    ensures KindNamed(Mnemonic(k)) == k
  {
  }

  lemma BranchNamed(k: Kind)
    requires IsBranch(k)
    ensures KindNamed(Mnemonic(k)) == k
  {
  }

  lemma LoadNamed(k: Kind)
    requires IsLoad(k)
    ensures KindNamed(Mnemonic(k)) == k
  {
  }

  lemma StoreNamed(k: Kind)
    requires IsStore(k)
    ensures KindNamed(Mnemonic(k)) == k
  {
  }

  lemma OtherNamed(k: Kind)
    requires !(IsRegisterRegister(k) || IsSystem(k) || k.UNKNOWN? || IsBranch(k) || IsLoad(k) || IsStore(k))
    ensures KindNamed(Mnemonic(k)) == k
  {
  }

  lemma MnemonicInjective(j: Kind, k: Kind)
    requires Mnemonic(j) == Mnemonic(k)
    ensures j == k
  {
    hide KindNamed, Mnemonic;
    MnemonicNamed(j);
    MnemonicNamed(k);
  }

  /** The name table has no name twice, either. */
  lemma NamesDistinct(j: Kind, k: Kind)
    requires Name(j) == Name(k)
    ensures j == k
  {
    hide Name;
    assert Name(UNKNOWN) == "unknown" by {
      UnknownName();
    }
    MnemonicShape(j);
    MnemonicShape(k);
    if j != UNKNOWN && k != UNKNOWN {
      MnemonicInjective(j, k);
    }
  }

  lemma UnknownName()
    ensures Name(UNKNOWN) == "unknown"
  {
  }

  // ----- What a text means -----

  /** The reading that says what a word is. */
  function Expected(w: Word): Reading {
    var k := Decode(w).kind;
    if k == UNKNOWN then Data(w)
    else if k == FENCE then Ordering(w / 0x100_0000 % 16, w / 0x10_0000 % 16, w / 0x1000_0000)
    else Code(w)
  }

  /** Reading a printed text gives back the word itself for every known operation but FENCE, of a FENCE its ordering
      fields, and of an unknown word its value. */
  lemma TextReads(w: Word)
    ensures Read(Text(w)) == Expected(w)
  {
    hide Decode, Mnemonic, OperandText, Operands, KindNamed, Read;
    var k := Decode(w).kind;
    if k == ECALL || k == EBREAK {
      SystemReads(w);
    } else {
      HeadReads(k, OperandText(w));
      if k == UNKNOWN {
        DataReads(w);
      } else if k == FENCE {
        FenceReads(w);
      } else {
        PlainReads(w);
      }
    }
  }

  /** The first word of a text decides how its operands are read. */
  lemma HeadReads(k: Kind, tail: string)
    requires k != ECALL && k != EBREAK
    ensures Read(Mnemonic(k) + [' '] + tail)
         == if k == UNKNOWN then
              (if |Operands(tail)| == 1 && IsHex(Operands(tail)[0]) then Data(HexOf(Operands(tail)[0])) else Malformed)
            else if k == FENCE then ReadOrdering(Operands(tail))
            else ReadOperation(k, Operands(tail))
  {
    hide Mnemonic, KindNamed, Operands, IsHex, HexOf, ReadOrdering, ReadOperation;
    MnemonicShape(k);
    MnemonicNamed(k);
    MnemonicNamed(UNKNOWN);
    MnemonicNamed(FENCE);
    SpecialNames();
    var text := Mnemonic(k) + [' '] + tail;
    UntilFirst(Mnemonic(k), ' ', tail);
    assert text[|Mnemonic(k)|] == ' ';
    assert text != "ecall" && text != "ebreak" by {
      if |text| == 5 || |text| == 6 {
        SystemNamesLackSpaces(text, |Mnemonic(k)|);
      }
    }
  }

  lemma SystemNamesLackSpaces(text: string, i: nat)
    requires i < |text| && text[i] == ' '
    ensures text != "ecall" && text != "ebreak"
  {
  }

  lemma SpecialNames()
    ensures Mnemonic(UNKNOWN) == ".word" && Mnemonic(FENCE) == "fence"
    ensures Mnemonic(ECALL) == "ecall" && Mnemonic(EBREAK) == "ebreak"
  {
  }

  lemma SystemReads(w: Word)
    requires Decode(w).kind == ECALL || Decode(w).kind == EBREAK
    ensures Read(Text(w)) == Code(w)
  {
    hide Decode, Mnemonic, KindOf, Read;
    SpecialNames();
    DecodeKind(w);
    assert Matches(Decode(w).kind, w);
    SystemTexts();
  }

  lemma SystemTexts()
    ensures Read("ecall") == Code(0x0000_0073) && Read("ebreak") == Code(0x0010_0073)
  {
    hide Operands, KindNamed, ReadOperation, ReadOrdering;
    assert Until("ecall", ' ') == "ecall";
    assert Until("ebreak", ' ') == "ebreak";
  }

  lemma DataReads(w: Word)
    requires Decode(w).kind == UNKNOWN
    ensures var tail := OperandText(w);
            Operands(tail) == [tail] && IsHex(tail) && HexOf(tail) == w
  {
    hide Decode, Hex, IsHex, HexOf, Operands;
    Powers();
    PrefixedHexReads(w, 8);
    HexIsPlain(w, 8);
    OneOperand("0x" + Hex(w, 8));
  }

  lemma FenceFieldsMeaning(w: Word)
    ensures FenceFields(w) == (w / 0x100_0000 % 16, w / 0x10_0000 % 16, w / 0x1000_0000)
    ensures w / 0x1000_0000 < 16
  {
    hide And, Shr;
    Powers();
    Piece(w, 24, 0, 4, 0x100_0000, 16, 15);
    Piece(w, 20, 0, 4, 0x10_0000, 16, 15);
    Quotient(w, 28, 0x1000_0000);
  }

  lemma FenceReads(w: Word)
    requires Decode(w).kind == FENCE
    ensures ReadOrdering(Operands(OperandText(w))) == Expected(w)
  {
    hide Decode, Operands, FenceFields, FenceOperands;
    FenceFieldsMeaning(w);
    FieldsRead(w / 0x100_0000 % 16, w / 0x10_0000 % 16, w / 0x1000_0000);
  }

  lemma FieldsRead(p: nat, s: nat, m: nat)
    requires p < 16 && s < 16 && m < 16
    ensures ReadOrdering(Operands(FenceOperands((p, s, m)))) == Ordering(p, s, m)
  {
    hide Hex, IsHex, HexOf, IsField, FieldOf, Operands, FenceOperands, Lacks, Three;
    var a, b, c := "pred=" + ("0x" + Hex(p, 1)), "succ=" + ("0x" + Hex(s, 1)), "fm=" + ("0x" + Hex(m, 1));
    NamesPlain();
    FieldReads("pred=", p);
    FieldReads("succ=", s);
    FieldReads("fm=", m);
    ThreeOperands(a, b, c);
    FenceOperandsAre(p, s, m);
  }

  lemma NamesPlain()
    ensures Lacks("pred=", ',') && Lacks("succ=", ',') && Lacks("fm=", ',')
  {
  }

  lemma FenceOperandsAre(p: nat, s: nat, m: nat)
    ensures FenceOperands((p, s, m))
         == Three("pred=" + ("0x" + Hex(p, 1)), "succ=" + ("0x" + Hex(s, 1)), "fm=" + ("0x" + Hex(m, 1)))
  {
    hide Hex;
  }

  lemma FieldReads(name: string, v: nat)
    requires v < 16 && Lacks(name, ',')
    ensures var s := name + ("0x" + Hex(v, 1)); IsField(s, name) && FieldOf(s, name) == v && Lacks(s, ',')
  {
    hide Hex, IsHex, HexOf;
    Powers();
    PrefixedHexReads(v, 1);
    HexIsPlain(v, 1);
    var s := name + ("0x" + Hex(v, 1));
    assert s[|name|..] == "0x" + Hex(v, 1) && s[..|name|] == name;
  }

  /** The parts of a known word other than FENCE, ECALL and EBREAK, in terms of the reference. */
  lemma PlainParts(w: Word)
    requires var k := Decode(w).kind; k != UNKNOWN && !IsSystem(k)
    ensures var d := Decode(w);
            && d.fields == Fields(w, Opcode(w), Rd(w), Funct3(w), Rs1(w), Rs2(w), Funct7(w))
            && d.format == FormatOf(d.kind) && Matches(d.kind, w)
            && (d.format == FormatU ==> d.immediate == ImmU(w))
            && (d.format != FormatU && d.format != FormatR ==> SignedValue(d.immediate) == Immediate(d.kind, w))
  {
    hide Decode, KindOf, Immediate, ImmU, FormatOf, Matches, Opcode, Rd, Funct3, Rs1, Rs2, Funct7;
    DecodedFields(w);
    DecodeImmediate(w);
    DecodeKind(w);
  }

  lemma PlainReads(w: Word)
    requires var k := Decode(w).kind; k != UNKNOWN && !IsSystem(k)
    ensures ReadOperation(Decode(w).kind, Operands(OperandText(w))) == Code(w)
  {
    hide Decode, PlainOperands, Operands, ReadOperation, Matches;
    PlainParts(w);
    match FormatOf(Decode(w).kind)
    case FormatR => ReadsR(w);
    case FormatU => ReadsU(w);
    case FormatJ => ReadsJ(w);
    case FormatB => ReadsB(w);
    case FormatS => ReadsS(w);
    case _ =>
      if HasOffsetOperand(Decode(w).kind) {
        ReadsOffset(w);
      } else {
        ReadsI(w);
      }
  }

  /** The pattern shape that goes with each format. */
  lemma ShapeOf(k: Kind)
    requires k != UNKNOWN && !IsSystem(k)
    ensures var p, f := PatternOf(k), FormatOf(k);
            && (f == FormatR ==> p.Full? && p.opcode == 0x33)
            && (f == FormatB ==> p.Minor? && p.opcode == 0x63)
            && (f == FormatS ==> p.Minor? && p.opcode == 0x23)
            && (f == FormatU ==> p.Major?)
            && (f == FormatJ ==> p.Major? && p.opcode == 0x6F)
            && (f == FormatI ==> if IsShiftImmediate(k) then p.Full? else p.Minor?)
  {
  }

  predicate IsPlainWord(w: Word, f: Format) {
    var k := Decode(w).kind; k != UNKNOWN && !IsSystem(k) && FormatOf(k) == f
  }

  lemma ReadsR(w: Word)
    requires IsPlainWord(w, FormatR)
    ensures ReadOperation(Decode(w).kind, Operands(PlainOperands(Decode(w)))) == Code(w)
  {
    hide Decode, Operands, PatternOf, IsRegister, RegisterOf, RegisterName, SignedDecimal, SignedValue, IsSigned;
    hide SignedOf, Opcode, Rd, Funct3, Rs1, Rs2, Funct7, Lacks, Three, Two, OffsetFrom, Hex, IsHex, HexOf, IsOffset;
    hide OffsetOf, BaseOf, OffsetText, EncodeR, EncodeI, EncodeS, EncodeB, EncodeJ, ImmI, ImmS, ImmB, ImmJ, ImmU, Shr;
    PlainParts(w);
    ShapeOf(Decode(w).kind);
    RegisterReads(Rd(w));
    PrintedIsPlain(Rd(w), 0);
    RegisterReads(Rs1(w));
    PrintedIsPlain(Rs1(w), 0);
    RegisterReads(Rs2(w));
    PrintedIsPlain(Rs2(w), 0);
    ThreeOperands(RegisterName(Rd(w)), RegisterName(Rs1(w)), RegisterName(Rs2(w)));
    ReencodeR(w);
  }

  lemma UpperOperand(w: Word)
    requires IsPlainWord(w, FormatU)
    ensures var s := "0x" + Hex(Shr(Decode(w).immediate, 12), 5);
            IsHex(s) && HexOf(s) * 0x1000 == ImmU(w) && Lacks(s, ',')
  {
    hide Decode, Hex, IsHex, HexOf, Shr, FormatOf;
    PlainParts(w);
    Powers();
    Quotient(w / 0x1000 * 0x1000, 12, 0x1000);
    PrefixedHexReads(w / 0x1000, 5);
    HexIsPlain(w / 0x1000, 5);
  }

  lemma ReadsU(w: Word)
    requires IsPlainWord(w, FormatU)
    ensures ReadOperation(Decode(w).kind, Operands(PlainOperands(Decode(w)))) == Code(w)
  {
    hide Decode, Operands, PatternOf, IsRegister, RegisterOf, RegisterName, SignedDecimal, SignedValue, IsSigned;
    hide SignedOf, Opcode, Rd, Funct3, Rs1, Rs2, Funct7, Lacks, Three, Two, OffsetFrom, Hex, IsHex, HexOf, IsOffset;
    hide OffsetOf, BaseOf, OffsetText, EncodeR, EncodeI, EncodeS, EncodeB, EncodeJ, ImmI, ImmS, ImmB, ImmJ, ImmU, Shr;
    PlainParts(w);
    ShapeOf(Decode(w).kind);
    RegisterReads(Rd(w));
    PrintedIsPlain(Rd(w), 0);
    UpperOperand(w);
    TwoOperands(RegisterName(Rd(w)), "0x" + Hex(Shr(Decode(w).immediate, 12), 5));
    ReencodeU(w);
  }

  lemma ReadsJ(w: Word)
    requires IsPlainWord(w, FormatJ)
    ensures ReadOperation(Decode(w).kind, Operands(PlainOperands(Decode(w)))) == Code(w)
  {
    hide Decode, Operands, PatternOf, IsRegister, RegisterOf, RegisterName, SignedDecimal, SignedValue, IsSigned;
    hide SignedOf, Opcode, Rd, Funct3, Rs1, Rs2, Funct7, Lacks, Three, Two, OffsetFrom, Hex, IsHex, HexOf, IsOffset;
    hide OffsetOf, BaseOf, OffsetText, EncodeR, EncodeI, EncodeS, EncodeB, EncodeJ, ImmI, ImmS, ImmB, ImmJ, ImmU, Shr;
    PlainParts(w);
    ShapeOf(Decode(w).kind);
    RegisterReads(Rd(w));
    PrintedIsPlain(Rd(w), 0);
    SignedReads(ImmJ(w));
    PrintedIsPlain(Rd(w), ImmJ(w));
    TwoOperands(RegisterName(Rd(w)), SignedDecimal(ImmJ(w)));
    ReencodeJ(w);
  }

  lemma ReadsB(w: Word)
    requires IsPlainWord(w, FormatB)
    ensures ReadOperation(Decode(w).kind, Operands(PlainOperands(Decode(w)))) == Code(w)
  {
    hide Decode, Operands, PatternOf, IsRegister, RegisterOf, RegisterName, SignedDecimal, SignedValue, IsSigned;
    hide SignedOf, Opcode, Rd, Funct3, Rs1, Rs2, Funct7, Lacks, Three, Two, OffsetFrom, Hex, IsHex, HexOf, IsOffset;
    hide OffsetOf, BaseOf, OffsetText, EncodeR, EncodeI, EncodeS, EncodeB, EncodeJ, ImmI, ImmS, ImmB, ImmJ, ImmU, Shr;
    PlainParts(w);
    ShapeOf(Decode(w).kind);
    RegisterReads(Rs1(w));
    PrintedIsPlain(Rs1(w), 0);
    RegisterReads(Rs2(w));
    PrintedIsPlain(Rs2(w), 0);
    SignedReads(ImmB(w));
    PrintedIsPlain(Rs1(w), ImmB(w));
    ThreeOperands(RegisterName(Rs1(w)), RegisterName(Rs2(w)), SignedDecimal(ImmB(w)));
    ReencodeB(w);
  }

  lemma ReadsS(w: Word)
    requires IsPlainWord(w, FormatS)
    ensures ReadOperation(Decode(w).kind, Operands(PlainOperands(Decode(w)))) == Code(w)
  {
    hide Decode, Operands, PatternOf, IsRegister, RegisterOf, RegisterName, SignedDecimal, SignedValue, IsSigned;
    hide SignedOf, Opcode, Rd, Funct3, Rs1, Rs2, Funct7, Lacks, Three, Two, OffsetFrom, Hex, IsHex, HexOf, IsOffset;
    hide OffsetOf, BaseOf, OffsetText, EncodeR, EncodeI, EncodeS, EncodeB, EncodeJ, ImmI, ImmS, ImmB, ImmJ, ImmU, Shr;
    PlainParts(w);
    ShapeOf(Decode(w).kind);
    RegisterReads(Rs2(w));
    PrintedIsPlain(Rs2(w), 0);
    OffsetReads(ImmS(w), Rs1(w));
    OffsetOperands(RegisterName(Rs2(w)), ImmS(w), Rs1(w));
    ReencodeS(w);
  }

  lemma ReadsOffset(w: Word)
    requires IsPlainWord(w, FormatI) && HasOffsetOperand(Decode(w).kind)
    ensures ReadOperation(Decode(w).kind, Operands(PlainOperands(Decode(w)))) == Code(w)
  {
    hide Decode, Operands, PatternOf, IsRegister, RegisterOf, RegisterName, SignedDecimal, SignedValue, IsSigned;
    hide SignedOf, Opcode, Rd, Funct3, Rs1, Rs2, Funct7, Lacks, Three, Two, OffsetFrom, Hex, IsHex, HexOf, IsOffset;
    hide OffsetOf, BaseOf, OffsetText, EncodeR, EncodeI, EncodeS, EncodeB, EncodeJ, ImmI, ImmS, ImmB, ImmJ, ImmU, Shr;
    PlainParts(w);
    ShapeOf(Decode(w).kind);
    RegisterReads(Rd(w));
    PrintedIsPlain(Rd(w), 0);
    OffsetReads(ImmI(w), Rs1(w));
    OffsetOperands(RegisterName(Rd(w)), ImmI(w), Rs1(w));
    ReencodeI(w);
  }

  lemma ReadsI(w: Word)
    requires IsPlainWord(w, FormatI) && !HasOffsetOperand(Decode(w).kind)
    ensures ReadOperation(Decode(w).kind, Operands(PlainOperands(Decode(w)))) == Code(w)
  {
    hide Decode, Operands, PatternOf, IsRegister, RegisterOf, RegisterName, SignedDecimal, SignedValue, IsSigned;
    hide SignedOf, Opcode, Rd, Funct3, Rs1, Rs2, Funct7, Lacks, Three, Two, OffsetFrom, Hex, IsHex, HexOf, IsOffset;
    hide OffsetOf, BaseOf, OffsetText, EncodeR, EncodeI, EncodeS, EncodeB, EncodeJ, ImmI, ImmS, ImmB, ImmJ, ImmU, Shr;
    PlainParts(w);
    ShapeOf(Decode(w).kind);
    RegisterReads(Rd(w));
    PrintedIsPlain(Rd(w), 0);
    RegisterReads(Rs1(w));
    PrintedIsPlain(Rs1(w), 0);
    var imm := SignedValue(Decode(w).immediate);
    SignedReads(imm);
    PrintedIsPlain(Rd(w), imm);
    ThreeOperands(RegisterName(Rd(w)), RegisterName(Rs1(w)), SignedDecimal(imm));
    ReencodeI(w);
  }

  // ----- Equal text -----

  /** Two words print alike exactly when they are the same word, or two FENCEs that order the same accesses. */
  lemma EqualText(v: Word, w: Word)
    ensures Text(v) == Text(w)
       <==> v == w || (Decode(v).kind == FENCE && Decode(w).kind == FENCE && v / 0x10_0000 == w / 0x10_0000)
  {
    hide Decode, Read, OperandText, Mnemonic;
    TextReads(v);
    TextReads(w);
    FenceDigits(v);
    FenceDigits(w);
    if Decode(v).kind == FENCE && Decode(w).kind == FENCE && v / 0x10_0000 == w / 0x10_0000 {
      SameFenceText(v, w);
    }
  }

  /** The top twelve bits and the three ordering fields determine each other. */
  lemma FenceDigits(w: Word)
    ensures w / 0x10_0000 == w / 0x1000_0000 * 256 + w / 0x100_0000 % 16 * 16 + w / 0x10_0000 % 16
  {
    var d := w / 0x10_0000;
    DivDiv(w, 0x10_0000, 16);
    DivDiv(w, 0x10_0000, 256);
    DivDiv(d, 16, 16);
  }

  lemma SameFenceText(v: Word, w: Word)
    requires Decode(v).kind == FENCE && Decode(w).kind == FENCE && v / 0x10_0000 == w / 0x10_0000
    ensures Text(v) == Text(w)
  {
    hide Decode, FenceFields, FenceOperands, Mnemonic;
    FenceFieldsMeaning(v);
    FenceFieldsMeaning(w);
    FieldsOfTop(v);
    FieldsOfTop(w);
  }

  lemma FieldsOfTop(w: Word)
    ensures w / 0x100_0000 == w / 0x10_0000 / 16 && w / 0x1000_0000 == w / 0x10_0000 / 256
  {
    DivDiv(w, 0x10_0000, 16);
    DivDiv(w, 0x10_0000, 256);
  }

  /** Words with equal text have equal effect on every hart: the same trap, or the same next state. */
  lemma EqualTextEqualEffect(v: Word, w: Word, h: Hart)
    requires Text(v) == Text(w)
    ensures Execute(h, v) == Execute(h, w)
  {
    hide Decode, KindOf, Text;
    EqualText(v, w);
    if v != w {
      DecodeKind(v);
      DecodeKind(w);
      FenceEffect(h, v);
      FenceEffect(h, w);
    }
  }

  lemma FenceEffect(h: Hart, w: Word)
    requires KindOf(w) == FENCE
    ensures Execute(h, w) == Retired(Retire(h, Wrap(h.pc + 4)))
  {
    hide KindOf, Target, DataAddress, Extend, Reg, SetReg, Retire, InRam, Rd, Rs1, Rs2, Wrap, Result;
  }
}
