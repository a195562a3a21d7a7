/**
 * Worked encodings: single lines of assembly and the words the assembler
 * prints for them, each checked against the RV32I field layout.
 */
module Examples {
  import opened Wrappers
  import opened Text
  import opened JsNumber
  import opened Registers
  import opened Operands
  import opened Encoding
  import opened Dispatch

  /** Eight upper-case hex digits print the word they denote. */
  lemma Prints(w: Bits32, h: string)
    requires IsHexWord(h)
    requires ((((((DigitValue(h[0]) * 16 + DigitValue(h[1])) * 16 + DigitValue(h[2])) * 16 + DigitValue(h[3])) * 16
             + DigitValue(h[4])) * 16 + DigitValue(h[5])) * 16 + DigitValue(h[6])) * 16 + DigitValue(h[7]) == w
    ensures ToHex(w) == h
  {
    HexWordValue(h);
    ToHexUnique(w, h);
  }

  /** A one-digit numbered register `xN`. */
  lemma SmallRegister(tok: string, n: int)
    requires 0 <= n < 10 && |tok| == 2 && tok[0] == 'x' && tok[1] == DecimalChar(n)
    ensures RegisterOperand(tok, n)
  {
    assert Decimal(n) == [DecimalChar(n)];
    assert tok == ['x'] + Decimal(n) by {
      assert tok == [tok[0]] + [tok[1]];
    }
    ParseRegisterNumbered(n, false);
  }

  /** `tok` is the decimal numeral of `n`. */
  lemma DecimalImmediate(n: int, tok: string)
    requires tok == Decimal(n)
    ensures ParseImmediate(Some(tok)) == Some(n)
  {
    ParseIntDecimal(n, "");
    assert Decimal(n) + "" == tok;
  }

  /** `addi x0, x0, 0` is the word `nop` stands for. */
  lemma NopIsAddiZero(t: seq<string>, pc: int, table: map<string, int>)
    requires |t| == 4 && t[0] == "addi" && t[1] == "x0" && t[2] == "x0" && t[3] == "0"
    ensures ProcessInstruction(t, pc, table) == Ok(NopWord)
  {
    LowerMnemonic(t[0]);
    AddiRoute(t, pc, table);
    AddiZero(t, 0);
  }

  /** Any `addi` line goes to the I-type encoder with opcode 0x13 and funct3 0. */
  lemma AddiRoute(t: seq<string>, pc: int, table: map<string, int>)
    requires |t| >= 1 && ToLower(t[0]) == "addi"
    ensures ProcessInstruction(t, pc, table) == EncodeIType(t, 0x13, 0x0, 0)
  {
    MnemonicsOfExamples();
    Dispatches(t, pc, table, "addi", IFormat(0x13, 0x0, 0), EncodeIType(t, 0x13, 0x0, 0));
  }

  /** The switch entries the examples go through. */
  lemma MnemonicsOfExamples()
    ensures Mnemonic("addi") == Some(IFormat(0x13, 0x0, 0)) && Mnemonic("add") == Some(RFormat(0x0, 0x00))
    ensures Mnemonic("sw") == Some(SFormat(0x2)) && Mnemonic("beq") == Some(BFormat(0x0)) && Mnemonic("jal") == Some(JFormat)
  {
  }

  lemma AddiZero(t: seq<string>, z: int)
    requires |t| == 4 && t[1] == "x0" && t[2] == "x0" && t[3] == "0" && z == 0
    ensures EncodeIType(t, 0x13, z, z) == Ok(NopWord)
  {
    AddiOperands(t, z);
    EncodeITypeFields(t, 0x13, z, z, z, z);
    AddiValue(z);
    NopWordPrints();
  }

  lemma AddiOperands(t: seq<string>, z: int)
    requires |t| == 4 && t[1] == "x0" && t[2] == "x0" && t[3] == "0" && z == 0
    ensures MatchMemOperand(t[2]).None? && RegisterOperand(t[1], z) && RegisterOperand(t[2], z)
    ensures ParseImmediate(Some(t[3])) == Some(z)
  {
    SmallRegister(t[1], z);
    SmallRegister(t[2], z);
    ZeroImmediate(t[3], z);
    NoParen(t[2]);
  }

  lemma ZeroImmediate(tok: string, z: int)
    requires tok == "0" && z == 0
    ensures ParseImmediate(Some(tok)) == Some(z)
  {
    assert Decimal(z) == [DecimalChar(z)];
    DecimalImmediate(z, tok);
  }

  lemma NoParen(tok: string)
    requires |tok| == 2 && tok[0] != '(' && tok[1] != '('
    ensures MatchMemOperand(tok).None?
  {
    MatchNeedsParen(tok);
  }

  lemma AddiValue(z: int)
    requires z == 0
    ensures IWord(ToInt32(Some(z)), z, z, z, 0x13) == 0x13
  {
    IWordSum(z, z, z, z, 0x13);
    Pow2Table();
  }

  lemma NopWordPrints()
    ensures ToHex(0x13) == NopWord
  {
    Prints(0x13, NopWord);
  }

  /** `add x1, x2, x3` is `003100B3`. */
  lemma AddExample(t: seq<string>, pc: int, table: map<string, int>)
    requires |t| == 4 && t[0] == "add" && t[1] == "x1" && t[2] == "x2" && t[3] == "x3"
    ensures ProcessInstruction(t, pc, table) == Ok("003100B3")
  {
    LowerMnemonic(t[0]);
    AddWord(t, 0, 1, 2, 3);
    assert Encode(RFormat(0x0, 0x00), t, pc, table) == EncodeRType(t, 0x33, 0x0, 0x00);
    MnemonicsOfExamples();
    Dispatches(t, pc, table, "add", RFormat(0x0, 0x00), Ok("003100B3"));
  }

  lemma AddWord(t: seq<string>, z: int, a: int, b: int, c: int)
    requires |t| == 4 && t[1] == "x1" && t[2] == "x2" && t[3] == "x3"
    requires z == 0 && a == 1 && b == 2 && c == 3
    ensures EncodeRType(t, 0x33, z, z) == Ok("003100B3")
  {
    SmallRegister(t[1], a);
    SmallRegister(t[2], b);
    SmallRegister(t[3], c);
    EncodeRTypeFields(t, 0x33, z, z, a, b, c);
    AddPrints(z, a, b, c);
  }

  lemma AddPrints(z: int, a: int, b: int, c: int)
    requires z == 0 && a == 1 && b == 2 && c == 3
    ensures ToHex(RWord(z, c, b, z, a, 0x33)) == "003100B3"
  {
    RWordSum(z, c, b, z, a, 0x33);
    AddHex();
  }

  lemma AddHex()
    ensures ToHex(0x3100B3) == "003100B3"
  {
    Prints(0x3100B3, "003100B3");
  }

  /** Any `sw` line goes to the store encoder with funct3 2. */
  lemma StoreRoute(t: seq<string>, pc: int, table: map<string, int>)
    requires |t| >= 1 && ToLower(t[0]) == "sw"
    ensures ProcessInstruction(t, pc, table) == EncodeSType(t, 0x23, 0x2)
  {
    MnemonicsOfExamples();
    Dispatches(t, pc, table, "sw", SFormat(0x2), EncodeSType(t, 0x23, 0x2));
  }

  /** Any `beq` line goes to the branch encoder with funct3 0. */
  lemma BranchRoute(t: seq<string>, pc: int, table: map<string, int>)
    requires |t| >= 1 && ToLower(t[0]) == "beq"
    ensures ProcessInstruction(t, pc, table) == EncodeBType(t, pc, table, 0x63, 0x0)
  {
    MnemonicsOfExamples();
    Dispatches(t, pc, table, "beq", BFormat(0x0), EncodeBType(t, pc, table, 0x63, 0x0));
  }

  /** Any `jal` line goes to the jump encoder. */
  lemma JumpRoute(t: seq<string>, pc: int, table: map<string, int>)
    requires |t| >= 1 && ToLower(t[0]) == "jal"
    ensures ProcessInstruction(t, pc, table) == EncodeJType(t, pc, table, 0x6F)
  {
    MnemonicsOfExamples();
    Dispatches(t, pc, table, "jal", JFormat, EncodeJType(t, pc, table, 0x6F));
  }

  /** `sw x5, 8(x6)` is `00532423`. */
  lemma StoreInstruction(t: seq<string>, pc: int, table: map<string, int>)
    requires |t| == 3 && t[0] == "sw" && t[1] == "x5" && t[2] == "8(x6)"
    ensures ProcessInstruction(t, pc, table) == Ok("00532423")
  {
    LowerMnemonic(t[0]);
    StoreRoute(t, pc, table);
    StoreExample(t);
  }

  lemma StoreExample(t: seq<string>)
    requires |t| == 3 && t[0] == "sw" && t[1] == "x5" && t[2] == "8(x6)"
    ensures EncodeSType(t, 0x23, 0x2) == Ok("00532423")
  {
    var imm, base := "8", "x6";
    SplitMemoryOperand(t[2], imm, base);
    StoreFields(t, imm, base, 2, 5, 6, 8);
  }

  lemma StoreFields(t: seq<string>, imm: string, base: string, f: int, a: int, b: int, v: int)
    requires |t| == 3 && t[1] == "x5" && t[2] == imm + "(" + base + ")" && imm == "8" && base == "x6"
    requires f == 2 && a == 5 && b == 6 && v == 8
    ensures EncodeSType(t, 0x23, f) == Ok("00532423")
  {
    StoreOperands(t, imm, base, a, b, v);
    EncodeSTypeFields(t, 0x23, f, a, imm, base, b, v);
    StoreValue(f, a, b, v);
    StoreHex();
  }

  lemma SplitMemoryOperand(s: string, imm: string, base: string)
    requires |imm| == 1 && |base| == 2 && |s| == 5
    requires s[0] == imm[0] && s[1] == '(' && s[2] == base[0] && s[3] == base[1] && s[4] == ')'
    ensures s == imm + "(" + base + ")"
  {
  }

  lemma StoreOperands(t: seq<string>, imm: string, base: string, a: int, b: int, v: int)
    requires |t| == 3 && t[1] == "x5" && imm == "8" && base == "x6" && a == 5 && b == 6 && v == 8
    ensures RegisterOperand(t[1], a) && RegisterOperand(base, b)
    ensures IsImmediateText(imm) && IsBaseText(base) && ParseImmediate(Some(imm)) == Some(v)
  {
    SmallRegister(t[1], a);
    SmallRegister(base, b);
    assert Decimal(v) == [DecimalChar(v)];
    DecimalImmediate(v, imm);
  }

  lemma StoreValue(f: int, a: int, b: int, v: int)
    requires f == 2 && a == 5 && b == 6 && v == 8
    ensures SWord(ToInt32(Some(v)), a, b, f, 0x23) == 0x532423
  {
    SWordSum(ToInt32(Some(v)), a, b, f, 0x23);
    StoreBits();
  }

  lemma StoreBits()
    ensures Low(Sar(ToInt32(Some(8)), 5), 7) == 0 && Low(ToInt32(Some(8)), 5) == 8
  {
  }

  lemma StoreHex()
    ensures ToHex(0x532423) == "00532423"
  {
    Prints(0x532423, "00532423");
  }

  /** At address 4, `beq x1, x0, start` with `start` at address 0 branches back by 4: `FE008EE3`. */
  lemma BranchInstruction(t: seq<string>, pc: int, table: map<string, int>)
    requires |t| == 4 && t[0] == "beq" && t[1] == "x1" && t[2] == "x0" && t[3] == "start"
    requires pc == 4 && "start" in table && table["start"] == 0
    ensures ProcessInstruction(t, pc, table) == Ok("FE008EE3")
  {
    LowerMnemonic(t[0]);
    BranchRoute(t, pc, table);
    BranchExample(t, pc, table, 0, 1, -4);
  }

  lemma BranchExample(t: seq<string>, pc: int, table: map<string, int>, z: int, a: int, off: int)
    requires |t| == 4 && t[0] == "beq" && t[1] == "x1" && t[2] == "x0" && t[3] == "start"
    requires pc == 4 && "start" in table && table["start"] == 0
    requires z == 0 && a == 1 && off == -4
    ensures EncodeBType(t, pc, table, 0x63, z) == Ok("FE008EE3")
  {
    BranchOperands(t, pc, table, z, a, off);
    EncodeBTypeFields(t, pc, table, 0x63, z, a, z, off);
    BranchValue(z, a, off);
    BranchHex();
  }

  lemma BranchOperands(t: seq<string>, pc: int, table: map<string, int>, z: int, a: int, off: int)
    requires |t| == 4 && t[1] == "x1" && t[2] == "x0" && t[3] == "start"
    requires pc == 4 && "start" in table && table["start"] == 0
    requires z == 0 && a == 1 && off == -4
    ensures RegisterOperand(t[1], a) && RegisterOperand(t[2], z) && BranchOffset(Some(t[3]), pc, table) == Some(off)
  {
    SmallRegister(t[1], a);
    SmallRegister(t[2], z);
    LabelOffset(t[3], pc, table, off);
  }

  /** A label in the table is its address less the current one. */
  lemma LabelOffset(target: string, pc: int, table: map<string, int>, off: int)
    requires target in table && off == table[target] - pc
    ensures BranchOffset(Some(target), pc, table) == Some(off)
  {
  }

  lemma BranchValue(z: int, a: int, off: int)
    requires z == 0 && a == 1 && off == -4
    ensures BWord(ToInt32(Some(off)), a, z, z, 0x63) == 0xFE008EE3
  {
    BWordSum(ToInt32(Some(off)), a, z, z, 0x63);
    BranchBits();
  }

  lemma BranchBits()
    ensures Low(Sar(ToInt32(Some(-4)), 12), 1) == 1 && Low(Sar(ToInt32(Some(-4)), 11), 1) == 1
    ensures Low(Sar(ToInt32(Some(-4)), 5), 6) == 0x3F && Low(Sar(ToInt32(Some(-4)), 1), 4) == 0xE
  {
  }

  lemma BranchHex()
    ensures ToHex(0xFE008EE3) == "FE008EE3"
  {
    Prints(0xFE008EE3, "FE008EE3");
  }

  /**
   * `jal x1, nowhere` with no label `nowhere` assembles without complaint:
   * the target reads as NaN, which packs as offset 0, giving `000000EF`.
   */
  lemma UndefinedLabelInstruction(t: seq<string>, pc: int, table: map<string, int>)
    requires |t| == 3 && t[0] == "jal" && t[1] == "x1" && t[2] == "nowhere" && "nowhere" !in table
    ensures ProcessInstruction(t, pc, table) == Ok("000000EF")
  {
    LowerMnemonic(t[0]);
    JumpRoute(t, pc, table);
    UndefinedLabelExample(t, pc, table, 0, 1);
  }

  lemma UndefinedLabelExample(t: seq<string>, pc: int, table: map<string, int>, z: int, a: int)
    requires |t| == 3 && t[0] == "jal" && t[1] == "x1" && t[2] == "nowhere" && "nowhere" !in table
    requires z == 0 && a == 1
    ensures EncodeJType(t, pc, table, 0x6F) == Ok("000000EF")
  {
    JumpFields(t, pc, table, a);
    JumpValue(z, a);
    JumpHex();
  }

  lemma JumpFields(t: seq<string>, pc: int, table: map<string, int>, a: int)
    requires |t| == 3 && t[1] == "x1" && t[2] == "nowhere" && "nowhere" !in table && a == 1
    ensures EncodeJType(t, pc, table, 0x6F) == Ok(ToHex(JWord(0, a, 0x6F)))
  {
    SmallRegister(t[1], a);
    UnknownTarget(t[2], pc, table);
    assert Arg(t, 1) == Some(t[1]) && Arg(t, 2) == Some(t[2]);
    SmallValue(a);
  }

  /** A word that is neither a label nor a number is NaN. */
  lemma UnknownTarget(target: string, pc: int, table: map<string, int>)
    requires target !in table && |target| > 0 && 'a' <= target[0] <= 'z'
    ensures BranchOffset(Some(target), pc, table) == None
  {
    ParseIntNoDigits(target);
  }

  lemma JumpValue(z: int, a: int)
    requires z == 0 && a == 1
    ensures JWord(z, a, 0x6F) == 0xEF
  {
    JWordSum(z, a, 0x6F);
    JumpBits();
  }

  lemma JumpBits()
    ensures Low(Sar(0, 20), 1) == 0 && Low(Sar(0, 1), 10) == 0 && Low(Sar(0, 11), 1) == 0 && Low(Sar(0, 12), 8) == 0
  {
  }

  lemma JumpHex()
    ensures ToHex(0xEF) == "000000EF"
  {
    Prints(0xEF, "000000EF");
  }
}
