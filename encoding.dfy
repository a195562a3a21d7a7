/**
 * The five RV32I encoders. Each parses its operands in the order the source
 * does, so the first failing operand decides the error, and packs the fields
 * with JavaScript's 32-bit `<<`, `>>`, `&` and `|` into a word printed by
 * `toHex`. The `*Field` functions read the fields back with the layouts of
 * the RISC-V unprivileged ISA (chapter 2, "Base Instruction Formats").
 */
module Encoding {
  import opened Wrappers
  import opened Text
  import opened JsNumber
  import opened Errors
  import opened Registers
  import opened Operands

  /** `tokens[i]`, which is `undefined` past the end. */
  function Arg(tokens: seq<string>, i: nat): Option<string> {
    if i < |tokens| then Some(tokens[i]) else None
  }

  /** String conversion of an operand: a missing one becomes the text `undefined`. */
  function JsString(o: Option<string>): string {
    if o.None? then "undefined" else o.value
  }

  /** `parseImmediate(immStr)`, which is `parseInt(immStr)`. */
  function ParseImmediate(o: Option<string>): Option<int> {
    ParseInt(JsString(o))
  }

  /** A missing immediate is NaN, which every bitwise operator reads as 0. */
  lemma ParseImmediateMissing()
    ensures ParseImmediate(None) == None && ToInt32(ParseImmediate(None)) == 0
  {
    ParseIntNoDigits("undefined");
  }

  // --------------------------------------------------------------- encoders

  /** `encodeRType`: three register operands, in the order rd, rs1, rs2. */
  function EncodeRType(tokens: seq<string>, opcode: Bits32, funct3: Bits32, funct7: Bits32): (r: Result<string, AsmError>)
    ensures r.Ok? ==> IsHexWord(r.value)
    ensures r.Err? ==> r.error == MissingRegister || r.error.InvalidRegister?
    ensures |tokens| < 4 ==> r.Err?
  {
    var rd :- ParseRegister(Arg(tokens, 1));
    var rs1 :- ParseRegister(Arg(tokens, 2));
    var rs2 :- ParseRegister(Arg(tokens, 3));
    Ok(ToHex(RWord(funct7, ToInt32(rs2), ToInt32(rs1), funct3, ToInt32(rd), opcode)))
  }

  /**
   * The operands `(rd, rs1, imm)` of an I-type instruction: `rd, imm(rs1)`
   * when the third token is a memory operand, `rd, rs1, imm` otherwise.
   * Only registers can fail; a missing or malformed immediate is NaN.
   */
  function ITypeOperands(tokens: seq<string>): (r: Result<(Option<int>, Option<int>, Option<int>), AsmError>)
    requires |tokens| >= 3
    ensures r.Err? ==> r.error == MissingRegister || r.error.InvalidRegister?
  {
    match MatchMemOperand(tokens[2])
    case Some((imm, base)) =>
      var rd :- ParseRegister(Arg(tokens, 1));
      var immediate := ParseImmediate(Some(imm));
      var rs1 :- ParseRegister(Some(base));
      Ok((rd, rs1, immediate))
    case None =>
      var rd :- ParseRegister(Arg(tokens, 1));
      var rs1 :- ParseRegister(Arg(tokens, 2));
      var immediate := ParseImmediate(Arg(tokens, 3));
      Ok((rd, rs1, immediate))
  }

  /**
   * `encodeIType`: the third token is tested against the memory-operand
   * pattern before anything else, so an instruction with fewer than three
   * tokens fails there; a non-zero `specialFunct7` replaces the immediate by
   * its low five bits under `specialFunct7 << 5`.
   */
  function EncodeIType(tokens: seq<string>, opcode: Bits32, funct3: Bits32, specialFunct7: Bits32): (r: Result<string, AsmError>)
    ensures r.Ok? ==> IsHexWord(r.value)
    ensures r.Err? ==> r.error == MatchOnUndefined || r.error == MissingRegister || r.error.InvalidRegister?
    ensures r == Err(MatchOnUndefined) <==> |tokens| < 3
  {
    if |tokens| < 3 then Err(MatchOnUndefined)
    else
      var ops :- ITypeOperands(tokens);
      var imm := if specialFunct7 != 0 then ShiftImmediate(ToInt32(ops.2), specialFunct7) else ToInt32(ops.2);
      Ok(ToHex(IWord(imm, ToInt32(ops.1), funct3, ToInt32(ops.0), opcode)))
  }

  /** `encodeSType`: `rs2, imm(rs1)`; any other second operand is "Invalid Store syntax". */
  function EncodeSType(tokens: seq<string>, opcode: Bits32, funct3: Bits32): (r: Result<string, AsmError>)
    ensures r.Ok? ==> IsHexWord(r.value)
    ensures r.Err? ==> r.error == MatchOnUndefined || r.error == InvalidStoreSyntax
                       || r.error == MissingRegister || r.error.InvalidRegister?
    ensures r.Ok? ==> |tokens| >= 3 && MatchMemOperand(tokens[2]).Some?
  {
    var rs2 :- ParseRegister(Arg(tokens, 1));
    if |tokens| < 3 then Err(MatchOnUndefined)
    else
      match MatchMemOperand(tokens[2])
      case None => Err(InvalidStoreSyntax)
      case Some((imm, base)) =>
        var immediate := ParseImmediate(Some(imm));
        var rs1 :- ParseRegister(Some(base));
        Ok(ToHex(SWord(ToInt32(immediate), ToInt32(rs2), ToInt32(rs1), funct3, opcode)))
  }

  /**
   * `targetPC - currentPC` for a branch or jump target: a label's address
   * from the symbol table (a missing operand looks up the key `undefined`),
   * else `currentPC + parseImmediate(label)`, so a number is the offset itself
   * and anything else is NaN. Nothing here can throw, so the source's
   * "Undefined label" handler is never reached.
   */
  function BranchOffset(target: Option<string>, pc: int, table: map<string, int>): (r: Option<int>)
    ensures JsString(target) in table ==> r == Some(table[JsString(target)] - pc)
    ensures JsString(target) !in table ==> r == ParseImmediate(target)
  {
    var key := JsString(target);
    if key in table then Some(table[key] - pc)
    else
      match ParseImmediate(target)
      case None => None
      case Some(n) => Some((pc + n) - pc)
  }

  /** `encodeBType`: `rs1, rs2, target`. */
  function EncodeBType(tokens: seq<string>, pc: int, table: map<string, int>, opcode: Bits32, funct3: Bits32): (r: Result<string, AsmError>)
    ensures r.Ok? ==> IsHexWord(r.value)
    ensures r.Err? ==> r.error == MissingRegister || r.error.InvalidRegister?
  {
    var rs1 :- ParseRegister(Arg(tokens, 1));
    var rs2 :- ParseRegister(Arg(tokens, 2));
    var offset := BranchOffset(Arg(tokens, 3), pc, table);
    Ok(ToHex(BWord(ToInt32(offset), ToInt32(rs1), ToInt32(rs2), funct3, opcode)))
  }

  /** `encodeJType`: `rd, target`, or just `target` with `rd` = 1 (`ra`) when there are exactly two tokens. */
  function EncodeJType(tokens: seq<string>, pc: int, table: map<string, int>, opcode: Bits32): (r: Result<string, AsmError>)
    ensures r.Ok? ==> IsHexWord(r.value)
    ensures r.Err? ==> r.error == MissingRegister || r.error.InvalidRegister?
    ensures |tokens| == 2 ==> r.Ok?
  {
    var rd :- if |tokens| == 2 then Ok(Some(1)) else ParseRegister(Arg(tokens, 1));
    var target := if |tokens| == 2 then Arg(tokens, 1) else Arg(tokens, 2);
    Ok(ToHex(JWord(ToInt32(BranchOffset(target, pc, table)), ToInt32(rd), opcode)))
  }

  /** `tok` names register `r`, one of the 32 that fit a 5-bit field. */
  predicate RegisterOperand(tok: string, r: int) {
    0 <= r < 0x20 && ParseRegister(Some(tok)) == Ok(Some(r))
  }

  lemma SmallValue(x: int)
    requires 0 <= x < 0x1_0000_0000
    ensures ToInt32(Some(x)) == x
  {
  }

  lemma EncodeRTypeOk(tokens: seq<string>, opcode: Bits32, funct3: Bits32, funct7: Bits32, rd: int, rs1: int, rs2: int)
    requires ParseRegister(Arg(tokens, 1)) == Ok(Some(rd)) && ParseRegister(Arg(tokens, 2)) == Ok(Some(rs1))
    requires ParseRegister(Arg(tokens, 3)) == Ok(Some(rs2))
    ensures EncodeRType(tokens, opcode, funct3, funct7)
         == Ok(ToHex(RWord(funct7, ToInt32(Some(rs2)), ToInt32(Some(rs1)), funct3, ToInt32(Some(rd)), opcode)))
  {
  }

  /** `add rd, rs1, rs2` and the rest of the R group: the word holds the three registers and the group's constants. */
  lemma EncodeRTypeFields(tokens: seq<string>, opcode: Bits32, funct3: Bits32, funct7: Bits32, rd: int, rs1: int, rs2: int)
    requires opcode < 0x80 && funct3 < 0x8 && funct7 < 0x80
    requires |tokens| >= 4 && RegisterOperand(tokens[1], rd) && RegisterOperand(tokens[2], rs1) && RegisterOperand(tokens[3], rs2)
    ensures var w := RWord(funct7, rs2, rs1, funct3, rd, opcode);
      EncodeRType(tokens, opcode, funct3, funct7) == Ok(ToHex(w))
      && OpcodeField(w) == opcode && RdField(w) == rd && Funct3Field(w) == funct3
      && Rs1Field(w) == rs1 && Rs2Field(w) == rs2 && Funct7Field(w) == funct7
  {
    EncodeRTypeWord(tokens, opcode, funct3, funct7, rd, rs1, rs2);
    RWordDecodes(funct7, rs2, rs1, funct3, rd, opcode);
  }

  lemma EncodeRTypeWord(tokens: seq<string>, opcode: Bits32, funct3: Bits32, funct7: Bits32, rd: int, rs1: int, rs2: int)
    requires |tokens| >= 4 && RegisterOperand(tokens[1], rd) && RegisterOperand(tokens[2], rs1) && RegisterOperand(tokens[3], rs2)
    ensures EncodeRType(tokens, opcode, funct3, funct7) == Ok(ToHex(RWord(funct7, rs2, rs1, funct3, rd, opcode)))
  {
    assert Arg(tokens, 1) == Some(tokens[1]) && Arg(tokens, 2) == Some(tokens[2]) && Arg(tokens, 3) == Some(tokens[3]);
    EncodeRTypeOk(tokens, opcode, funct3, funct7, rd, rs1, rs2);
    SmallValue(rd);
    SmallValue(rs1);
    SmallValue(rs2);
  }

  /** `lw rd, imm(rs1)` encodes exactly as `lw rd, rs1, imm`, errors included. */
  lemma EncodeITypeMemoryForm(name: string, rd: string, imm: string, base: string, rest: seq<string>,
                              opcode: Bits32, funct3: Bits32, specialFunct7: Bits32)
    requires IsImmediateText(imm) && IsBaseText(base)
    ensures EncodeIType([name, rd, imm + "(" + base + ")"] + rest, opcode, funct3, specialFunct7)
         == EncodeIType([name, rd, base, imm], opcode, funct3, specialFunct7)
  {
    var mem := [name, rd, imm + "(" + base + ")"] + rest;
    var flat := [name, rd, base, imm];
    MatchMemOperandComplete(imm, base);
    MatchNeedsParen(base);
    assert mem[2] == imm + "(" + base + ")" && Arg(mem, 1) == Some(rd);
    assert flat[2] == base && Arg(flat, 1) == Some(rd) && Arg(flat, 2) == Some(base) && Arg(flat, 3) == Some(imm);
    MemoryFormOperands(mem, flat, imm, base);
    SameOperandsSameWord(mem, flat, opcode, funct3, specialFunct7);
  }

  /** `encodeIType` on three or more tokens depends only on the operands it reads. */
  lemma SameOperandsSameWord(a: seq<string>, b: seq<string>, opcode: Bits32, funct3: Bits32, specialFunct7: Bits32)
    requires |a| >= 3 && |b| >= 3 && ITypeOperands(a) == ITypeOperands(b)
    ensures EncodeIType(a, opcode, funct3, specialFunct7) == EncodeIType(b, opcode, funct3, specialFunct7)
  {
    match ITypeOperands(a)
    case Err(_) =>
    case Ok(_) =>
  }

  /** The memory form and the flat form read the same three operands. */
  lemma MemoryFormOperands(mem: seq<string>, flat: seq<string>, imm: string, base: string)
    requires |mem| >= 3 && |flat| >= 3
    requires MatchMemOperand(mem[2]) == Some((imm, base)) && MatchMemOperand(flat[2]).None?
    requires Arg(mem, 1) == Arg(flat, 1) && Arg(flat, 2) == Some(base) && Arg(flat, 3) == Some(imm)
    ensures ITypeOperands(mem) == ITypeOperands(flat)
  {
  }

  lemma EncodeITypeOk(tokens: seq<string>, opcode: Bits32, funct3: Bits32, specialFunct7: Bits32, rd: int, rs1: int, imm: Option<int>)
    requires |tokens| >= 3 && MatchMemOperand(tokens[2]).None?
    requires ParseRegister(Arg(tokens, 1)) == Ok(Some(rd)) && ParseRegister(Arg(tokens, 2)) == Ok(Some(rs1))
    requires ParseImmediate(Arg(tokens, 3)) == imm
    ensures EncodeIType(tokens, opcode, funct3, specialFunct7)
         == Ok(ToHex(IWord(if specialFunct7 != 0 then ShiftImmediate(ToInt32(imm), specialFunct7) else ToInt32(imm),
                           ToInt32(Some(rs1)), funct3, ToInt32(Some(rd)), opcode)))
  {
    assert ITypeOperands(tokens) == Ok((Some(rd), Some(rs1), imm));
  }

  /** `addi rd, rs1, imm` and the rest of the I group: the word holds the registers and the immediate's low 12 bits. */
  lemma EncodeITypeFields(tokens: seq<string>, opcode: Bits32, funct3: Bits32, rd: int, rs1: int, imm: int)
    requires opcode < 0x80 && funct3 < 0x8
    requires |tokens| >= 4 && MatchMemOperand(tokens[2]).None?
    requires RegisterOperand(tokens[1], rd) && RegisterOperand(tokens[2], rs1) && ParseImmediate(Some(tokens[3])) == Some(imm)
    ensures var w := IWord(ToInt32(Some(imm)), rs1, funct3, rd, opcode);
      EncodeIType(tokens, opcode, funct3, 0) == Ok(ToHex(w))
      && OpcodeField(w) == opcode && RdField(w) == rd && Funct3Field(w) == funct3 && Rs1Field(w) == rs1
      && w / 0x10_0000 == imm % 0x1000
      && (-0x800 <= imm < 0x800 ==> ImmIField(w) == imm)
  {
    EncodeITypeWord(tokens, opcode, funct3, 0, rd, rs1, imm);
    IWordDecodes(imm, rs1, funct3, rd, opcode);
  }

  /**
   * `addi rd, rs1` with the immediate left out still encodes: the missing
   * token is `undefined`, `parseInt` makes it NaN and the shift makes that 0.
   */
  lemma EncodeITypeNoImmediate(tokens: seq<string>, opcode: Bits32, funct3: Bits32, rd: int, rs1: int)
    requires opcode < 0x80 && funct3 < 0x8
    requires |tokens| == 3 && MatchMemOperand(tokens[2]).None?
    requires RegisterOperand(tokens[1], rd) && RegisterOperand(tokens[2], rs1)
    ensures var w := IWord(0, rs1, funct3, rd, opcode);
      EncodeIType(tokens, opcode, funct3, 0) == Ok(ToHex(w))
      && OpcodeField(w) == opcode && RdField(w) == rd && Funct3Field(w) == funct3 && Rs1Field(w) == rs1
      && ImmIField(w) == 0
  {
    NoImmediateWord(tokens, opcode, funct3, rd, rs1);
    ZeroImmediateFields(rs1, funct3, rd, opcode);
  }

  lemma NoImmediateWord(tokens: seq<string>, opcode: Bits32, funct3: Bits32, rd: int, rs1: int)
    requires |tokens| == 3 && MatchMemOperand(tokens[2]).None?
    requires RegisterOperand(tokens[1], rd) && RegisterOperand(tokens[2], rs1)
    ensures EncodeIType(tokens, opcode, funct3, 0) == Ok(ToHex(IWord(0, rs1, funct3, rd, opcode)))
  {
    assert Arg(tokens, 1) == Some(tokens[1]) && Arg(tokens, 2) == Some(tokens[2]) && Arg(tokens, 3) == None;
    ParseImmediateMissing();
    EncodeITypeOk(tokens, opcode, funct3, 0, rd, rs1, None);
    SmallValue(rd);
    SmallValue(rs1);
  }

  lemma ZeroImmediateFields(rs1: Bits32, funct3: Bits32, rd: Bits32, opcode: Bits32)
    requires rs1 < 0x20 && funct3 < 0x8 && rd < 0x20 && opcode < 0x80
    ensures var w := IWord(0, rs1, funct3, rd, opcode);
      OpcodeField(w) == opcode && RdField(w) == rd && Funct3Field(w) == funct3 && Rs1Field(w) == rs1
      && ImmIField(w) == 0
  {
    IWordDecodes(0, rs1, funct3, rd, opcode);
    assert ToInt32(Some(0)) == 0;
  }

  lemma EncodeITypeWord(tokens: seq<string>, opcode: Bits32, funct3: Bits32, specialFunct7: Bits32, rd: int, rs1: int, imm: int)
    requires |tokens| >= 4 && MatchMemOperand(tokens[2]).None?
    requires RegisterOperand(tokens[1], rd) && RegisterOperand(tokens[2], rs1) && ParseImmediate(Some(tokens[3])) == Some(imm)
    ensures EncodeIType(tokens, opcode, funct3, specialFunct7)
         == Ok(ToHex(IWord(if specialFunct7 != 0 then ShiftImmediate(ToInt32(Some(imm)), specialFunct7) else ToInt32(Some(imm)),
                           rs1, funct3, rd, opcode)))
  {
    assert Arg(tokens, 1) == Some(tokens[1]) && Arg(tokens, 2) == Some(tokens[2]) && Arg(tokens, 3) == Some(tokens[3]);
    EncodeITypeOk(tokens, opcode, funct3, specialFunct7, rd, rs1, Some(imm));
    SmallValue(rd);
    SmallValue(rs1);
  }

  /** `srai rd, rs1, shamt`: the shift amount modulo 32 in the rs2 position and 0x20 in the funct7 position. */
  lemma EncodeSraiFields(tokens: seq<string>, rd: int, rs1: int, shamt: int)
    requires |tokens| >= 4 && MatchMemOperand(tokens[2]).None?
    requires RegisterOperand(tokens[1], rd) && RegisterOperand(tokens[2], rs1) && ParseImmediate(Some(tokens[3])) == Some(shamt)
    ensures var w := IWord(ShiftImmediate(ToInt32(Some(shamt)), 0x20), rs1, 0x5, rd, 0x13);
      EncodeIType(tokens, 0x13, 0x5, 0x20) == Ok(ToHex(w))
      && OpcodeField(w) == 0x13 && RdField(w) == rd && Funct3Field(w) == 0x5 && Rs1Field(w) == rs1
      && Rs2Field(w) == shamt % 0x20 && Funct7Field(w) == 0x20
  {
    EncodeITypeWord(tokens, 0x13, 0x5, 0x20, rd, rs1, shamt);
    var i := ShiftImmediate(ToInt32(Some(shamt)), 0x20);
    SraiWord(i, shamt, rs1, rd);
  }

  lemma SraiWord(i: Bits32, shamt: int, rs1: int, rd: int)
    requires i == ShiftImmediate(ToInt32(Some(shamt)), 0x20) && 0 <= rs1 < 0x20 && 0 <= rd < 0x20
    ensures var w := IWord(i, rs1, 0x5, rd, 0x13);
      OpcodeField(w) == 0x13 && RdField(w) == rd && Funct3Field(w) == 0x5 && Rs1Field(w) == rs1
      && Rs2Field(w) == shamt % 0x20 && Funct7Field(w) == 0x20
  {
    IWordDecodes(i, rs1, 0x5, rd, 0x13);
    SmallValue(i);
    ShiftImmediateFields(shamt);
    ShiftFields(IWord(i, rs1, 0x5, rd, 0x13), shamt % 0x20);
  }

  /** The immediate field `0x400 + s` reads as funct7 0x20 over rs2 `s`. */
  lemma ShiftFields(w: Bits32, s: int)
    requires w / 0x10_0000 == 0x400 + s && 0 <= s < 0x20
    ensures Rs2Field(w) == s && Funct7Field(w) == 0x20
  {
    DivDiv(w, 0x10_0000, 0x20);
    FieldAt(w / 0x10_0000, 0x20, s, 0, 1, 0x20);
  }

  lemma EncodeSTypeOk(tokens: seq<string>, opcode: Bits32, funct3: Bits32, rs2: int, imm: string, base: string, rs1: int)
    requires |tokens| >= 3 && MatchMemOperand(tokens[2]) == Some((imm, base))
    requires ParseRegister(Arg(tokens, 1)) == Ok(Some(rs2)) && ParseRegister(Some(base)) == Ok(Some(rs1))
    ensures EncodeSType(tokens, opcode, funct3)
         == Ok(ToHex(SWord(ToInt32(ParseImmediate(Some(imm))), ToInt32(Some(rs2)), ToInt32(Some(rs1)), funct3, opcode)))
  {
  }

  /** `sw rs2, imm(rs1)` and the rest of the S group: the word holds both registers and the immediate's low 12 bits. */
  lemma EncodeSTypeFields(tokens: seq<string>, opcode: Bits32, funct3: Bits32, rs2: int, imm: string, base: string, rs1: int, value: int)
    requires opcode < 0x80 && funct3 < 0x8
    requires |tokens| >= 3 && tokens[2] == imm + "(" + base + ")" && IsImmediateText(imm) && IsBaseText(base)
    requires RegisterOperand(tokens[1], rs2) && RegisterOperand(base, rs1)
    requires ParseImmediate(Some(imm)) == Some(value)
    ensures var w := SWord(ToInt32(Some(value)), rs2, rs1, funct3, opcode);
      EncodeSType(tokens, opcode, funct3) == Ok(ToHex(w))
      && OpcodeField(w) == opcode && Funct3Field(w) == funct3 && Rs1Field(w) == rs1 && Rs2Field(w) == rs2
      && w / 0x200_0000 * 0x20 + w / 0x80 % 0x20 == value % 0x1000
      && (-0x800 <= value < 0x800 ==> ImmSField(w) == value)
  {
    EncodeSTypeWord(tokens, opcode, funct3, rs2, imm, base, rs1, value);
    SWordDecodes(value, rs2, rs1, funct3, opcode);
  }

  lemma EncodeSTypeWord(tokens: seq<string>, opcode: Bits32, funct3: Bits32, rs2: int, imm: string, base: string, rs1: int, value: int)
    requires |tokens| >= 3 && tokens[2] == imm + "(" + base + ")" && IsImmediateText(imm) && IsBaseText(base)
    requires RegisterOperand(tokens[1], rs2) && RegisterOperand(base, rs1) && ParseImmediate(Some(imm)) == Some(value)
    ensures EncodeSType(tokens, opcode, funct3) == Ok(ToHex(SWord(ToInt32(Some(value)), rs2, rs1, funct3, opcode)))
  {
    assert Arg(tokens, 1) == Some(tokens[1]);
    MatchMemOperandComplete(imm, base);
    EncodeSTypeOk(tokens, opcode, funct3, rs2, imm, base, rs1);
    SmallValue(rs2);
    SmallValue(rs1);
  }

  /** A store whose second operand is not `imm(reg)` is rejected once its first register has parsed. */
  lemma EncodeSTypeNeedsMemoryOperand(tokens: seq<string>, opcode: Bits32, funct3: Bits32)
    requires |tokens| >= 3 && ParseRegister(Some(tokens[1])).Ok? && MatchMemOperand(tokens[2]).None?
    ensures EncodeSType(tokens, opcode, funct3) == Err(InvalidStoreSyntax)
  {
    assert Arg(tokens, 1) == Some(tokens[1]);
  }

  lemma EncodeBTypeOk(tokens: seq<string>, pc: int, table: map<string, int>, opcode: Bits32, funct3: Bits32, rs1: int, rs2: int, off: int)
    requires |tokens| >= 4 && ParseRegister(Arg(tokens, 1)) == Ok(Some(rs1)) && ParseRegister(Arg(tokens, 2)) == Ok(Some(rs2))
    requires BranchOffset(Arg(tokens, 3), pc, table) == Some(off)
    ensures EncodeBType(tokens, pc, table, opcode, funct3)
         == Ok(ToHex(BWord(ToInt32(Some(off)), ToInt32(Some(rs1)), ToInt32(Some(rs2)), funct3, opcode)))
  {
  }

  /** `beq rs1, rs2, target` and the rest of the B group: the word holds both registers and the even offset. */
  lemma EncodeBTypeFields(tokens: seq<string>, pc: int, table: map<string, int>, opcode: Bits32, funct3: Bits32,
                          rs1: int, rs2: int, off: int)
    requires opcode < 0x80 && funct3 < 0x8
    requires |tokens| >= 4 && RegisterOperand(tokens[1], rs1) && RegisterOperand(tokens[2], rs2)
    requires BranchOffset(Some(tokens[3]), pc, table) == Some(off) && -0x1000 <= off < 0x1000 && off % 2 == 0
    ensures var w := BWord(ToInt32(Some(off)), rs1, rs2, funct3, opcode);
      EncodeBType(tokens, pc, table, opcode, funct3) == Ok(ToHex(w))
      && OpcodeField(w) == opcode && Funct3Field(w) == funct3 && Rs1Field(w) == rs1 && Rs2Field(w) == rs2
      && ImmBField(w) == off
  {
    EncodeBTypeWord(tokens, pc, table, opcode, funct3, rs1, rs2, off);
    BWordDecodes(off, rs1, rs2, funct3, opcode);
  }

  lemma EncodeBTypeWord(tokens: seq<string>, pc: int, table: map<string, int>, opcode: Bits32, funct3: Bits32,
                        rs1: int, rs2: int, off: int)
    requires |tokens| >= 4 && RegisterOperand(tokens[1], rs1) && RegisterOperand(tokens[2], rs2)
    requires BranchOffset(Some(tokens[3]), pc, table) == Some(off)
    ensures EncodeBType(tokens, pc, table, opcode, funct3) == Ok(ToHex(BWord(ToInt32(Some(off)), rs1, rs2, funct3, opcode)))
  {
    assert Arg(tokens, 1) == Some(tokens[1]) && Arg(tokens, 2) == Some(tokens[2]) && Arg(tokens, 3) == Some(tokens[3]);
    EncodeBTypeOk(tokens, pc, table, opcode, funct3, rs1, rs2, off);
    SmallValue(rs1);
    SmallValue(rs2);
  }

  lemma EncodeJTypeOk(tokens: seq<string>, pc: int, table: map<string, int>, opcode: Bits32, rd: int, off: int)
    requires |tokens| >= 3 && ParseRegister(Arg(tokens, 1)) == Ok(Some(rd))
    requires BranchOffset(Arg(tokens, 2), pc, table) == Some(off)
    ensures EncodeJType(tokens, pc, table, opcode) == Ok(ToHex(JWord(ToInt32(Some(off)), ToInt32(Some(rd)), opcode)))
  {
  }

  /** `jal rd, target`: the word holds rd and the even offset. */
  lemma EncodeJTypeFields(tokens: seq<string>, pc: int, table: map<string, int>, opcode: Bits32, rd: int, off: int)
    requires opcode < 0x80
    requires |tokens| >= 3 && RegisterOperand(tokens[1], rd)
    requires BranchOffset(Some(tokens[2]), pc, table) == Some(off) && -0x10_0000 <= off < 0x10_0000 && off % 2 == 0
    ensures var w := JWord(ToInt32(Some(off)), rd, opcode);
      EncodeJType(tokens, pc, table, opcode) == Ok(ToHex(w))
      && OpcodeField(w) == opcode && RdField(w) == rd && ImmJField(w) == off
  {
    EncodeJTypeWord(tokens, pc, table, opcode, rd, off);
    JWordDecodes(off, rd, opcode);
  }

  lemma EncodeJTypeWord(tokens: seq<string>, pc: int, table: map<string, int>, opcode: Bits32, rd: int, off: int)
    requires |tokens| >= 3 && RegisterOperand(tokens[1], rd) && BranchOffset(Some(tokens[2]), pc, table) == Some(off)
    ensures EncodeJType(tokens, pc, table, opcode) == Ok(ToHex(JWord(ToInt32(Some(off)), rd, opcode)))
  {
    assert Arg(tokens, 1) == Some(tokens[1]) && Arg(tokens, 2) == Some(tokens[2]);
    EncodeJTypeOk(tokens, pc, table, opcode, rd, off);
    SmallValue(rd);
  }

  /** `jal target` links through `ra`: it encodes as `jal ra, target`. */
  lemma EncodeJTypeDefaultLink(name: string, target: string, pc: int, table: map<string, int>, opcode: Bits32)
    ensures EncodeJType([name, target], pc, table, opcode) == EncodeJType([name, "ra", target], pc, table, opcode)
  {
    var short, long := [name, target], [name, "ra", target];
    ParseRegisterAbiName("ra");
    assert Arg(long, 1) == Some("ra") && Arg(long, 2) == Some(target) && Arg(short, 1) == Some(target);
    assert ParseRegister(Arg(long, 1)) == Ok(Some(1));
  }

  /** A target that is neither a label nor a number is offset 0: the instruction jumps to itself, with no error. */
  lemma BranchOffsetUnknownTarget(target: string, pc: int, table: map<string, int>)
    requires target !in table && ParseImmediate(Some(target)) == None
    ensures BranchOffset(Some(target), pc, table) == None && ToInt32(BranchOffset(Some(target), pc, table)) == 0
  {
  }

  // ------------------------------------------------------------ word layouts

  function RWord(funct7: Bits32, rs2: Bits32, rs1: Bits32, funct3: Bits32, rd: Bits32, opcode: Bits32): Bits32 {
    Or(Or(Or(Or(Or(Shl(funct7, 25), Shl(rs2, 20)), Shl(rs1, 15)), Shl(funct3, 12)), Shl(rd, 7)), opcode)
  }

  function IWord(imm: Bits32, rs1: Bits32, funct3: Bits32, rd: Bits32, opcode: Bits32): Bits32 {
    Or(Or(Or(Or(Shl(Low(imm, 12), 20), Shl(rs1, 15)), Shl(funct3, 12)), Shl(rd, 7)), opcode)
  }

  /** The immediate `srai` encodes: the shift amount below the `funct7` bits, `(imm & 0x1F) | (specialFunct7 << 5)`. */
  function ShiftImmediate(imm: Bits32, specialFunct7: Bits32): Bits32 {
    Or(Low(imm, 5), Shl(specialFunct7, 5))
  }

  function SWord(imm: Bits32, rs2: Bits32, rs1: Bits32, funct3: Bits32, opcode: Bits32): Bits32 {
    var imm11_5 := Low(Sar(imm, 5), 7);
    var imm4_0 := Low(imm, 5);
    Or(Or(Or(Or(Or(Shl(imm11_5, 25), Shl(rs2, 20)), Shl(rs1, 15)), Shl(funct3, 12)), Shl(imm4_0, 7)), opcode)
  }

  function BWord(offset: Bits32, rs1: Bits32, rs2: Bits32, funct3: Bits32, opcode: Bits32): Bits32 {
    var imm12 := Low(Sar(offset, 12), 1);
    var imm11 := Low(Sar(offset, 11), 1);
    var imm10_5 := Low(Sar(offset, 5), 6);
    var imm4_1 := Low(Sar(offset, 1), 4);
    Or(Or(Or(Or(Or(Or(Or(Shl(imm12, 31), Shl(imm10_5, 25)), Shl(rs2, 20)), Shl(rs1, 15)),
       Shl(funct3, 12)), Shl(imm4_1, 8)), Shl(imm11, 7)), opcode)
  }

  function JWord(offset: Bits32, rd: Bits32, opcode: Bits32): Bits32 {
    var imm20 := Low(Sar(offset, 20), 1);
    var imm10_1 := Low(Sar(offset, 1), 10);
    var imm11 := Low(Sar(offset, 11), 1);
    var imm19_12 := Low(Sar(offset, 12), 8);
    Or(Or(Or(Or(Or(Shl(imm20, 31), Shl(imm19_12, 12)), Shl(imm11, 20)), Shl(imm10_1, 21)), Shl(rd, 7)), opcode)
  }

  // ------------------------------------------------- fields of a 32-bit word

  function OpcodeField(w: Bits32): int { w % 0x80 }
  function RdField(w: Bits32): int { w / 0x80 % 0x20 }
  function Funct3Field(w: Bits32): int { w / 0x1000 % 0x8 }
  function Rs1Field(w: Bits32): int { w / 0x8000 % 0x20 }
  function Rs2Field(w: Bits32): int { w / 0x10_0000 % 0x20 }
  function Funct7Field(w: Bits32): int { w / 0x200_0000 }

  /** The two's-complement value of a `2 * half`-sized field. */
  function SignExtend(u: int, half: int): int {
    if u >= half then u - 2 * half else u
  }

  function ImmIField(w: Bits32): int {
    SignExtend(w / 0x10_0000, 0x800)
  }

  function ImmSField(w: Bits32): int {
    SignExtend(w / 0x200_0000 * 0x20 + w / 0x80 % 0x20, 0x800)
  }

  function ImmBField(w: Bits32): int {
    SignExtend(w / 0x8000_0000 * 0x1000 + w / 0x80 % 2 * 0x800 + w / 0x200_0000 % 0x40 * 0x20 + w / 0x100 % 0x10 * 2, 0x1000)
  }

  function ImmJField(w: Bits32): int {
    SignExtend(w / 0x8000_0000 * 0x10_0000 + w / 0x1000 % 0x100 * 0x1000 + w / 0x10_0000 % 2 * 0x800 + w / 0x20_0000 % 0x400 * 2, 0x10_0000)
  }

  // ------------------------------------------------------- layout is exact

  /** With every field in range, the ors of the R layout add up. */
  lemma RWordSum(funct7: Bits32, rs2: Bits32, rs1: Bits32, funct3: Bits32, rd: Bits32, opcode: Bits32)
    requires funct7 < 0x80 && rs2 < 0x20 && rs1 < 0x20 && funct3 < 0x8 && rd < 0x20 && opcode < 0x80
    ensures RWord(funct7, rs2, rs1, funct3, rd, opcode)
         == funct7 * 0x200_0000 + rs2 * 0x10_0000 + rs1 * 0x8000 + funct3 * 0x1000 + rd * 0x80 + opcode
  {
    Pow2Table();
    ShlExact(funct7, 25);
    ShlExact(rs2, 20);
    ShlExact(rs1, 15);
    ShlExact(funct3, 12);
    ShlExact(rd, 7);
    var t1 := Or(Shl(funct7, 25), Shl(rs2, 20));
    OrDisjoint(Shl(funct7, 25), Shl(rs2, 20), funct7, 25);
    var t2 := Or(t1, Shl(rs1, 15));
    OrDisjoint(t1, Shl(rs1, 15), funct7 * 0x20 + rs2, 20);
    var t3 := Or(t2, Shl(funct3, 12));
    OrDisjoint(t2, Shl(funct3, 12), funct7 * 0x400 + rs2 * 0x20 + rs1, 15);
    var t4 := Or(t3, Shl(rd, 7));
    OrDisjoint(t3, Shl(rd, 7), funct7 * 0x2000 + rs2 * 0x100 + rs1 * 0x8 + funct3, 12);
    OrDisjoint(t4, opcode, funct7 * 0x4_0000 + rs2 * 0x2000 + rs1 * 0x100 + funct3 * 0x20 + rd, 7);
  }

  /** An I-type word is the sum of its fields, the immediate cut to its low 12 bits. */
  lemma IWordSum(imm: Bits32, rs1: Bits32, funct3: Bits32, rd: Bits32, opcode: Bits32)
    requires rs1 < 0x20 && funct3 < 0x8 && rd < 0x20 && opcode < 0x80
    ensures Low(imm, 12) < 0x1000
    ensures IWord(imm, rs1, funct3, rd, opcode)
         == Low(imm, 12) * 0x10_0000 + rs1 * 0x8000 + funct3 * 0x1000 + rd * 0x80 + opcode
  {
    Pow2Table();
    var i := Low(imm, 12);
    ShlExact(i, 20);
    ShlExact(rs1, 15);
    ShlExact(funct3, 12);
    ShlExact(rd, 7);
    var t1 := Or(Shl(i, 20), Shl(rs1, 15));
    OrDisjoint(Shl(i, 20), Shl(rs1, 15), i, 20);
    var t2 := Or(t1, Shl(funct3, 12));
    OrDisjoint(t1, Shl(funct3, 12), i * 0x20 + rs1, 15);
    var t3 := Or(t2, Shl(rd, 7));
    OrDisjoint(t2, Shl(rd, 7), i * 0x100 + rs1 * 0x8 + funct3, 12);
    OrDisjoint(t3, opcode, i * 0x2000 + rs1 * 0x100 + funct3 * 0x20 + rd, 7);
  }

  /** An S-type word is the sum of its fields, the immediate split into bits 11..5 and 4..0. */
  lemma SWordSum(imm: Bits32, rs2: Bits32, rs1: Bits32, funct3: Bits32, opcode: Bits32)
    requires rs2 < 0x20 && rs1 < 0x20 && funct3 < 0x8 && opcode < 0x80
    ensures Low(Sar(imm, 5), 7) < 0x80 && Low(imm, 5) < 0x20
    ensures SWord(imm, rs2, rs1, funct3, opcode)
         == Low(Sar(imm, 5), 7) * 0x200_0000 + rs2 * 0x10_0000 + rs1 * 0x8000 + funct3 * 0x1000
            + Low(imm, 5) * 0x80 + opcode
  {
    Pow2Table();
    var hi, lo := Low(Sar(imm, 5), 7), Low(imm, 5);
    ShlExact(hi, 25);
    ShlExact(rs2, 20);
    ShlExact(rs1, 15);
    ShlExact(funct3, 12);
    ShlExact(lo, 7);
    var t1 := Or(Shl(hi, 25), Shl(rs2, 20));
    OrDisjoint(Shl(hi, 25), Shl(rs2, 20), hi, 25);
    var t2 := Or(t1, Shl(rs1, 15));
    OrDisjoint(t1, Shl(rs1, 15), hi * 0x20 + rs2, 20);
    var t3 := Or(t2, Shl(funct3, 12));
    OrDisjoint(t2, Shl(funct3, 12), hi * 0x400 + rs2 * 0x20 + rs1, 15);
    var t4 := Or(t3, Shl(lo, 7));
    OrDisjoint(t3, Shl(lo, 7), hi * 0x2000 + rs2 * 0x100 + rs1 * 0x8 + funct3, 12);
    OrDisjoint(t4, opcode, hi * 0x4_0000 + rs2 * 0x2000 + rs1 * 0x100 + funct3 * 0x20 + lo, 7);
  }

  /** A B-type word is the sum of its fields, the offset scattered over bits 31, 30..25, 11..8 and 7. */
  lemma BWordSum(offset: Bits32, rs1: Bits32, rs2: Bits32, funct3: Bits32, opcode: Bits32)
    requires rs2 < 0x20 && rs1 < 0x20 && funct3 < 0x8 && opcode < 0x80
    ensures Low(Sar(offset, 12), 1) < 2 && Low(Sar(offset, 11), 1) < 2
    ensures Low(Sar(offset, 5), 6) < 0x40 && Low(Sar(offset, 1), 4) < 0x10
    ensures BWord(offset, rs1, rs2, funct3, opcode)
         == Low(Sar(offset, 12), 1) * 0x8000_0000 + Low(Sar(offset, 5), 6) * 0x200_0000
            + rs2 * 0x10_0000 + rs1 * 0x8000 + funct3 * 0x1000
            + Low(Sar(offset, 1), 4) * 0x100 + Low(Sar(offset, 11), 1) * 0x80 + opcode
  {
    Pow2Table();
    var b12, b11 := Low(Sar(offset, 12), 1), Low(Sar(offset, 11), 1);
    var b10_5, b4_1 := Low(Sar(offset, 5), 6), Low(Sar(offset, 1), 4);
    ShlExact(b12, 31);
    ShlExact(b10_5, 25);
    ShlExact(rs2, 20);
    ShlExact(rs1, 15);
    ShlExact(funct3, 12);
    ShlExact(b4_1, 8);
    ShlExact(b11, 7);
    var t1 := Or(Shl(b12, 31), Shl(b10_5, 25));
    OrDisjoint(Shl(b12, 31), Shl(b10_5, 25), b12, 31);
    var t2 := Or(t1, Shl(rs2, 20));
    OrDisjoint(t1, Shl(rs2, 20), b12 * 0x40 + b10_5, 25);
    var t3 := Or(t2, Shl(rs1, 15));
    OrDisjoint(t2, Shl(rs1, 15), b12 * 0x800 + b10_5 * 0x20 + rs2, 20);
    var t4 := Or(t3, Shl(funct3, 12));
    OrDisjoint(t3, Shl(funct3, 12), b12 * 0x1_0000 + b10_5 * 0x400 + rs2 * 0x20 + rs1, 15);
    var t5 := Or(t4, Shl(b4_1, 8));
    OrDisjoint(t4, Shl(b4_1, 8), b12 * 0x8_0000 + b10_5 * 0x2000 + rs2 * 0x100 + rs1 * 0x8 + funct3, 12);
    var t6 := Or(t5, Shl(b11, 7));
    OrDisjoint(t5, Shl(b11, 7), b12 * 0x80_0000 + b10_5 * 0x2_0000 + rs2 * 0x1000 + rs1 * 0x80 + funct3 * 0x10 + b4_1, 8);
    OrDisjoint(t6, opcode, b12 * 0x100_0000 + b10_5 * 0x4_0000 + rs2 * 0x2000 + rs1 * 0x100 + funct3 * 0x20 + b4_1 * 2 + b11, 7);
  }

  /** A J-type word is the sum of its fields, the offset scattered over bits 31, 30..21, 20 and 19..12. */
  lemma JWordSum(offset: Bits32, rd: Bits32, opcode: Bits32)
    requires rd < 0x20 && opcode < 0x80
    ensures Low(Sar(offset, 20), 1) < 2 && Low(Sar(offset, 1), 10) < 0x400
    ensures Low(Sar(offset, 11), 1) < 2 && Low(Sar(offset, 12), 8) < 0x100
    ensures JWord(offset, rd, opcode)
         == Low(Sar(offset, 20), 1) * 0x8000_0000 + Low(Sar(offset, 1), 10) * 0x20_0000
            + Low(Sar(offset, 11), 1) * 0x10_0000 + Low(Sar(offset, 12), 8) * 0x1000 + rd * 0x80 + opcode
  {
    Pow2Table();
    var b20, b10_1 := Low(Sar(offset, 20), 1), Low(Sar(offset, 1), 10);
    var b11, b19_12 := Low(Sar(offset, 11), 1), Low(Sar(offset, 12), 8);
    ShlExact(b20, 31);
    ShlExact(b10_1, 21);
    ShlExact(b11, 20);
    ShlExact(b19_12, 12);
    ShlExact(rd, 7);
    var x, y, z, u := Shl(b20, 31), Shl(b19_12, 12), Shl(b11, 20), Shl(b10_1, 21);
    // the source ors bits 19..12 in before bits 20 and 30..21: reorder to descending fields
    OrSwap(x, y, z);
    OrSwap(Or(x, z), y, u);
    OrSwap(x, z, u);
    OrDisjoint(x, u, b20, 31);
    OrDisjoint(x + u, z, b20 * 0x400 + b10_1, 21);
    OrDisjoint(x + u + z, y, b20 * 0x800 + b10_1 * 2 + b11, 20);
    var t := x + u + z + y;
    OrDisjoint(t, Shl(rd, 7), b20 * 0x8_0000 + b10_1 * 0x200 + b11 * 0x100 + b19_12, 12);
    OrDisjoint(t + rd * 0x80, opcode, b20 * 0x100_0000 + b10_1 * 0x4000 + b11 * 0x2000 + b19_12 * 0x20 + rd, 7);
  }

  /**
   * An I-type word holds opcode, rd, funct3 and rs1 where the ISA places them,
   * and the immediate modulo 2^12: in the signed 12-bit range it reads back as
   * written, outside it the upper bits are silently dropped.
   */
  lemma IWordDecodes(imm: int, rs1: Bits32, funct3: Bits32, rd: Bits32, opcode: Bits32)
    requires rs1 < 0x20 && funct3 < 0x8 && rd < 0x20 && opcode < 0x80
    ensures var w := IWord(ToInt32(Some(imm)), rs1, funct3, rd, opcode);
      OpcodeField(w) == opcode && RdField(w) == rd && Funct3Field(w) == funct3 && Rs1Field(w) == rs1
      && w / 0x10_0000 == imm % 0x1000
      && (-0x800 <= imm < 0x800 ==> ImmIField(w) == imm)
  {
    var p := ToInt32(Some(imm));
    IWordSum(p, rs1, funct3, rd, opcode);
    LowWrap(imm, 12);
    Pow2Table();
    assert Low(p, 12) == imm % 0x1000;
    var w := IWord(p, rs1, funct3, rd, opcode);
    IFieldsOf(w, imm % 0x1000, rs1, funct3, rd, opcode);
    if -0x800 <= imm < 0x800 { SignExtendOfMod(imm, 0x800); }
  }

  lemma IFieldsOf(w: Bits32, i: int, rs1: int, funct3: int, rd: int, opcode: int)
    requires 0 <= i < 0x1000 && 0 <= rs1 < 0x20 && 0 <= funct3 < 0x8 && 0 <= rd < 0x20 && 0 <= opcode < 0x80
    requires w == i * 0x10_0000 + rs1 * 0x8000 + funct3 * 0x1000 + rd * 0x80 + opcode
    ensures OpcodeField(w) == opcode && RdField(w) == rd && Funct3Field(w) == funct3 && Rs1Field(w) == rs1
    ensures w / 0x10_0000 == i
  {
    DivMod(w, i * 0x2000 + rs1 * 0x100 + funct3 * 0x20 + rd, opcode, 0x80);
    FieldAt(w, i * 0x100 + rs1 * 0x8 + funct3, rd, opcode, 0x80, 0x20);
    FieldAt(w, i * 0x20 + rs1, funct3, rd * 0x80 + opcode, 0x1000, 0x8);
    FieldAt(w, i, rs1, funct3 * 0x1000 + rd * 0x80 + opcode, 0x8000, 0x20);
    DivMod(w, i, rs1 * 0x8000 + funct3 * 0x1000 + rd * 0x80 + opcode, 0x10_0000);
  }

  /** `srai` puts the shift amount in bits 24..20 and `funct7` 0x20 above it. */
  lemma ShiftImmediateFields(shamt: int)
    ensures Low(ShiftImmediate(ToInt32(Some(shamt)), 0x20), 12) == 0x400 + shamt % 0x20
  {
    Pow2Table();
    LowWrap(shamt, 5);
    var lo := Low(ToInt32(Some(shamt)), 5);
    ShlExact(0x20, 5);
    OrBitsCommutes(lo, 0x400, 32);
    OrDisjoint(0x400, lo, 1, 10);
    assert ShiftImmediate(ToInt32(Some(shamt)), 0x20) == 0x400 + lo;
  }

  /** The low 12 bits of a 32-bit signed value, as bits 11..5 and 4..0. */
  lemma SplitTwelveBits(imm: int)
    ensures (imm / 0x20) % 0x80 * 0x20 + imm % 0x20 == imm % 0x1000
  {
    var a, v := imm / 0x1000, imm % 0x1000;
    DivMod(imm, a * 0x80 + v / 0x20, v % 0x20, 0x20);
    DivMod(a * 0x80 + v / 0x20, a, v / 0x20, 0x80);
  }

  /**
   * An S-type word holds opcode, funct3, rs1 and rs2 where the ISA places them,
   * and the immediate, split over bits 31..25 and 11..7, modulo 2^12.
   */
  lemma SWordDecodes(imm: int, rs2: Bits32, rs1: Bits32, funct3: Bits32, opcode: Bits32)
    requires rs2 < 0x20 && rs1 < 0x20 && funct3 < 0x8 && opcode < 0x80
    ensures var w := SWord(ToInt32(Some(imm)), rs2, rs1, funct3, opcode);
      OpcodeField(w) == opcode && Funct3Field(w) == funct3 && Rs1Field(w) == rs1 && Rs2Field(w) == rs2
      && w / 0x200_0000 * 0x20 + w / 0x80 % 0x20 == imm % 0x1000
      && (-0x800 <= imm < 0x800 ==> ImmSField(w) == imm)
  {
    var p := ToInt32(Some(imm));
    SWordSum(p, rs2, rs1, funct3, opcode);
    LowSar(imm, 5, 7);
    LowWrap(imm, 5);
    SplitTwelveBits(imm);
    Pow2Table();
    SFieldsOf(SWord(p, rs2, rs1, funct3, opcode), (imm / 0x20) % 0x80, rs2, rs1, funct3, imm % 0x20, opcode);
    if -0x800 <= imm < 0x800 { SignExtendOfMod(imm, 0x800); }
  }

  lemma SFieldsOf(w: Bits32, hi: int, rs2: int, rs1: int, funct3: int, lo: int, opcode: int)
    requires 0 <= hi < 0x80 && 0 <= rs2 < 0x20 && 0 <= rs1 < 0x20 && 0 <= funct3 < 0x8
    requires 0 <= lo < 0x20 && 0 <= opcode < 0x80
    requires w == hi * 0x200_0000 + rs2 * 0x10_0000 + rs1 * 0x8000 + funct3 * 0x1000 + lo * 0x80 + opcode
    ensures OpcodeField(w) == opcode && Funct3Field(w) == funct3 && Rs1Field(w) == rs1 && Rs2Field(w) == rs2
    ensures w / 0x200_0000 == hi && w / 0x80 % 0x20 == lo
  {
    DivMod(w, hi * 0x4_0000 + rs2 * 0x2000 + rs1 * 0x100 + funct3 * 0x20 + lo, opcode, 0x80);
    FieldAt(w, hi * 0x2000 + rs2 * 0x100 + rs1 * 0x8 + funct3, lo, opcode, 0x80, 0x20);
    FieldAt(w, hi * 0x400 + rs2 * 0x20 + rs1, funct3, lo * 0x80 + opcode, 0x1000, 0x8);
    FieldAt(w, hi * 0x20 + rs2, rs1, funct3 * 0x1000 + lo * 0x80 + opcode, 0x8000, 0x20);
    FieldAt(w, hi, rs2, rs1 * 0x8000 + funct3 * 0x1000 + lo * 0x80 + opcode, 0x10_0000, 0x20);
    DivMod(w, hi, rs2 * 0x10_0000 + rs1 * 0x8000 + funct3 * 0x1000 + lo * 0x80 + opcode, 0x200_0000);
  }

  /**
   * A B-type word holds opcode, funct3, rs1 and rs2 where the ISA places them,
   * and every even offset in the signed 13-bit range reads back exactly.
   */
  lemma BWordDecodes(off: int, rs1: Bits32, rs2: Bits32, funct3: Bits32, opcode: Bits32)
    requires -0x1000 <= off < 0x1000 && off % 2 == 0
    requires rs1 < 0x20 && rs2 < 0x20 && funct3 < 0x8 && opcode < 0x80
    ensures var w := BWord(ToInt32(Some(off)), rs1, rs2, funct3, opcode);
      OpcodeField(w) == opcode && Funct3Field(w) == funct3 && Rs1Field(w) == rs1 && Rs2Field(w) == rs2
      && ImmBField(w) == off
  {
    var p := ToInt32(Some(off));
    BWordSum(p, rs1, rs2, funct3, opcode);
    LowSar(off, 12, 1);
    LowSar(off, 11, 1);
    LowSar(off, 5, 6);
    LowSar(off, 1, 4);
    Pow2Table();
    var w := BWord(p, rs1, rs2, funct3, opcode);
    BFieldsOf(w, (off / 0x1000) % 2, (off / 0x20) % 0x40, rs2, rs1, funct3, (off / 2) % 0x10, (off / 0x800) % 2, opcode);
    BOffsetBits(off);
  }

  lemma BFieldsOf(w: Bits32, b12: int, b10_5: int, rs2: int, rs1: int, funct3: int, b4_1: int, b11: int, opcode: int)
    requires 0 <= b12 < 2 && 0 <= b10_5 < 0x40 && 0 <= rs2 < 0x20 && 0 <= rs1 < 0x20 && 0 <= funct3 < 0x8
    requires 0 <= b4_1 < 0x10 && 0 <= b11 < 2 && 0 <= opcode < 0x80
    requires w == b12 * 0x8000_0000 + b10_5 * 0x200_0000 + rs2 * 0x10_0000 + rs1 * 0x8000 + funct3 * 0x1000
                  + b4_1 * 0x100 + b11 * 0x80 + opcode
    ensures OpcodeField(w) == opcode && Funct3Field(w) == funct3 && Rs1Field(w) == rs1 && Rs2Field(w) == rs2
    ensures w / 0x8000_0000 == b12 && w / 0x80 % 2 == b11 && w / 0x200_0000 % 0x40 == b10_5 && w / 0x100 % 0x10 == b4_1
  {
    var x8 := b12 * 0x80_0000 + b10_5 * 0x2_0000 + rs2 * 0x1000 + rs1 * 0x80 + funct3 * 0x10 + b4_1;
    DivMod(w, x8 * 2 + b11, opcode, 0x80);
    FieldAt(w, x8, b11, opcode, 0x80, 2);
    FieldAt(w, b12 * 0x8_0000 + b10_5 * 0x2000 + rs2 * 0x100 + rs1 * 0x8 + funct3, b4_1, b11 * 0x80 + opcode, 0x100, 0x10);
    FieldAt(w, b12 * 0x1_0000 + b10_5 * 0x400 + rs2 * 0x20 + rs1, funct3, b4_1 * 0x100 + b11 * 0x80 + opcode, 0x1000, 0x8);
    FieldAt(w, b12 * 0x800 + b10_5 * 0x20 + rs2, rs1, funct3 * 0x1000 + b4_1 * 0x100 + b11 * 0x80 + opcode, 0x8000, 0x20);
    FieldAt(w, b12 * 0x40 + b10_5, rs2, rs1 * 0x8000 + funct3 * 0x1000 + b4_1 * 0x100 + b11 * 0x80 + opcode, 0x10_0000, 0x20);
    FieldAt(w, b12, b10_5, rs2 * 0x10_0000 + rs1 * 0x8000 + funct3 * 0x1000 + b4_1 * 0x100 + b11 * 0x80 + opcode, 0x200_0000, 0x40);
    DivMod(w, b12, b10_5 * 0x200_0000 + rs2 * 0x10_0000 + rs1 * 0x8000 + funct3 * 0x1000 + b4_1 * 0x100 + b11 * 0x80 + opcode, 0x8000_0000);
  }

  /**
   * A J-type word holds opcode and rd where the ISA places them, and every
   * even offset in the signed 21-bit range reads back exactly.
   */
  lemma JWordDecodes(off: int, rd: Bits32, opcode: Bits32)
    requires -0x10_0000 <= off < 0x10_0000 && off % 2 == 0
    requires rd < 0x20 && opcode < 0x80
    ensures var w := JWord(ToInt32(Some(off)), rd, opcode);
      OpcodeField(w) == opcode && RdField(w) == rd && ImmJField(w) == off
  {
    var p := ToInt32(Some(off));
    JWordSum(p, rd, opcode);
    LowSar(off, 20, 1);
    LowSar(off, 1, 10);
    LowSar(off, 11, 1);
    LowSar(off, 12, 8);
    Pow2Table();
    var w := JWord(p, rd, opcode);
    JFieldsOf(w, (off / 0x10_0000) % 2, (off / 2) % 0x400, (off / 0x800) % 2, (off / 0x1000) % 0x100, rd, opcode);
    JOffsetBits(off);
  }

  lemma JFieldsOf(w: Bits32, b20: int, b10_1: int, b11: int, b19_12: int, rd: int, opcode: int)
    requires 0 <= b20 < 2 && 0 <= b10_1 < 0x400 && 0 <= b11 < 2 && 0 <= b19_12 < 0x100
    requires 0 <= rd < 0x20 && 0 <= opcode < 0x80
    requires w == b20 * 0x8000_0000 + b10_1 * 0x20_0000 + b11 * 0x10_0000 + b19_12 * 0x1000 + rd * 0x80 + opcode
    ensures OpcodeField(w) == opcode && RdField(w) == rd
    ensures w / 0x8000_0000 == b20 && w / 0x1000 % 0x100 == b19_12 && w / 0x10_0000 % 2 == b11 && w / 0x20_0000 % 0x400 == b10_1
  {
    DivMod(w, b20 * 0x100_0000 + b10_1 * 0x4000 + b11 * 0x2000 + b19_12 * 0x20 + rd, opcode, 0x80);
    FieldAt(w, b20 * 0x8_0000 + b10_1 * 0x200 + b11 * 0x100 + b19_12, rd, opcode, 0x80, 0x20);
    FieldAt(w, b20 * 0x800 + b10_1 * 2 + b11, b19_12, rd * 0x80 + opcode, 0x1000, 0x100);
    FieldAt(w, b20 * 0x400 + b10_1, b11, b19_12 * 0x1000 + rd * 0x80 + opcode, 0x10_0000, 2);
    FieldAt(w, b20, b10_1, b11 * 0x10_0000 + b19_12 * 0x1000 + rd * 0x80 + opcode, 0x20_0000, 0x400);
    DivMod(w, b20, b10_1 * 0x20_0000 + b11 * 0x10_0000 + b19_12 * 0x1000 + rd * 0x80 + opcode, 0x8000_0000);
  }

  /** An even branch offset in the 13-bit signed range is the sum of its scattered B-type bits. */
  lemma BOffsetBits(off: int)
    requires -0x1000 <= off < 0x1000 && off % 2 == 0
    ensures SignExtend((off / 0x1000) % 2 * 0x1000 + (off / 0x800) % 2 * 0x800
                       + (off / 0x20) % 0x40 * 0x20 + (off / 2) % 0x10 * 2, 0x1000) == off
  {
    DivDiv(off, 2, 0x10);
    DivDiv(off, 0x20, 0x40);
    DivDiv(off, 0x800, 2);
    DivDiv(off, 0x1000, 2);
  }

  /** An even jump offset in the 21-bit signed range is the sum of its scattered J-type bits. */
  lemma JOffsetBits(off: int)
    requires -0x10_0000 <= off < 0x10_0000 && off % 2 == 0
    ensures SignExtend((off / 0x10_0000) % 2 * 0x10_0000 + (off / 0x1000) % 0x100 * 0x1000
                       + (off / 0x800) % 2 * 0x800 + (off / 2) % 0x400 * 2, 0x10_0000) == off
  {
    DivDiv(off, 2, 0x400);
    DivDiv(off, 0x800, 2);
    DivDiv(off, 0x1000, 0x100);
    DivDiv(off, 0x10_0000, 2);
  }

  /** Dividing by `a` and then by `b` is dividing by `a * b`. */
  lemma DivDiv(x: int, a: int, b: int)
    requires a > 0 && b > 0
    ensures x / a / b == x / (a * b)
  {
    var q1, r1 := x / a, x % a;
    var q2, r2 := q1 / b, q1 % b;
    assert x == (a * b) * q2 + (a * r2 + r1);
    MulBelow(r2, b, a);
    DivMod(x, q2, a * r2 + r1, a * b);
  }

  lemma MulBelow(r: int, b: int, a: int)
    requires 0 <= r < b && a > 0
    ensures a * r <= a * (b - 1)
  {
  }

  /** A value in the signed range of a field survives reduction modulo the field's size. */
  lemma SignExtendOfMod(x: int, half: int)
    requires half > 0 && -half <= x < half
    ensures SignExtend(x % (2 * half), half) == x
  {
    if x >= 0 {
      DivMod(x, 0, x, 2 * half);
    } else {
      DivMod(x, -1, x + 2 * half, 2 * half);
    }
  }

  /** Field `f` of width `m` sits above `d` and below `hi`. */
  lemma FieldAt(w: int, hi: int, f: int, lo: int, d: int, m: int)
    requires d > 0 && m > 0 && 0 <= lo < d && 0 <= f < m && w == (hi * m + f) * d + lo
    ensures w / d % m == f && w / d == hi * m + f
  {
    DivMod(w, hi * m + f, lo, d);
    DivMod(hi * m + f, hi, f, m);
  }

  /** A shift that pushes no set bit past bit 31 multiplies. */
  lemma ShlExact(x: Bits32, k: nat)
    requires k < 32 && x * Pow2(k) < 0x1_0000_0000
    ensures Shl(x, k) == x * Pow2(k)
  {
  }

  /** An R-type word holds its six fields where the ISA places them. */
  lemma RWordDecodes(funct7: Bits32, rs2: Bits32, rs1: Bits32, funct3: Bits32, rd: Bits32, opcode: Bits32)
    requires funct7 < 0x80 && rs2 < 0x20 && rs1 < 0x20 && funct3 < 0x8 && rd < 0x20 && opcode < 0x80
    ensures var w := RWord(funct7, rs2, rs1, funct3, rd, opcode);
      OpcodeField(w) == opcode && RdField(w) == rd && Funct3Field(w) == funct3
      && Rs1Field(w) == rs1 && Rs2Field(w) == rs2 && Funct7Field(w) == funct7
  {
    RWordSum(funct7, rs2, rs1, funct3, rd, opcode);
    var w := RWord(funct7, rs2, rs1, funct3, rd, opcode);
    var x7 := funct7 * 0x4_0000 + rs2 * 0x2000 + rs1 * 0x100 + funct3 * 0x20 + rd;
    DivMod(w, x7, opcode, 0x80);
    DivMod(x7, funct7 * 0x2000 + rs2 * 0x100 + rs1 * 0x8 + funct3, rd, 0x20);
    var x12 := funct7 * 0x2000 + rs2 * 0x100 + rs1 * 0x8 + funct3;
    DivMod(w, x12, rd * 0x80 + opcode, 0x1000);
    DivMod(x12, funct7 * 0x400 + rs2 * 0x20 + rs1, funct3, 0x8);
    var x15 := funct7 * 0x400 + rs2 * 0x20 + rs1;
    DivMod(w, x15, funct3 * 0x1000 + rd * 0x80 + opcode, 0x8000);
    DivMod(x15, funct7 * 0x20 + rs2, rs1, 0x20);
    var x20 := funct7 * 0x20 + rs2;
    DivMod(w, x20, rs1 * 0x8000 + funct3 * 0x1000 + rd * 0x80 + opcode, 0x10_0000);
    DivMod(x20, funct7, rs2, 0x20);
    DivMod(w, funct7, rs2 * 0x10_0000 + rs1 * 0x8000 + funct3 * 0x1000 + rd * 0x80 + opcode, 0x200_0000);
  }

  /** Reducing modulo `n * d` and then modulo `d` is reducing modulo `d`. */
  lemma ModOfMod(x: int, n: int, d: int)
    requires n > 0 && d > 0
    ensures (x % (n * d)) % d == x % d
  {
    var m := n * d;
    var a, r := x / m, x % m;
    var b, c := r / d, r % d;
    assert x == m * a + r;
    assert r == d * b + c;
    assert x == (n * a + b) * d + c;
    DivMod(x, n * a + b, c, d);
  }

  lemma {:induction false} Pow2Add(a: nat, b: nat)
    ensures Pow2(a + b) == Pow2(a) * Pow2(b)
  {
    if a > 0 { Pow2Add(a - 1, b); }
  }

  /** `x & (2^w - 1)` on any integer is `x` modulo `2^w`. */
  lemma LowWrap(x: int, w: nat)
    requires w <= 32
    ensures Low(ToInt32(Some(x)), w) == x % Pow2(w)
  {
    Pow2Add(32 - w, w);
    Pow2At32();
    ModOfMod(x, Pow2(32 - w), Pow2(w));
  }

  /**
   * `(x >> k) & (2^w - 1)` is bits `k` to `k + w - 1` of `x`, for every
   * integer `x`: ToInt32 changes `x` by a multiple of 2^32, which does not
   * reach those bits.
   */
  lemma LowSar(x: int, k: nat, w: nat)
    requires k < 32 && k + w <= 32
    ensures Low(Sar(ToInt32(Some(x)), k), w) == (x / Pow2(k)) % Pow2(w)
  {
    var s := Signed(ToInt32(Some(x)));
    var c := WrapCount(x);
    LowOfSar(x, s, k, w);
    var d, e := Pow2(k), Pow2(32 - k);
    assert Pow2(32) == d * e by {
      Pow2Add(k, 32 - k);
    }
    ShiftCongruent(x, s, c, d, e);
    var lo, hi := Pow2(w), Pow2(32 - k - w);
    assert e == hi * lo by {
      Pow2Add(32 - k - w, w);
      assert 32 - k - w + w == 32 - k;
    }
    MulAssociates(c, hi, lo);
    ModAddMultiple(s / d, c * hi, lo);
  }

  /** The multiple of 2^32 that ToInt32 takes off `x`. */
  function WrapCount(x: int): (c: int)
    ensures x == Signed(ToInt32(Some(x))) + c * Pow2(32)
  {
    Pow2At32();
    if x % 0x1_0000_0000 < 0x8000_0000 then x / 0x1_0000_0000 else x / 0x1_0000_0000 + 1
  }

  /** The low `w` bits of `x >> k` are those of the quotient of the signed value `s` of `x`. */
  lemma LowOfSar(x: int, s: int, k: nat, w: nat)
    requires k < 32 && w <= 32 && s == Signed(ToInt32(Some(x)))
    ensures Low(Sar(ToInt32(Some(x)), k), w) == (s / Pow2(k)) % Pow2(w)
  {
    Pow2Add(32 - w, w);
    Pow2At32();
    ModOfMod(s / Pow2(k), Pow2(32 - w), Pow2(w));
  }

  /** Dividing by `d` keeps a difference of `c * (d * e)` as `c * e`. */
  lemma ShiftCongruent(x: int, s: int, c: int, d: int, e: int)
    requires d > 0 && x == s + c * (d * e)
    ensures x / d == s / d + c * e
  {
    var q, r := s / d, s % d;
    assert c * (d * e) == (c * e) * d by { MulAssociates(c, e, d); }
    MulDistributes(q, c * e, d);
    DivMod(x, q + c * e, r, d);
  }

  lemma MulDistributes(a: int, b: int, d: int)
    ensures (a + b) * d == a * d + b * d
  {
  }

  lemma MulAssociates(a: int, b: int, c: int)
    ensures a * (b * c) == (a * b) * c && a * (c * b) == (a * b) * c
  {
  }

  lemma ModAddMultiple(a: int, t: int, n: int)
    requires n > 0
    ensures (a + t * n) % n == a % n
  {
    DivMod(a + t * n, a / n + t, a % n, n);
  }

  /** Euclidean division is unique. */
  lemma DivMod(x: int, q: int, r: int, d: int)
    requires d > 0 && 0 <= r < d && x == q * d + r
    ensures x / d == q && x % d == r
  {
    var q', r' := x / d, x % d;
    assert (q - q') * d == r' - r;
    if q > q' {
      MulAtLeast(q - q', d);
    } else if q < q' {
      MulAtLeast(q' - q, d);
    }
  }

  lemma MulAtLeast(a: int, d: int)
    requires a >= 1 && d > 0
    ensures a * d >= d
  {
  }
}
