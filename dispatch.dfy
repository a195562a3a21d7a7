/** `processInstruction`: the mnemonic, lower-cased, selects an encoder and its fixed fields. */
module Dispatch {
  import opened Wrappers
  import opened Text
  import opened JsNumber
  import opened Errors
  import opened Registers
  import opened Operands
  import opened Encoding

  /** An encoder together with the constants one `case` of the switch passes it. */
  datatype Format =
    | NopFormat
    | RFormat(funct3: Bits32, funct7: Bits32)
    | IFormat(opcode: Bits32, funct3: Bits32, specialFunct7: Bits32)
    | SFormat(funct3: Bits32)
    | BFormat(funct3: Bits32)
    | JFormat

  /** The cases of the switch in `processInstruction`. */
  function Mnemonic(name: string): Option<Format> {
    match name
    case "nop" => Some(NopFormat)
    case "add" => Some(RFormat(0x0, 0x00))
    case "sub" => Some(RFormat(0x0, 0x20))
    case "xor" => Some(RFormat(0x4, 0x00))
    case "or" => Some(RFormat(0x6, 0x00))
    case "and" => Some(RFormat(0x7, 0x00))
    case "sll" => Some(RFormat(0x1, 0x00))
    case "srl" => Some(RFormat(0x5, 0x00))
    case "sra" => Some(RFormat(0x5, 0x20))
    case "slt" => Some(RFormat(0x2, 0x00))
    case "sltu" => Some(RFormat(0x3, 0x00))
    case "addi" => Some(IFormat(0x13, 0x0, 0))
    case "xori" => Some(IFormat(0x13, 0x4, 0))
    case "ori" => Some(IFormat(0x13, 0x6, 0))
    case "andi" => Some(IFormat(0x13, 0x7, 0))
    case "slli" => Some(IFormat(0x13, 0x1, 0))
    case "srli" => Some(IFormat(0x13, 0x5, 0))
    case "srai" => Some(IFormat(0x13, 0x5, 0x20))
    case "lb" => Some(IFormat(0x03, 0x0, 0))
    case "lh" => Some(IFormat(0x03, 0x1, 0))
    case "lw" => Some(IFormat(0x03, 0x2, 0))
    case "lbu" => Some(IFormat(0x03, 0x4, 0))
    case "lhu" => Some(IFormat(0x03, 0x5, 0))
    case "jalr" => Some(IFormat(0x67, 0x0, 0))
    case "sb" => Some(SFormat(0x0))
    case "sh" => Some(SFormat(0x1))
    case "sw" => Some(SFormat(0x2))
    case "beq" => Some(BFormat(0x0))
    case "bne" => Some(BFormat(0x1))
    case "blt" => Some(BFormat(0x4))
    case "bge" => Some(BFormat(0x5))
    case "bltu" => Some(BFormat(0x6))
    case "bgeu" => Some(BFormat(0x7))
    case "jal" => Some(JFormat)
    case _ => None
  }

  /** The word `nop` stands for, `addi x0, x0, 0`. */
  const NopWord: string := "00000013"

  /** The encoder call of one `case`, with the opcode that case passes. */
  function Encode(f: Format, tokens: seq<string>, pc: int, table: map<string, int>): (r: Result<string, AsmError>)
    ensures r.Ok? ==> IsHexWord(r.value)
    ensures r.Err? ==> !r.error.UnknownInstruction?
  {
    match f
    case NopFormat => Ok(NopWord)
    case RFormat(funct3, funct7) => EncodeRType(tokens, 0x33, funct3, funct7)
    case IFormat(opcode, funct3, specialFunct7) => EncodeIType(tokens, opcode, funct3, specialFunct7)
    case SFormat(funct3) => EncodeSType(tokens, 0x23, funct3)
    case BFormat(funct3) => EncodeBType(tokens, pc, table, 0x63, funct3)
    case JFormat => EncodeJType(tokens, pc, table, 0x6F)
  }

  /**
   * `processInstruction(tokens, currentPC, symbolTable)`. Every word it
   * returns is eight upper-case hex digits; an unlisted mnemonic is the only
   * source of "Unknown instruction".
   */
  function ProcessInstruction(tokens: seq<string>, pc: int, table: map<string, int>): (r: Result<string, AsmError>)
    requires |tokens| >= 1
    ensures r.Ok? ==> IsHexWord(r.value)
    ensures r == Err(UnknownInstruction(ToLower(tokens[0]))) <==> Mnemonic(ToLower(tokens[0])).None?
    ensures r.Err? && r.error.UnknownInstruction? ==> Mnemonic(ToLower(tokens[0])).None?
  {
    var name := ToLower(tokens[0]);
    match Mnemonic(name)
    case None => Err(UnknownInstruction(name))
    case Some(f) => Encode(f, tokens, pc, table)
  }

  /** An instruction whose lower-cased mnemonic is listed goes to that entry's encoder. */
  lemma Dispatches(tokens: seq<string>, pc: int, table: map<string, int>, name: string, f: Format, r: Result<string, AsmError>)
    requires |tokens| >= 1 && ToLower(tokens[0]) == name && Mnemonic(name) == Some(f) && Encode(f, tokens, pc, table) == r
    ensures ProcessInstruction(tokens, pc, table) == r
  {
  }

  /** The encoders read only the operands, never the mnemonic token. */
  lemma EncodeIgnoresMnemonic(f: Format, tokens: seq<string>, other: seq<string>, pc: int, table: map<string, int>)
    requires |tokens| >= 1 && |other| == |tokens| && other[1..] == tokens[1..]
    ensures Encode(f, other, pc, table) == Encode(f, tokens, pc, table)
  {
    SameOperands(tokens, other);
    match f
    case NopFormat =>
    case RFormat(funct3, funct7) => SameR(tokens, other, 0x33, funct3, funct7);
    case IFormat(opcode, funct3, specialFunct7) => SameI(tokens, other, opcode, funct3, specialFunct7);
    case SFormat(funct3) => SameS(tokens, other, funct3);
    case BFormat(funct3) => SameB(tokens, other, pc, table, funct3);
    case JFormat => SameJ(tokens, other, pc, table);
  }

  predicate SameArgs(tokens: seq<string>, other: seq<string>) {
    |other| == |tokens| && Arg(other, 1) == Arg(tokens, 1) && Arg(other, 2) == Arg(tokens, 2) && Arg(other, 3) == Arg(tokens, 3)
    && (|tokens| >= 3 ==> other[2] == tokens[2])
  }

  lemma SameOperands(tokens: seq<string>, other: seq<string>)
    requires |tokens| >= 1 && |other| == |tokens| && other[1..] == tokens[1..]
    ensures SameArgs(tokens, other)
  {
    assert forall i: nat :: 1 <= i < |tokens| ==> other[i] == tokens[i] by {
      forall i: nat | 1 <= i < |tokens| ensures other[i] == tokens[i] {
        assert other[i] == other[1..][i - 1];
      }
    }
  }

  lemma SameR(tokens: seq<string>, other: seq<string>, opcode: Bits32, funct3: Bits32, funct7: Bits32)
    requires SameArgs(tokens, other)
    ensures EncodeRType(other, opcode, funct3, funct7) == EncodeRType(tokens, opcode, funct3, funct7)
  {
  }

  lemma SameI(tokens: seq<string>, other: seq<string>, opcode: Bits32, funct3: Bits32, specialFunct7: Bits32)
    requires SameArgs(tokens, other)
    ensures EncodeIType(other, opcode, funct3, specialFunct7) == EncodeIType(tokens, opcode, funct3, specialFunct7)
  {
    if |tokens| >= 3 {
      assert ITypeOperands(other) == ITypeOperands(tokens);
      SameOperandsSameWord(other, tokens, opcode, funct3, specialFunct7);
    }
  }

  lemma SameS(tokens: seq<string>, other: seq<string>, funct3: Bits32)
    requires SameArgs(tokens, other)
    ensures EncodeSType(other, 0x23, funct3) == EncodeSType(tokens, 0x23, funct3)
  {
    match ParseRegister(Arg(tokens, 1))
    case Err(_) =>
    case Ok(_) =>
      if |tokens| >= 3 {
        match MatchMemOperand(tokens[2])
        case None =>
        case Some(_) =>
      }
  }

  lemma SameB(tokens: seq<string>, other: seq<string>, pc: int, table: map<string, int>, funct3: Bits32)
    requires SameArgs(tokens, other)
    ensures EncodeBType(other, pc, table, 0x63, funct3) == EncodeBType(tokens, pc, table, 0x63, funct3)
  {
  }

  lemma SameJ(tokens: seq<string>, other: seq<string>, pc: int, table: map<string, int>)
    requires SameArgs(tokens, other)
    ensures EncodeJType(other, pc, table, 0x6F) == EncodeJType(tokens, pc, table, 0x6F)
  {
  }

  /** Mnemonics are case-insensitive: `ADD`, `Add` and `add` encode alike, errors included. */
  lemma ProcessInstructionCaseInsensitive(tokens: seq<string>, pc: int, table: map<string, int>)
    requires |tokens| >= 1
    ensures ProcessInstruction(tokens, pc, table) == ProcessInstruction([ToLower(tokens[0])] + tokens[1..], pc, table)
  {
    var lowered := [ToLower(tokens[0])] + tokens[1..];
    ToLowerIdempotent(tokens[0]);
    assert lowered[0] == ToLower(tokens[0]) && lowered[1..] == tokens[1..];
    var name := ToLower(tokens[0]);
    assert ToLower(lowered[0]) == name;
    match Mnemonic(name)
    case None =>
    case Some(f) => EncodeIgnoresMnemonic(f, tokens, lowered, pc, table);
  }

  /** `nop` ignores its operands. */
  lemma NopIgnoresOperands(rest: seq<string>, pc: int, table: map<string, int>)
    ensures ProcessInstruction(["nop"] + rest, pc, table) == Ok(NopWord)
  {
    var nop := ["nop"] + rest;
    assert nop[0] == "nop";
    LowerMnemonic("nop");
    assert Mnemonic("nop") == Some(NopFormat);
  }

  /** A mnemonic spelt in lower case is its own `toLowerCase`. */
  lemma LowerMnemonic(name: string)
    requires forall k :: 0 <= k < |name| ==> 'a' <= name[k] <= 'z'
    ensures ToLower(name) == name
  {
  }
}
