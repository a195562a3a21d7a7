# RV32I browser assembler, modelled in Dafny

The model covers `assembler.js`, a two-pass assembler for the RV32I base
integer instruction set that runs in a web page. The user types assembly
text. `assemble()` turns it into one 32-bit machine word per instruction,
printed as eight upper-case hexadecimal digits and joined by newlines. It
logs per-line diagnostics. `downloadFile()` exports those words as a `.hex`
file or as an Intel/Altera `.mif` memory image.

Modules, in dependency order:

- `Wrappers`: `Option` and `Result`.
- `Errors`: the exceptions the encoders throw, each with its message text.
- `Text`: the JavaScript string built-ins the code uses, and their laws. These
  are `trim`, `split` on a character or on `/\s+/`, `replace(/,/g, ' ')`,
  `join`, `endsWith` and the case conversions.
- `JsNumber`:
  - `parseInt` with no radix;
  - ToInt32 and the 32-bit operators `<<`, `>>`, `&`, `|`;
  - `toHex`, which is `>>> 0`, `toString(16)`, `padStart` and `toUpperCase`.
- `Registers`: `REGISTER_MAP` and `parseRegister`.
- `Operands`: the memory-operand regular expression `imm(reg)`.
- `Encoding`: `parseImmediate` and the five encoders `encodeRType` to
  `encodeJType`. The lemmas decode each word back into its RISC-V fields.
- `Dispatch`: the `switch` of `processInstruction`.
- `Assembler`: the two loops of `assemble()`.
  - Pass 1 (`ScanSymbols`) builds the symbol table and the queue of
    instructions.
  - Pass 2 (`Generate`) encodes the queue, adds three NOPs after every word in
    debug mode, and logs every line that throws.
  - Both methods are proved against the recursive specifications
    `Pass1Upto` and `Pass2Upto`. The lemmas are stated about those
    specifications.
- `Mif`: the export loop of `downloadFile()`. It is proved against the
  specification `MifText`.
- `Examples`: worked encodings of individual instructions, checked word by word.
- `Programs`: whole programs through both passes. Each line is split,
  cleaned and classified; pass 1 builds the table and pass 2 prints the words.

A JavaScript number is modelled as `Option<int>`, where `None` stands for
NaN. The result of a bitwise operator is kept as its 32-bit pattern
(`Bits32`, an integer in [0, 2^32)). A missing token (`tokens[i]` past the
end) is `None` and converts to the text `undefined`, as in JavaScript. So a
missing branch target looks up the key `undefined` in the symbol table, and
a missing immediate is NaN. That NaN becomes 0 in every bitwise operator.

Where the code and its written description differ, the model follows the
code:

- A branch or jump target that is neither a label nor a number encodes
  offset 0 without any error. `parseInt` never throws, so the
  "Undefined label" handlers of `encodeBType` and `encodeJType` are never
  reached.
- There is no immediate range check.
- There is no register range check: `x40` is accepted and its bits spill
  into neighbouring fields.
- There is no operand-count check.

## Model

| member | source | states |
|---|---|---|
| Registers.RegisterMapRange | assembler.js:2-7 | every ABI name in the table maps to a register index from 0 to 31 |
| Registers.RegisterMapCovers | assembler.js:2-7 | each of the 32 registers has its canonical ABI name in the table with its own index, and `fp` is the same register as `s0` (8) |
| Registers.RegisterNamesLowerCase | assembler.js:2-7 | every table key is already lower case and none starts with `x`, so neither the lower-casing nor the `x<n>` branch can hide a table entry |
| Registers.ParseRegister | assembler.js:247-253 | exactly: "Missing register" when the token is missing or empty; otherwise the lower-cased token yields its table index when it is an ABI name, `parseInt` of the rest (no range check) when it starts with `x`, and "Invalid register" with the lower-cased token in every other case |
| Registers.ParseRegisterCaseInsensitive | assembler.js:249 | a token and its lower-cased form parse alike, errors included |
| Registers.ParseRegisterAbiName | assembler.js:250 | every ABI name yields the index the table lists |
| Registers.ParseRegisterNumbered | assembler.js:251 | `x<n>` and `X<n>` yield `n` for every integer `n`, negative or above 31 included |
| JsNumber.ParseIntDecimal | assembler.js:255-257 | `parseInt` reads back the decimal numeral of every integer, whatever non-digit text follows |
| JsNumber.ParseIntHex | assembler.js:255-257 | `parseInt` reads back a `0x` numeral of either sign, up to the first non-hex character |
| JsNumber.ParseIntNoDigits | assembler.js:255-257 | text that cannot begin a number (such as `undefined`) is NaN |
| JsNumber.Int32RoundTrip | assembler.js:178 | ToInt32 keeps every value that fits in 32 signed bits |
| JsNumber.ToHex | assembler.js:259-261 | the printed word is exactly eight upper-case hexadecimal digits, and they denote the unsigned value |
| JsNumber.ToHexParsesBack | assembler.js:259-261 | `parseInt("0x" + toHex(w))` is `w`: printing loses nothing |
| JsNumber.ToHexUnique | assembler.js:259-261 | eight upper-case digits that denote `w` are `toHex(w)`: the printing is unique |
| Text.SplitJoin | assembler.js:24 | splitting a newline-join gives back the fields, when no field holds a newline |
| Text.SplitOn | assembler.js:24 | `split('\n')` yields at least one field, no field holds the separator, and joining them gives back the text |
| Text.SplitWhitespace | assembler.js:46 | `split(/\s+/)` yields at least one field, no field holds white space, and the first field is empty exactly when the text is empty or starts with white space |
| Text.SplitWhitespaceFields | assembler.js:46 | after a trim, every field but the first is non-empty |
| Text.SplitWhitespaceConcat | assembler.js:46 | the fields together are the non-white-space characters of the text, in order |
| Text.Trim | assembler.js:33 | the result neither starts nor ends with white space, and it is empty exactly when the text is all white space |
| Text.TrimContent | assembler.js:33 | the text is a white-space run, then the result, then a white-space run: trimming removes the two runs and changes nothing between them |
| Text.SplitWhitespaceInterleave | assembler.js:46 | fields without white space, joined by non-empty white-space runs, split back into exactly those fields; only the first and last field may be empty |
| Text.BeforeFirstSkip | assembler.js:33 | text free of the separator's first character passes unchanged into the first field |
| Text.BeforeFirstAt | assembler.js:33 | the first field ends at the first occurrence of the separator |
| Text.BeforeFirst | assembler.js:33 | `split(sep)[0]` is the longest prefix in which `sep` does not start, and it ends where `sep` first occurs |
| Text.ReplaceAll | assembler.js:46 | the commas are replaced by spaces and every other character is kept |
| Operands.MatchMemOperand | assembler.js:183 | a match splits the operand into an immediate group `-?\d+` or `0x[0-9a-fA-F]+` and an alphanumeric base between parentheses |
| Operands.MatchMemOperandComplete | assembler.js:183 | every operand of the form `imm(base)`, with well-formed groups, matches with exactly those groups |
| Operands.MatchNeedsParen | assembler.js:183 | text without `(` never matches |
| Encoding.ParseImmediateMissing | assembler.js:191 | a missing immediate is NaN and enters the word as 0 |
| Encoding.EncodeRType | assembler.js:174-179 | a word is always eight hex digits; the only errors are register errors, and fewer than four tokens always fail |
| Encoding.EncodeRTypeFields | assembler.js:174-179 | with three valid registers, the word decodes to the given opcode, rd, funct3, rs1, rs2 and funct7 |
| Encoding.EncodeIType | assembler.js:181-195 | a missing third token fails on `match` (and nothing else raises that error); every other error is a register error |
| Encoding.EncodeITypeFields | assembler.js:188-194 | `op rd, rs1, imm` decodes to its opcode, rd, funct3 and rs1, with the immediate's low 12 bits (exactly the immediate when it fits in 12 signed bits) |
| Encoding.EncodeITypeNoImmediate | assembler.js:189-194 | `op rd, rs1` with the immediate left out still encodes, with immediate 0, and the word decodes to its opcode, rd, funct3 and rs1 |
| Encoding.EncodeITypeMemoryForm | assembler.js:183-192 | `op rd, imm(base)` encodes exactly as `op rd, base, imm`, errors included |
| Encoding.EncodeSraiFields | assembler.js:193 | `srai rd, rs1, s` puts `s` modulo 32 in the rs2 field and 0x20 in the funct7 field |
| Encoding.EncodeSType | assembler.js:197-206 | a word is always eight hex digits and only comes from a memory operand `imm(reg)`; the errors are the register, store-syntax or missing-operand errors |
| Encoding.EncodeSTypeFields | assembler.js:197-206 | for every immediate, `op rs2, imm(rs1)` decodes to its opcode, funct3, rs1 and rs2, with the immediate's low 12 bits split over the two immediate fields (exactly the immediate when it fits in 12 signed bits) |
| Encoding.EncodeSTypeNeedsMemoryOperand | assembler.js:199-200 | once rs2 has parsed, a second operand that is not `imm(reg)` is "Invalid Store syntax" |
| Encoding.BranchOffset | assembler.js:212-222 | a label in the table gives its address minus the current address; anything else gives the parsed number itself (NaN when it is not a number) |
| Encoding.BranchOffsetUnknownTarget | assembler.js:212-216 | a target that is neither a label nor a number gives offset 0 and no error |
| Encoding.EncodeBType | assembler.js:208-229 | a word is always eight hex digits; the only errors are register errors |
| Encoding.EncodeBTypeFields | assembler.js:222-228 | with an even offset in range, the word decodes to its opcode, funct3, rs1, rs2 and exactly that offset |
| Encoding.EncodeJType | assembler.js:231-245 | a word is always eight hex digits; the only errors are register errors, and the two-token form never fails |
| Encoding.EncodeJTypeFields | assembler.js:239-244 | with an even offset in range, the word decodes to its opcode, rd and exactly that offset |
| Encoding.EncodeJTypeDefaultLink | assembler.js:232-233 | `jal target` encodes exactly as `jal ra, target` |
| Dispatch.ProcessInstruction | assembler.js:80-131 | every word is eight hex digits, and "Unknown instruction" with the lower-cased mnemonic is returned exactly when the mnemonic is not listed |
| Dispatch.Encode | assembler.js:85-128 | a listed mnemonic never yields "Unknown instruction" |
| Dispatch.ProcessInstructionCaseInsensitive | assembler.js:81 | lower-casing the mnemonic changes nothing, errors included |
| Dispatch.NopIgnoresOperands | assembler.js:85 | `nop` gives `00000013` whatever operands follow it |
| Examples.NopIsAddiZero | assembler.js:85 | the `nop` word is what `addi x0, x0, 0` encodes to |
| Examples.AddExample | assembler.js:88 | `add x1, x2, x3` encodes to `003100B3` |
| Examples.StoreInstruction | assembler.js:117 | `sw x5, 8(x6)` encodes to `00532423` |
| Examples.BranchInstruction | assembler.js:120 | at address 4, `beq x1, x0, start` with `start` at address 0 branches back by 4 and encodes to `FE008EE3` |
| Examples.UndefinedLabelInstruction | assembler.js:231-238 | `jal x1, nowhere` with no such label encodes to `000000EF`, a jump to itself |
| Assembler.KindLabel | assembler.js:36-37 | a line defines a label exactly when its cleaned text is non-empty and ends in `:`, and the name is the text before that colon |
| Assembler.ClassifyHashComment | assembler.js:33 | text after the first `#` never changes what the line is |
| Assembler.ClassifySlashComment | assembler.js:33 | text after the first `//` never changes what the line is, even when it holds a `#` |
| Assembler.ClassifyBlank | assembler.js:33-34 | a line is skipped exactly when its code before the comment is all white space, with a `#` comment, a `//` comment or none |
| Assembler.TokenizeFields | assembler.js:46 | fields joined by any non-empty mix of commas and white space come back as exactly those tokens |
| Assembler.CleanUnchanged | assembler.js:33 | cleaning leaves a line alone when it has no comment marker and no surrounding white space |
| Assembler.ScanSymbols | assembler.js:30-55 | the pass-1 loop computes the result of the pass-1 specification over all lines |
| Assembler.Pass1Addresses | assembler.js:47-54 | the k-th queued instruction sits at address 4k, or 16k in debug mode, and the address counter ends just past the last one |
| Assembler.Pass1Count | assembler.js:47 | the queue holds one entry per instruction line |
| Assembler.Pass1Queue | assembler.js:47 | every queue entry names an instruction line among those read, carrying that line's tokens, with line numbers in the order of the lines |
| Assembler.Pass1QueueComplete | assembler.js:47 | every instruction line is in the queue, at the position given by the number of instruction lines above it |
| Assembler.Pass1Labels | assembler.js:42 | the table's keys are exactly the labels read, and each label maps to the address of the instructions counted above it |
| Assembler.Pass1FailsIff | assembler.js:38-41 | pass 1 stops exactly when some label is either defined twice or is one of the names the table inherits |
| Assembler.Pass1ErrorName | assembler.js:39 | the reported name is a label on some line that is already defined or inherited there |
| Assembler.Pass1Absorbs | assembler.js:40 | once pass 1 has stopped, later lines change nothing |
| Assembler.DuplicateIffRedefined | assembler.js:38-41 | with an own-key lookup, pass 1 fails exactly when a label is defined twice |
| Assembler.LabelBindsNextInstruction | assembler.js:42-47 | a label is bound to the address of the next instruction line below it |
| Assembler.Generate | assembler.js:58-74 | the pass-2 loop computes the words and log of the pass-2 specification |
| Assembler.Pass2Upto | assembler.js:58-74 | each queued instruction either adds one diagnostic or adds one word (four in debug mode) |
| Assembler.Pass2LogIsFailures | assembler.js:71-73 | the log is exactly one line error for each queued instruction whose encoding throws, in queue order |
| Assembler.FailuresSound | assembler.js:71-73 | every logged error belongs to an instruction whose encoding throws |
| Assembler.FailuresComplete | assembler.js:71-73 | every instruction whose encoding throws is logged |
| Assembler.DebugPads | assembler.js:65-69 | debug mode follows every word with three `00000013` words and logs the same diagnostics |
| Assembler.Pass2AllEncode | assembler.js:60-61 | when nothing is logged, the word of the m-th instruction is at index m (4m in debug mode) and is what that instruction encodes to |
| Assembler.Layout | assembler.js:49-69 | when nothing is logged, the image is as long as the final pass-1 address and each instruction's word sits at its own address over 4, in both modes |
| Assembler.AssembledLayout | assembler.js:24-77 | the same for `assemble()` as a whole: the word at `pc / 4` is what `processInstruction` returns for the instruction at `pc` |
| Assembler.AssembledWords | assembler.js:58-77 | every word `assemble()` outputs is eight upper-case hex digits |
| Assembler.Pass2Words | assembler.js:58-74 | given an encoder that prints machine words, pass 2 outputs only machine words |
| Assembler.Pass2WordsAreEncoded | assembler.js:58-74 | the words are the words of the instructions that encode, in queue order, each followed by three NOPs in debug mode; the instructions that throw contribute nothing |
| Assembler.EncodedCount | assembler.js:58-74 | every queued instruction is either encoded or logged: the two counts add up to the queue length |
| Assembler.EncodedComplete | assembler.js:60-61 | the word of every instruction that encodes is in the encoded list, just after the words of the instructions above it |
| Assembler.EncodedSound | assembler.js:60-61 | every encoded word is the word of some instruction that encodes, placed after the words of the encoding instructions above it |
| Assembler.Pass2Order | assembler.js:60-69 | the word of the m-th instruction, when it encodes, sits at the index given by the number of encoding instructions above it (times 4 in debug mode) |
| Assembler.Pass2Sources | assembler.js:60-69 | every output word is a NOP or the word of some queued instruction |
| Assembler.Assemble | assembler.js:24-77 | the output area holds the words of the specification joined by newlines, and the log holds its diagnostics; a duplicate label leaves the output empty |
| Assembler.PrototypeLabelRejected | assembler.js:38-41 | the one-line program `toString:` defines no label twice, yet the inherited-key lookup reports it as a duplicate; the own-key lookup accepts it |
| Mif.BlankIsTrimEmpty | assembler.js:152 | a line is skipped exactly when all of it is white space |
| Mif.BuildMif | assembler.js:146-159 | the export loop builds the header, one `ADDR : WORD;` entry per non-blank line at that line's index, and the footer |
| Mif.DownloadFile | assembler.js:134-160 | an empty output box gives the "Assemble first!" alert and nothing else does; `hex` offers the box text as `program.hex`, `mif` its MIF text as `program.mif`, any other type an empty file with no name |
| Mif.AddressValue | assembler.js:154 | the address is upper-case hexadecimal for the line index |
| Mif.EntriesSplit | assembler.js:151-156 | the entries of all lines are the entries of the first lines followed by those of the rest, each line at its own index |
| Mif.EntriesSkipBlank | assembler.js:152 | a blank line contributes nothing: the entries are those of the lines before it followed by those of the lines after it, each at its own index, the same as with that line emptied |
| Mif.EntriesOfWords | assembler.js:151-156 | with no blank line, every line gets an entry at its own index |
| Mif.MifOfAssembly | assembler.js:146-159 | the image of assembled output has one entry per machine word, at that word's index, and no image exists when there are no words |
| Programs.CodeLine | assembler.js:33-46 | a line without comment of fields separated by commas or white space is an instruction with exactly those tokens |
| Programs.LabelLine | assembler.js:33-37 | a line `name:` with no comment defines the label `name` |
| Programs.OneLineProgram | assembler.js:24-77 | a program of one instruction line that encodes assembles to that word, followed by three NOPs in debug mode, with nothing logged |
| Programs.LabelScan | assembler.js:30-55 | for a label line above two instruction lines, pass 1 binds the label to 0 and queues the instructions at 0 and 4 with line numbers 2 and 3 |
| Programs.TwoWordProgram | assembler.js:58-77 | two queued instructions that encode give their two words in order and no diagnostic |
| Programs.AddProgramDebug | assembler.js:24-77 | in debug mode the program `add x1, x2, x3` assembles to `003100B3` followed by three `00000013` words |
| Programs.LoopProgram | assembler.js:24-77 | the program `start:`, `add x1, x2, x3`, `beq x1, x0, start` assembles to `003100B3` and `FE008EE3`, the branch jumping back by 4 |

## Left out

- The page is not modelled: element lookups, click handlers, the text areas, the
  `Blob` download link and the `alert`. `Assemble` returns the output text and
  the log, and `DownloadFile` returns the file it would offer.
- The log's HTML markup (`<br>`, `innerHTML +=`) is not modelled. The log is a
  sequence of `Diagnostic` values. `Errors.Message` gives each one's message text.
- The assembler's numbers are doubles, which are exact only up to 2^53.
  `parseInt` is modelled on unbounded integers, so its precision loss is not
  captured.
- `toLowerCase` and `toUpperCase` are modelled for ASCII letters only. Other
  case mappings are not captured.
- JavaScript strings are UTF-16 code units; Dafny strings are code points here.
  The model does not capture surrogate pairs.
- `Errors.MatchOnUndefined`: the model returns this error where the source throws
  a `TypeError`. Its message text depends on the engine, so the text given is one
  engine's wording.
- `Bits32` is a 32-bit pattern held as an integer, not a machine type. Wrap-around
  of `<<` and the sign of `>>` are written out in `Shl` and `Sar`.
- `Mif.BuildMif`: `DEPTH = 256` is written as a constant in the header. Like the
  source, the model does not check the number of words against it.
- `Assembler.ScanSymbols` takes pass 1's input already classified by
  `Assembler.Kinds` (cleaned and tokenised line by line). Cleaning and splitting
  are modelled as functions.
- `Assembler.Generate` takes the encoder as a function argument.
  `Assembler.Assemble` passes it `processInstruction` with the finished symbol table.
- The `catch` blocks that raise "Undefined label" (assembler.js:214-215 and
  236-237) are not modelled. Nothing inside them can throw.
- `Assembler.ScanSymbols` implements the own-key duplicate test, the
  intended behaviour (see Findings). It accepts a label named after a
  property of `Object.prototype`, such as `toString:`, which the source
  rejects as a duplicate. The behaviour as written is kept in the pass-1
  specification with the inherited names (`Assembler.PrototypeLabelRejected`).
- `Assembler.Assemble` runs that own-key pass 1, so it too accepts
  `toString:` and the other inherited names as labels.
- `Encoding.BranchOffset` looks up own keys only. For a target such as
  `toString` the source finds an inherited function instead. The word is
  the same: a function minus a number is NaN, as is `parseInt` of such a
  name, and a NaN offset packs as 0.
- `Encoding.EncodeRType`, `Encoding.EncodeBType` and `Encoding.EncodeJType`
  restrict only the kind of error in their function contracts. The exact word
  is in the `*Fields` lemmas, which hold only for registers 0 to 31. A
  register `x<n>` outside that range is accepted, as in the source, but no
  lemma states how its bits spill.
- `Encoding.EncodeITypeFields`, `Encoding.EncodeBTypeFields` and
  `Encoding.EncodeJTypeFields` state the exact immediate only for values that
  fit their field. For other values they state the low bits, or nothing.

## Findings

| source | as written | input that shows it | evidently intended | confidence | as-written member | corrected member |
|---|---|---|---|---|---|---|
| assembler.js:38-41 | the duplicate test `symbolTable[labelName] !== undefined` runs on a plain `{}` object, so it also finds the names every object inherits | the one-line program `toString:` is rejected as "Duplicate label 'toString'" although nothing defined it before | a label is a duplicate only when an earlier line defined it | not executed | Assembler.PrototypeLabelRejected | Assembler.DuplicateIffRedefined |
