/**
 * Whole programs through both passes of `assemble`: the lines are split,
 * cleaned and classified, pass 1 builds the symbol table and pass 2 prints
 * the words.
 */
module Programs {
  import opened Wrappers
  import opened Text
  import opened Errors
  import opened Dispatch
  import opened Assembler
  import Examples

  /** An instruction line of fields separated by commas or white space, with no comment. */
  lemma CodeLine(ws: seq<string>, seps: seq<string>)
    requires |ws| >= 1 && |seps| == |ws| - 1
    requires forall k :: 0 <= k < |ws| ==> ws[k] != "" && NoWhitespace(ws[k]) && ',' !in ws[k]
    requires forall k :: 0 <= k < |ws| ==> '#' !in ws[k] && '/' !in ws[k] && ':' !in ws[k]
    requires forall k :: 0 <= k < |seps| ==> seps[k] != "" && Separator(seps[k])
    ensures Classify(Interleave(ws, seps)) == Instruction(ws)
  {
    var line := Interleave(ws, seps);
    InterleaveFirst(ws, seps);
    InterleaveLast(ws, seps);
    SeparatorsFree(seps, '#');
    SeparatorsFree(seps, '/');
    InterleaveAbsent(ws, seps, '#');
    InterleaveAbsent(ws, seps, '/');
    CleanUnchanged(line);
    TokenizeFields(ws, seps);
  }

  /** A character in no field and no separator is not in the joined text. */
  lemma {:induction false} InterleaveAbsent(ws: seq<string>, seps: seq<string>, c: char)
    requires |ws| >= 1 && |seps| == |ws| - 1
    requires forall k :: 0 <= k < |ws| ==> c !in ws[k]
    requires forall k :: 0 <= k < |seps| ==> c !in seps[k]
    ensures c !in Interleave(ws, seps)
  {
    if |ws| > 1 {
      InterleaveAbsent(ws[1..], seps[1..], c);
    }
  }

  lemma SeparatorsFree(seps: seq<string>, c: char)
    requires forall k :: 0 <= k < |seps| ==> Separator(seps[k])
    requires c != ',' && !IsWhitespace(c)
    ensures forall k :: 0 <= k < |seps| ==> c !in seps[k]
  {
  }

  function AddTokens(): Tokens {
    ["add", "x1", "x2", "x3"]
  }

  function BranchTokens(): Tokens {
    ["beq", "x1", "x0", "start"]
  }

  /** `add x1, x2, x3`. */
  function AddLine(): string {
    Interleave(AddTokens(), [" ", ", ", ", "])
  }

  /** `beq x1, x0, start`. */
  function BranchLine(): string {
    Interleave(BranchTokens(), [" ", ", ", ", "])
  }

  lemma AddLineSingle()
    ensures '\n' !in AddLine()
  {
    InterleaveAbsent(AddTokens(), [" ", ", ", ", "], '\n');
  }

  lemma BranchLineSingle()
    ensures '\n' !in BranchLine()
  {
    InterleaveAbsent(BranchTokens(), [" ", ", ", ", "], '\n');
  }

  lemma StartLineSingle()
    ensures '\n' !in "start:"
  {
  }

  lemma AddLineKind()
    ensures Classify(AddLine()) == Instruction(AddTokens())
  {
    CodeLine(AddTokens(), [" ", ", ", ", "]);
  }

  lemma BranchLineKind()
    ensures Classify(BranchLine()) == Instruction(BranchTokens())
  {
    CodeLine(BranchTokens(), [" ", ", ", ", "]);
  }

  /** A label line with no comment and no white space around it. */
  lemma LabelLine(line: string, name: string)
    requires '#' !in name && '/' !in name
    requires name != "" && !IsWhitespace(name[0])
    requires line == name + ":"
    ensures Classify(line) == Label(name)
  {
    assert line[0] == name[0] && line[|line| - 1] == ':';
    CleanUnchanged(line);
    assert line[..|line| - 1] == name;
  }

  lemma StartLineKind()
    ensures Classify("start:") == Label("start")
  {
    LabelLine("start:", "start");
  }

  /** A program of one instruction line assembles to that instruction's word, and its NOPs in debug mode. */
  lemma OneLineProgram(line: string, tokens: Tokens, word: string, debug: bool)
    requires '\n' !in line && Classify(line) == Instruction(tokens)
    requires ProcessInstruction(tokens, 0, map[]) == Ok(word)
    ensures AssembleSpec(line, debug, {}) == Output(if debug then [word, NopWord, NopWord, NopWord] else [word], [])
  {
    SplitNoSeparator(line, '\n');
    var p := Pending(0, tokens, 1);
    KindsOne([line], Instruction(tokens));
    OneLinePass1(Kinds([line]), tokens, debug);
    OneWordPass2(p, Encoder(map[]), word, debug);
  }

  lemma KindsOne(lines: seq<string>, kind: LineKind)
    requires |lines| == 1 && Classify(lines[0]) == kind
    ensures |Kinds(lines)| == 1 && Kinds(lines)[0] == kind
  {
  }

  lemma OneLinePass1(kinds: seq<LineKind>, tokens: Tokens, debug: bool)
    requires |kinds| == 1 && kinds[0] == Instruction(tokens)
    ensures Pass1Upto(kinds, 1, debug, {}) == Ok(Scan(Stride(debug), map[], [Pending(0, tokens, 1)]))
  {
    assert Pass1Upto(kinds, 0, debug, {}) == Ok(Scan(0, map[], []));
    assert kinds[0] == Instruction(tokens);
    assert [] + [Pending(0, tokens, 1)] == [Pending(0, tokens, 1)];
  }

  lemma OneWordPass2(p: Pending, enc: Pending -> Result<string, AsmError>, word: string, debug: bool)
    requires enc(p) == Ok(word)
    ensures Pass2Upto([p], 1, enc, debug) == Output(if debug then [word, NopWord, NopWord, NopWord] else [word], [])
  {
    assert Pass2Upto([p], 0, enc, debug) == Output([], []);
  }

  /** In debug mode the single line `add x1, x2, x3` assembles to its word followed by three NOPs. */
  lemma AddProgramDebug()
    ensures AssembleSpec(AddLine(), true, {}) == Output(["003100B3", NopWord, NopWord, NopWord], [])
  {
    AddLineKind();
    AddLineSingle();
    AddWordAlone();
    OneLineProgram(AddLine(), AddTokens(), "003100B3", true);
  }

  lemma AddWordAlone()
    ensures ProcessInstruction(AddTokens(), 0, map[]) == Ok("003100B3")
  {
    Examples.AddExample(AddTokens(), 0, map[]);
  }

  /**
   * A label followed by two instruction lines: pass 1 binds the label to
   * address 0 and queues the instructions at addresses 0 and 4.
   */
  lemma LabelScan(l0: string, l1: string, l2: string, name: string, t1: Tokens, t2: Tokens)
    requires '\n' !in l0 && '\n' !in l1 && '\n' !in l2
    requires Classify(l0) == Label(name) && Classify(l1) == Instruction(t1) && Classify(l2) == Instruction(t2)
    ensures Pass1(JoinWith([l0, l1, l2], '\n'), false, {})
         == Ok(Scan(8, map[name := 0], [Pending(0, t1, 2), Pending(4, t2, 3)]))
  {
    var lines := [l0, l1, l2];
    ThreeLines(l0, l1, l2, '\n');
    KindsThree(lines, Label(name), Instruction(t1), Instruction(t2));
    LabelPass1(Kinds(lines), name, t1, t2);
  }

  /** Two queued instructions that both encode give their two words and no diagnostic. */
  lemma TwoWordProgram(input: string, table: map<string, int>, t1: Tokens, t2: Tokens, w1: string, w2: string)
    requires Pass1(input, false, {}) == Ok(Scan(8, table, [Pending(0, t1, 2), Pending(4, t2, 3)]))
    requires ProcessInstruction(t1, 0, table) == Ok(w1)
    requires ProcessInstruction(t2, 4, table) == Ok(w2)
    ensures AssembleSpec(input, false, {}) == Output([w1, w2], [])
  {
    TwoWordPass2(Pending(0, t1, 2), Pending(4, t2, 3), Encoder(table), w1, w2);
  }

  lemma ThreeLines(l0: string, l1: string, l2: string, c: char)
    requires c !in l0 && c !in l1 && c !in l2
    ensures SplitOn(JoinWith([l0, l1, l2], c), c) == [l0, l1, l2]
  {
    SplitJoin([l0, l1, l2], c);
  }

  lemma KindsThree(lines: seq<string>, k0: LineKind, k1: LineKind, k2: LineKind)
    requires |lines| == 3 && Classify(lines[0]) == k0 && Classify(lines[1]) == k1 && Classify(lines[2]) == k2
    ensures |Kinds(lines)| == 3 && Kinds(lines)[0] == k0 && Kinds(lines)[1] == k1 && Kinds(lines)[2] == k2
  {
  }

  lemma LabelPass1(kinds: seq<LineKind>, name: string, t1: Tokens, t2: Tokens)
    requires |kinds| == 3 && kinds[0] == Label(name) && kinds[1] == Instruction(t1) && kinds[2] == Instruction(t2)
    ensures Pass1Upto(kinds, 3, false, {}) == Ok(Scan(8, map[name := 0], [Pending(0, t1, 2), Pending(4, t2, 3)]))
  {
    var table := map[name := 0];
    var p, q := Pending(0, t1, 2), Pending(4, t2, 3);
    assert Pass1Upto(kinds, 0, false, {}) == Ok(Scan(0, map[], []));
    assert Pass1Upto(kinds, 1, false, {}) == Ok(Scan(0, table, []));
    assert [] + [p] == [p];
    assert Pass1Upto(kinds, 2, false, {}) == Ok(Scan(4, table, [p]));
    assert [p] + [q] == [p, q];
  }

  lemma TwoWordPass2(p: Pending, q: Pending, enc: Pending -> Result<string, AsmError>, w1: string, w2: string)
    requires enc(p) == Ok(w1) && enc(q) == Ok(w2)
    ensures Pass2Upto([p, q], 2, enc, false) == Output([w1, w2], [])
  {
    assert Pass2Upto([p, q], 0, enc, false) == Output([], []);
    assert Pass2Upto([p, q], 1, enc, false) == Output([w1], []);
  }

  /**
   * A label, an instruction and a branch back to the label: the branch at
   * address 4 jumps back by 4, and no line is logged.
   */
  lemma LoopProgram()
    ensures AssembleSpec(JoinWith(["start:", AddLine(), BranchLine()], '\n'), false, {})
         == Output(["003100B3", "FE008EE3"], [])
  {
    LoopScan();
    LoopWords();
    TwoWordProgram(JoinWith(["start:", AddLine(), BranchLine()], '\n'), map["start" := 0],
                   AddTokens(), BranchTokens(), "003100B3", "FE008EE3");
  }

  lemma LoopScan()
    ensures Pass1(JoinWith(["start:", AddLine(), BranchLine()], '\n'), false, {})
         == Ok(Scan(8, map["start" := 0], [Pending(0, AddTokens(), 2), Pending(4, BranchTokens(), 3)]))
  {
    StartLineKind();
    AddLineKind();
    BranchLineKind();
    StartLineSingle();
    AddLineSingle();
    BranchLineSingle();
    LabelScan("start:", AddLine(), BranchLine(), "start", AddTokens(), BranchTokens());
  }

  lemma LoopWords()
    ensures ProcessInstruction(AddTokens(), 0, map["start" := 0]) == Ok("003100B3")
    ensures ProcessInstruction(BranchTokens(), 4, map["start" := 0]) == Ok("FE008EE3")
  {
    Examples.AddExample(AddTokens(), 0, map["start" := 0]);
    Examples.BranchInstruction(BranchTokens(), 4, map["start" := 0]);
  }
}
