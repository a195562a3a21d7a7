/**
 * The two passes of `assemble`. Pass 1 walks the source lines, strips
 * comments, binds each label to the address of the next instruction and
 * queues every instruction line with its address and line number; pass 2
 * encodes the queued instructions against the finished symbol table, follows
 * each word with three NOPs in debug mode, and logs one diagnostic for every
 * line whose encoding throws.
 *
 * The symbol table is a plain JavaScript object, so `symbolTable[name]` also
 * finds the properties every object inherits. The pass-1 functions take those
 * names as `inherited`: `ObjectPrototypeNames()` gives the behaviour as written,
 * the empty set the behaviour intended, which is the one `Assemble` implements.
 */
module Assembler {
  import opened Wrappers
  import opened Text
  import opened JsNumber
  import opened Errors
  import opened Dispatch

  /** The tokens of an instruction line; `split(/\s+/)` never returns an empty array. */
  type Tokens = t: seq<string> | |t| >= 1 witness [""]

  /** An entry of `cleanedLines`: an instruction, its address and its 1-based line number. */
  datatype Pending = Pending(pc: int, tokens: Tokens, lineNumber: int)

  /** Pass 1 after some lines: the next address, the symbol table and the queued instructions. */
  datatype Scan = Scan(pc: int, table: map<string, int>, pending: seq<Pending>)

  /** A message of the log area. */
  datatype Diagnostic = LineError(line: int, message: string) | DuplicateLabel(name: string)

  /** What pass 2 has produced: the machine words and the diagnostics. */
  datatype Output = Output(words: seq<string>, log: seq<Diagnostic>)

  /** The names a lookup on a fresh `{}` finds although nothing was stored under them. */
  function ObjectPrototypeNames(): set<string> {
    {
      "constructor", "__proto__", "__defineGetter__", "__defineSetter__", "__lookupGetter__",
      "__lookupSetter__", "hasOwnProperty", "isPrototypeOf", "propertyIsEnumerable",
      "toLocaleString", "toString", "valueOf"
    }
  }

  // ------------------------------------------------------------------ lines

  /** What the pass-1 loop makes of one source line. */
  datatype LineKind = Blank | Label(name: string) | Instruction(tokens: Tokens)

  /** `line.split('#')[0].split('//')[0].trim()`. */
  function Clean(raw: string): string {
    Trim(BeforeFirst(BeforeFirst(raw, "#"), "//"))
  }

  /** `line.replace(/,/g, ' ').trim().split(/\s+/)`. */
  function Tokenize(line: string): Tokens {
    SplitWhitespace(Trim(ReplaceAll(line, ',', ' ')))
  }

  /** What the pass-1 loop makes of a source line: the kind of its cleaned text. */
  function Classify(raw: string): LineKind {
    KindOf(Clean(raw))
  }

  /**
   * The branches of the pass-1 loop body on a cleaned line: an empty line is
   * skipped, one that ends in `:` defines the label before the colon (which
   * may be empty), and any other line is an instruction.
   */
  function KindOf(line: string): LineKind {
    if line == "" then Blank
    else if EndsWithChar(line, ':') then Label(line[..|line| - 1])
    else Instruction(Tokenize(line))
  }

  /**
   * A cleaned line is a label exactly when it ends in `:`, and it is then the
   * label's name followed by `:`.
   */
  lemma KindLabel(line: string)
    ensures KindOf(line).Label? <==> line != "" && EndsWithChar(line, ':')
    ensures KindOf(line).Label? ==> line == KindOf(line).name + ":"
  {
    if line != "" && EndsWithChar(line, ':') {
      assert line == line[..|line| - 1] + ":";
    }
  }

  /** Whatever follows a `#` is a comment: it never changes what the line is. */
  lemma ClassifyHashComment(code: string, comment: string)
    requires '#' !in code
    ensures Classify(code + "#" + comment) == Classify(code)
  {
    BeforeFirstAt(code, comment, "#");
    BeforeFirstAbsent(code, "#");
  }

  /**
   * Whatever follows a `//` is a comment too, even when it holds a `#`: the
   * `#` split then cuts inside the comment.
   */
  lemma ClassifySlashComment(code: string, comment: string)
    requires '#' !in code && '/' !in code
    ensures Classify(code + "//" + comment) == Classify(code)
  {
    var raw := code + "//" + comment;
    BeforeFirstSkip(code + "//", comment, "#");
    var cut := BeforeFirst(comment, "#");
    assert BeforeFirst(raw, "#") == code + "//" + cut;
    BeforeFirstAt(code, cut, "//");
    BeforeFirstAbsent(code, "#");
    BeforeFirstAbsent(code, "//");
  }

  /**
   * A line whose code before its comment is only white space is skipped, and
   * a line with anything else before its comment is not.
   */
  lemma ClassifyBlank(code: string, comment: string)
    requires '#' !in code && '/' !in code
    ensures Classify(code).Blank? <==> AllWhitespace(code)
    ensures Classify(code + "#" + comment).Blank? <==> AllWhitespace(code)
    ensures Classify(code + "//" + comment).Blank? <==> AllWhitespace(code)
  {
    ClassifyHashComment(code, comment);
    ClassifySlashComment(code, comment);
    BeforeFirstAbsent(code, "#");
    BeforeFirstAbsent(code, "//");
  }

  /**
   * Commas and white-space runs both separate tokens: fields joined by any
   * non-empty mix of the two come back as the tokens of the line.
   */
  lemma {:induction false} TokenizeFields(ws: seq<string>, seps: seq<string>)
    requires |ws| >= 1 && |seps| == |ws| - 1
    requires forall k :: 0 <= k < |ws| ==> ws[k] != "" && NoWhitespace(ws[k]) && ',' !in ws[k]
    requires forall k :: 0 <= k < |seps| ==> seps[k] != "" && Separator(seps[k])
    ensures Tokenize(Interleave(ws, seps)) == ws
  {
    var spaced := SpacedAll(seps);
    ReplaceInterleave(ws, seps);
    var line := Interleave(ws, spaced);
    InterleaveFirst(ws, spaced);
    InterleaveLast(ws, spaced);
    TrimNoop(line);
    SplitWhitespaceInterleave(ws, spaced);
  }

  /** A token separator: commas and white space only. */
  predicate Separator(sep: string) {
    forall k :: 0 <= k < |sep| ==> sep[k] == ',' || IsWhitespace(sep[k])
  }

  /** The separators once every comma is a space. */
  function SpacedAll(seps: seq<string>): (r: seq<string>)
    ensures |r| == |seps|
    ensures forall k :: 0 <= k < |seps| ==> r[k] == ReplaceAll(seps[k], ',', ' ')
  {
    seq(|seps|, k requires 0 <= k < |seps| => ReplaceAll(seps[k], ',', ' '))
  }

  /** Replacing the commas of a joined line replaces them in the separators only. */
  lemma {:induction false} ReplaceInterleave(ws: seq<string>, seps: seq<string>)
    requires |ws| >= 1 && |seps| == |ws| - 1
    requires forall k :: 0 <= k < |ws| ==> ',' !in ws[k]
    requires forall k :: 0 <= k < |seps| ==> Separator(seps[k])
    ensures ReplaceAll(Interleave(ws, seps), ',', ' ') == Interleave(ws, SpacedAll(seps))
    ensures forall k :: 0 <= k < |seps| ==> AllWhitespace(SpacedAll(seps)[k])
  {
    ReplaceAllAbsent(ws[0], ',', ' ');
    if |ws| > 1 {
      ReplaceInterleave(ws[1..], seps[1..]);
      assert SpacedAll(seps[1..]) == SpacedAll(seps)[1..];
      var t := Interleave(ws[1..], seps[1..]);
      ReplaceAllAppend(ws[0] + seps[0], t, ',', ' ');
      ReplaceAllAppend(ws[0], seps[0], ',', ' ');
    }
  }

  /** The kinds of all lines of the input. */
  function Kinds(lines: seq<string>): seq<LineKind> {
    seq(|lines|, i requires 0 <= i < |lines| => Classify(lines[i]))
  }

  /** The address step of one instruction line: 4 bytes, and 12 more for the NOPs of debug mode. */
  function Stride(debug: bool): int {
    if debug then 4 + 12 else 4
  }

  /** The address of the k-th instruction line. */
  function Address(k: int, debug: bool): int {
    if debug then 16 * k else 4 * k
  }

  /** The index of the word of the m-th instruction when no instruction fails. */
  function WordIndex(m: int, debug: bool): int {
    if debug then 4 * m else m
  }

  /** The words one instruction that encodes contributes: itself, and three NOPs in debug mode. */
  function WordsPer(debug: bool): int {
    if debug then 4 else 1
  }

  // ----------------------------------------------------------------- pass 1

  /** One iteration of the pass-1 loop over line `i`; `Err(name)` is the duplicate-label exit. */
  function Pass1Step(s: Scan, kind: LineKind, i: nat, debug: bool, inherited: set<string>): Result<Scan, string> {
    match kind
    case Blank => Ok(s)
    case Label(name) =>
      if name in s.table || name in inherited then Err(name)
      else Ok(s.(table := s.table[name := s.pc]))
    case Instruction(tokens) =>
      Ok(Scan(s.pc + Stride(debug), s.table, s.pending + [Pending(s.pc, tokens, i + 1)]))
  }

  /** Pass 1 over the first `n` lines. */
  function Pass1Upto(kinds: seq<LineKind>, n: nat, debug: bool, inherited: set<string>): Result<Scan, string>
    requires n <= |kinds|
  {
    if n == 0 then Ok(Scan(0, map[], []))
    else
      match Pass1Upto(kinds, n - 1, debug, inherited)
      case Err(name) => Err(name)
      case Ok(s) => Pass1Step(s, kinds[n - 1], n - 1, debug, inherited)
  }

  /** The k-th queued instruction sits at address `Stride * k`, and the address counter is past the last one. */
  lemma {:induction false} Pass1Addresses(kinds: seq<LineKind>, n: nat, debug: bool, inherited: set<string>)
    requires n <= |kinds|
    requires Pass1Upto(kinds, n, debug, inherited).Ok?
    ensures var s := Pass1Upto(kinds, n, debug, inherited).value;
      s.pc == Address(|s.pending|, debug)
      && forall k :: 0 <= k < |s.pending| ==> s.pending[k].pc == Address(k, debug)
  {
    if n > 0 {
      Pass1Addresses(kinds, n - 1, debug, inherited);
      PendingStep(kinds, n, debug, inherited);
    }
  }

  /** Instruction lines among the first `n`. */
  function InstructionsBefore(kinds: seq<LineKind>, n: nat): nat
    requires n <= |kinds|
  {
    if n == 0 then 0
    else InstructionsBefore(kinds, n - 1) + if kinds[n - 1].Instruction? then 1 else 0
  }

  /** The names of the label lines among the first `n`. */
  function LabelsBefore(kinds: seq<LineKind>, n: nat): set<string>
    requires n <= |kinds|
  {
    if n == 0 then {}
    else LabelsBefore(kinds, n - 1) + if kinds[n - 1].Label? then {kinds[n - 1].name} else {}
  }

  /** Two label lines among the first `n` carry the same name. */
  predicate Redefined(kinds: seq<LineKind>, n: nat)
    requires n <= |kinds|
  {
    exists i, j :: 0 <= i < j < n && kinds[i].Label? && kinds[j].Label? && kinds[i].name == kinds[j].name
  }

  /** A label line among the first `n` carries one of the `inherited` names. */
  predicate DefinesInherited(kinds: seq<LineKind>, n: nat, inherited: set<string>)
    requires n <= |kinds|
  {
    exists j :: 0 <= j < n && kinds[j].Label? && kinds[j].name in inherited
  }

  /** Once pass 1 has stopped at a duplicate label, later lines do not change that. */
  lemma {:induction false} Pass1Absorbs(kinds: seq<LineKind>, n: nat, m: nat, debug: bool, inherited: set<string>, name: string)
    requires n <= m <= |kinds|
    requires Pass1Upto(kinds, n, debug, inherited) == Err(name)
    ensures Pass1Upto(kinds, m, debug, inherited) == Err(name)
    decreases m
  {
    if m > n {
      Pass1Absorbs(kinds, n, m - 1, debug, inherited, name);
    }
  }

  /** Pass 1 queues one entry per instruction line. */
  lemma {:induction false} Pass1Count(kinds: seq<LineKind>, n: nat, debug: bool, inherited: set<string>)
    requires n <= |kinds|
    requires Pass1Upto(kinds, n, debug, inherited).Ok?
    ensures |Pass1Upto(kinds, n, debug, inherited).value.pending| == InstructionsBefore(kinds, n)
  {
    if n > 0 {
      Pass1Count(kinds, n - 1, debug, inherited);
    }
  }

  /**
   * The k-th entry of `p` comes from the line with exactly k instruction
   * lines above it, among the first `n`, and carries that line's 1-based
   * number and its tokens.
   */
  predicate QueuedInOrder(kinds: seq<LineKind>, p: seq<Pending>, n: nat)
    requires n <= |kinds|
  {
    forall k :: 0 <= k < |p| ==>
      1 <= p[k].lineNumber <= n
      && kinds[p[k].lineNumber - 1] == Instruction(p[k].tokens)
      && InstructionsBefore(kinds, p[k].lineNumber - 1) == k
  }

  /** The queue pass 1 builds: one entry per instruction line, in line order. */
  lemma {:induction false} Pass1Queue(kinds: seq<LineKind>, n: nat, debug: bool, inherited: set<string>)
    requires n <= |kinds|
    requires Pass1Upto(kinds, n, debug, inherited).Ok?
    ensures var p := Pass1Upto(kinds, n, debug, inherited).value.pending;
      |p| == InstructionsBefore(kinds, n) && QueuedInOrder(kinds, p, n)
  {
    if n > 0 {
      Pass1Queue(kinds, n - 1, debug, inherited);
      PendingStep(kinds, n, debug, inherited);
      var s := Pass1Upto(kinds, n - 1, debug, inherited).value;
      if kinds[n - 1].Instruction? {
        QueueExtend(kinds, s.pending, n, Pending(s.pc, kinds[n - 1].tokens, n));
      } else {
        QueueWiden(kinds, s.pending, n);
      }
    }
  }

  lemma QueueExtend(kinds: seq<LineKind>, q: seq<Pending>, n: nat, e: Pending)
    requires 0 < n <= |kinds|
    requires |q| == InstructionsBefore(kinds, n - 1) && QueuedInOrder(kinds, q, n - 1)
    requires e.lineNumber == n && kinds[n - 1] == Instruction(e.tokens)
    ensures QueuedInOrder(kinds, q + [e], n)
  {
    var p := q + [e];
    forall k | 0 <= k < |p|
      ensures 1 <= p[k].lineNumber <= n
      ensures kinds[p[k].lineNumber - 1] == Instruction(p[k].tokens)
      ensures InstructionsBefore(kinds, p[k].lineNumber - 1) == k
    {
      if k < |q| {
        assert p[k] == q[k];
      }
    }
  }

  lemma QueueWiden(kinds: seq<LineKind>, q: seq<Pending>, n: nat)
    requires 0 < n <= |kinds|
    requires QueuedInOrder(kinds, q, n - 1)
    ensures QueuedInOrder(kinds, q, n)
  {
  }

  /** What one line adds to the queue of pass 1: an entry when it is an instruction, nothing otherwise. */
  lemma PendingStep(kinds: seq<LineKind>, n: nat, debug: bool, inherited: set<string>)
    requires 0 < n <= |kinds|
    requires Pass1Upto(kinds, n, debug, inherited).Ok?
    ensures Pass1Upto(kinds, n - 1, debug, inherited).Ok?
    ensures var s := Pass1Upto(kinds, n - 1, debug, inherited).value;
      Pass1Upto(kinds, n, debug, inherited).value.pending
      == s.pending + if kinds[n - 1].Instruction? then [Pending(s.pc, kinds[n - 1].tokens, n)] else []
  {
  }

  /** Every instruction line has its entry in the queue of pass 1. */
  lemma {:induction false} Pass1QueueComplete(kinds: seq<LineKind>, n: nat, debug: bool, inherited: set<string>)
    requires n <= |kinds|
    requires Pass1Upto(kinds, n, debug, inherited).Ok?
    ensures var p := Pass1Upto(kinds, n, debug, inherited).value.pending;
      |p| == InstructionsBefore(kinds, n)
      && forall i :: 0 <= i < n && kinds[i].Instruction? ==>
           InstructionsBefore(kinds, i) < |p| && p[InstructionsBefore(kinds, i)].lineNumber == i + 1
  {
    if n > 0 {
      Pass1QueueComplete(kinds, n - 1, debug, inherited);
      var s := Pass1Upto(kinds, n - 1, debug, inherited).value;
      var p := Pass1Upto(kinds, n, debug, inherited).value.pending;
      match kinds[n - 1]
      case Blank =>
        assert p == s.pending;
      case Label(name) =>
        assert p == s.pending;
      case Instruction(tokens) =>
        assert p == s.pending + [Pending(s.pc, tokens, n)];
    }
  }

  /**
   * The symbol table pass 1 builds: its keys are exactly the label names, and
   * each label is bound to the address the next instruction line gets, the
   * address of the instruction whose index is the number of instruction lines
   * above the label.
   */
  lemma {:induction false} Pass1Labels(kinds: seq<LineKind>, n: nat, debug: bool, inherited: set<string>)
    requires n <= |kinds|
    requires Pass1Upto(kinds, n, debug, inherited).Ok?
    ensures var s := Pass1Upto(kinds, n, debug, inherited).value;
      s.table.Keys == LabelsBefore(kinds, n)
      && forall i :: 0 <= i < n && kinds[i].Label? ==>
           kinds[i].name in s.table && s.table[kinds[i].name] == Address(InstructionsBefore(kinds, i), debug)
  {
    if n > 0 {
      Pass1Labels(kinds, n - 1, debug, inherited);
      var s := Pass1Upto(kinds, n - 1, debug, inherited).value;
      var t := Pass1Upto(kinds, n, debug, inherited).value;
      match kinds[n - 1]
      case Blank =>
        assert t == s;
      case Instruction(tokens) =>
        assert t.table == s.table;
      case Label(name) =>
        Pass1Count(kinds, n - 1, debug, inherited);
        Pass1Addresses(kinds, n - 1, debug, inherited);
        assert name !in s.table && t.table == s.table[name := s.pc];
        forall i | 0 <= i < n - 1 && kinds[i].Label?
          ensures kinds[i].name in t.table && t.table[kinds[i].name] == Address(InstructionsBefore(kinds, i), debug)
        {
          assert kinds[i].name in s.table;
        }
    }
  }

  /** A name is among the labels of the first `n` lines exactly when one of those lines defines it. */
  lemma {:induction false} InLabelsBefore(kinds: seq<LineKind>, n: nat, name: string)
    requires n <= |kinds|
    ensures name in LabelsBefore(kinds, n) <==> exists i :: 0 <= i < n && kinds[i].Label? && kinds[i].name == name
  {
    if n > 0 {
      InLabelsBefore(kinds, n - 1, name);
    }
  }

  /** A label line redefines a name exactly when an earlier label line defined it. */
  lemma RedefinedStep(kinds: seq<LineKind>, n: nat)
    requires 0 < n <= |kinds|
    ensures Redefined(kinds, n) <==>
      Redefined(kinds, n - 1) || (kinds[n - 1].Label? && kinds[n - 1].name in LabelsBefore(kinds, n - 1))
  {
    InLabelsBefore(kinds, n - 1, if kinds[n - 1].Label? then kinds[n - 1].name else "");
    if Redefined(kinds, n) && !Redefined(kinds, n - 1) {
      var a, b :| 0 <= a < b < n && kinds[a].Label? && kinds[b].Label? && kinds[a].name == kinds[b].name;
      assert b == n - 1;
    }
    if kinds[n - 1].Label? && kinds[n - 1].name in LabelsBefore(kinds, n - 1) {
      var a :| 0 <= a < n - 1 && kinds[a].Label? && kinds[a].name == kinds[n - 1].name;
      assert a < n - 1 < n;
    }
    if Redefined(kinds, n - 1) {
      var a, b :| 0 <= a < b < n - 1 && kinds[a].Label? && kinds[b].Label? && kinds[a].name == kinds[b].name;
      assert b < n;
    }
  }

  lemma InheritedStep(kinds: seq<LineKind>, n: nat, inherited: set<string>)
    requires 0 < n <= |kinds|
    ensures DefinesInherited(kinds, n, inherited) <==>
      DefinesInherited(kinds, n - 1, inherited) || (kinds[n - 1].Label? && kinds[n - 1].name in inherited)
  {
    if DefinesInherited(kinds, n, inherited) && !DefinesInherited(kinds, n - 1, inherited) {
      var c :| 0 <= c < n && kinds[c].Label? && kinds[c].name in inherited;
      assert c == n - 1;
    }
    if DefinesInherited(kinds, n - 1, inherited) {
      var c :| 0 <= c < n - 1 && kinds[c].Label? && kinds[c].name in inherited;
      assert c < n;
    }
  }

  /** Pass 1 stops at a duplicate label exactly when a label is defined twice or takes an inherited name. */
  lemma {:induction false} Pass1FailsIff(kinds: seq<LineKind>, n: nat, debug: bool, inherited: set<string>)
    requires n <= |kinds|
    ensures Pass1Upto(kinds, n, debug, inherited).Err? <==> Redefined(kinds, n) || DefinesInherited(kinds, n, inherited)
  {
    if n > 0 {
      Pass1FailsIff(kinds, n - 1, debug, inherited);
      RedefinedStep(kinds, n);
      InheritedStep(kinds, n, inherited);
      if Pass1Upto(kinds, n - 1, debug, inherited).Ok? {
        Pass1Labels(kinds, n - 1, debug, inherited);
      }
    }
  }

  /**
   * The name pass 1 stops at is that of a label line which repeats an earlier
   * label or takes an inherited name.
   */
  lemma {:induction false} Pass1ErrorName(kinds: seq<LineKind>, n: nat, debug: bool, inherited: set<string>)
    requires n <= |kinds|
    requires Pass1Upto(kinds, n, debug, inherited).Err?
    ensures var name := Pass1Upto(kinds, n, debug, inherited).error;
      exists j :: 0 <= j < n && kinds[j] == Label(name) && (name in inherited || name in LabelsBefore(kinds, j))
  {
    var name := Pass1Upto(kinds, n, debug, inherited).error;
    if Pass1Upto(kinds, n - 1, debug, inherited).Err? {
      Pass1ErrorName(kinds, n - 1, debug, inherited);
      var j :| 0 <= j < n - 1 && kinds[j] == Label(name) && (name in inherited || name in LabelsBefore(kinds, j));
      assert j < n;
    } else {
      Pass1Labels(kinds, n - 1, debug, inherited);
      assert kinds[n - 1] == Label(name);
    }
  }

  /** With the own-key lookup `Assemble` uses, pass 1 fails exactly when some label is defined twice. */
  lemma DuplicateIffRedefined(kinds: seq<LineKind>, debug: bool)
    ensures Pass1Upto(kinds, |kinds|, debug, {}).Err? <==> Redefined(kinds, |kinds|)
  {
    Pass1FailsIff(kinds, |kinds|, debug, {});
  }

  /** A label is bound to the address of the next instruction line below it. */
  lemma LabelBindsNextInstruction(kinds: seq<LineKind>, debug: bool, inherited: set<string>, i: nat, j: nat)
    requires i < j < |kinds|
    requires Pass1Upto(kinds, |kinds|, debug, inherited).Ok?
    requires kinds[i].Label? && kinds[j].Instruction?
    requires InstructionsBefore(kinds, j) == InstructionsBefore(kinds, i)
    ensures var s := Pass1Upto(kinds, |kinds|, debug, inherited).value;
      kinds[i].name in s.table
      && exists k :: 0 <= k < |s.pending| && s.pending[k].lineNumber == j + 1 && s.pending[k].pc == s.table[kinds[i].name]
  {
    Pass1Labels(kinds, |kinds|, debug, inherited);
    Pass1QueueComplete(kinds, |kinds|, debug, inherited);
    Pass1Addresses(kinds, |kinds|, debug, inherited);
    var s := Pass1Upto(kinds, |kinds|, debug, inherited).value;
    var k := InstructionsBefore(kinds, j);
    assert s.pending[k].lineNumber == j + 1;
  }

  // ----------------------------------------------------------------- pass 2

  /** `processInstruction` on a queued instruction. */
  function Outcome(p: Pending, table: map<string, int>): Result<string, AsmError> {
    ProcessInstruction(p.tokens, p.pc, table)
  }

  /** `processInstruction` with the symbol table of pass 1, as a function value for pass 2. */
  function Encoder(table: map<string, int>): Pending -> Result<string, AsmError> {
    p => Outcome(p, table)
  }

  /** The encoder of pass 2 prints machine words. */
  lemma EncoderPrintsWords(table: map<string, int>)
    ensures forall p :: Encoder(table)(p).Ok? ==> IsHexWord(Encoder(table)(p).value)
  {
  }

  /** One iteration of the pass-2 loop. */
  function Emit(p: Pending, enc: Pending -> Result<string, AsmError>, debug: bool): Output {
    match enc(p)
    case Ok(hex) => Output(if debug then [hex, NopWord, NopWord, NopWord] else [hex], [])
    case Err(e) => Output([], [LineError(p.lineNumber, Message(e))])
  }

  /**
   * Pass 2 over the first `k` queued instructions, with `enc` standing for
   * `processInstruction` and the symbol table. Each instruction either logs
   * one diagnostic or contributes `WordsPer` words.
   */
  function Pass2Upto(pending: seq<Pending>, k: nat, enc: Pending -> Result<string, AsmError>, debug: bool): (r: Output)
    requires k <= |pending|
    ensures |r.log| <= k && |r.words| == WordsPer(debug) * (k - |r.log|)
  {
    if k == 0 then Output([], [])
    else
      var o := Pass2Upto(pending, k - 1, enc, debug);
      var e := Emit(pending[k - 1], enc, debug);
      Output(o.words + e.words, o.log + e.log)
  }

  /** Pass 1 over the lines of `input`. */
  function Pass1(input: string, debug: bool, inherited: set<string>): Result<Scan, string> {
    var kinds := Kinds(SplitOn(input, '\n'));
    Pass1Upto(kinds, |kinds|, debug, inherited)
  }

  /** The words and diagnostics `assemble` produces for `input`. */
  function AssembleSpec(input: string, debug: bool, inherited: set<string>): Output {
    match Pass1(input, debug, inherited)
    case Err(name) => Output([], [DuplicateLabel(name)])
    case Ok(s) => Pass2Upto(s.pending, |s.pending|, Encoder(s.table), debug)
  }

  /** Every word `assemble` emits is eight upper-case hexadecimal digits. */
  lemma AssembledWords(input: string, debug: bool)
    ensures forall w :: w in AssembleSpec(input, debug, {}).words ==> IsHexWord(w)
  {
    match Pass1(input, debug, {})
    case Err(_) =>
    case Ok(s) =>
      EncoderPrintsWords(s.table);
      Pass2Words(s.pending, |s.pending|, Encoder(s.table), debug);
  }

  /** Given an encoder that prints machine words, pass 2 emits only machine words. */
  lemma {:induction false} Pass2Words(pending: seq<Pending>, k: nat, enc: Pending -> Result<string, AsmError>, debug: bool)
    requires k <= |pending|
    requires forall p :: enc(p).Ok? ==> IsHexWord(enc(p).value)
    ensures forall w :: w in Pass2Upto(pending, k, enc, debug).words ==> IsHexWord(w)
  {
    if k > 0 {
      Pass2Words(pending, k - 1, enc, debug);
      var e := Emit(pending[k - 1], enc, debug);
      assert forall w :: w in e.words ==> IsHexWord(w) by {
        assert IsHexWord(NopWord);
      }
    }
  }

  /** Every word followed by three NOPs. */
  function Pad(ws: seq<string>): (r: seq<string>)
    ensures |r| == 4 * |ws|
  {
    if |ws| == 0 then [] else [ws[0], NopWord, NopWord, NopWord] + Pad(ws[1..])
  }

  lemma {:induction false} PadAppend(a: seq<string>, b: seq<string>)
    ensures Pad(a + b) == Pad(a) + Pad(b)
  {
    if |a| > 0 {
      PadAppend(a[1..], b);
      assert (a + b)[1..] == a[1..] + b;
    } else {
      assert a + b == b;
    }
  }

  /** Debug mode changes pass 2 only by the three NOPs after every word. */
  lemma {:induction false} DebugPads(pending: seq<Pending>, k: nat, enc: Pending -> Result<string, AsmError>)
    requires k <= |pending|
    ensures Pass2Upto(pending, k, enc, true).words == Pad(Pass2Upto(pending, k, enc, false).words)
    ensures Pass2Upto(pending, k, enc, true).log == Pass2Upto(pending, k, enc, false).log
  {
    if k > 0 {
      DebugPads(pending, k - 1, enc);
      var o := Pass2Upto(pending, k - 1, enc, false);
      var e := Emit(pending[k - 1], enc, false);
      PadAppend(o.words, e.words);
      if enc(pending[k - 1]).Ok? {
        assert Pad(e.words) == [e.words[0], NopWord, NopWord, NopWord] + Pad([]);
      }
    }
  }

  /** The diagnostic pass 2 logs for a queued instruction whose encoding throws. */
  function Failure(p: Pending, enc: Pending -> Result<string, AsmError>): Diagnostic
    requires enc(p).Err?
  {
    LineError(p.lineNumber, Message(enc(p).error))
  }

  /** The diagnostics of the first `k` queued instructions whose encoding throws, in queue order. */
  function Failures(pending: seq<Pending>, k: nat, enc: Pending -> Result<string, AsmError>): seq<Diagnostic>
    requires k <= |pending|
  {
    if k == 0 then []
    else Failures(pending, k - 1, enc) + (if enc(pending[k - 1]).Err? then [Failure(pending[k - 1], enc)] else [])
  }

  /** The log of pass 2 holds exactly the failures, in order, in either mode. */
  lemma {:induction false} Pass2LogIsFailures(pending: seq<Pending>, k: nat, enc: Pending -> Result<string, AsmError>, debug: bool)
    requires k <= |pending|
    ensures Pass2Upto(pending, k, enc, debug).log == Failures(pending, k, enc)
  {
    if k > 0 {
      Pass2LogIsFailures(pending, k - 1, enc, debug);
    }
  }

  /** Every entry of `Failures` comes from an instruction whose encoding throws. */
  lemma {:induction false} FailuresSound(pending: seq<Pending>, k: nat, enc: Pending -> Result<string, AsmError>, j: nat)
    requires k <= |pending| && j < |Failures(pending, k, enc)|
    ensures exists m :: 0 <= m < k && enc(pending[m]).Err? && Failures(pending, k, enc)[j] == Failure(pending[m], enc)
  {
    var before := Failures(pending, k - 1, enc);
    if j < |before| {
      FailuresSound(pending, k - 1, enc, j);
      var m :| 0 <= m < k - 1 && enc(pending[m]).Err? && before[j] == Failure(pending[m], enc);
      assert Failures(pending, k, enc)[j] == before[j];
    } else {
      assert enc(pending[k - 1]).Err? && Failures(pending, k, enc)[j] == Failure(pending[k - 1], enc);
    }
  }

  /** Every instruction whose encoding throws has its entry in `Failures`. */
  lemma {:induction false} FailuresComplete(pending: seq<Pending>, k: nat, enc: Pending -> Result<string, AsmError>, m: nat)
    requires m < k <= |pending| && enc(pending[m]).Err?
    ensures Failure(pending[m], enc) in Failures(pending, k, enc)
  {
    if m < k - 1 {
      FailuresComplete(pending, k - 1, enc, m);
    }
  }

  /** The words of the first `k` queued instructions whose encoding succeeds, in queue order. */
  function Encoded(pending: seq<Pending>, k: nat, enc: Pending -> Result<string, AsmError>): seq<string>
    requires k <= |pending|
  {
    if k == 0 then []
    else Encoded(pending, k - 1, enc) + (if enc(pending[k - 1]).Ok? then [enc(pending[k - 1]).value] else [])
  }

  /**
   * The words of pass 2 are the encoded words of the instructions that
   * succeed, in queue order, each followed by three NOPs in debug mode: a
   * failing instruction drops out and the ones after it still contribute.
   */
  lemma {:induction false} Pass2WordsAreEncoded(pending: seq<Pending>, k: nat, enc: Pending -> Result<string, AsmError>, debug: bool)
    requires k <= |pending|
    ensures Pass2Upto(pending, k, enc, debug).words
         == if debug then Pad(Encoded(pending, k, enc)) else Encoded(pending, k, enc)
  {
    PlainWordsAreEncoded(pending, k, enc);
    if debug {
      DebugPads(pending, k, enc);
    }
  }

  lemma {:induction false} PlainWordsAreEncoded(pending: seq<Pending>, k: nat, enc: Pending -> Result<string, AsmError>)
    requires k <= |pending|
    ensures Pass2Upto(pending, k, enc, false).words == Encoded(pending, k, enc)
  {
    if k > 0 {
      PlainWordsAreEncoded(pending, k - 1, enc);
    }
  }

  /** Every instruction is either encoded or logged. */
  lemma {:induction false} EncodedCount(pending: seq<Pending>, k: nat, enc: Pending -> Result<string, AsmError>)
    requires k <= |pending|
    ensures |Encoded(pending, k, enc)| + |Failures(pending, k, enc)| == k
  {
    if k > 0 {
      EncodedCount(pending, k - 1, enc);
    }
  }

  /**
   * An instruction that encodes has its word in `Encoded`, at the position
   * given by the number of instructions before it that encode.
   */
  lemma {:induction false} EncodedComplete(pending: seq<Pending>, k: nat, enc: Pending -> Result<string, AsmError>, m: nat)
    requires m < k <= |pending| && enc(pending[m]).Ok?
    ensures |Encoded(pending, m, enc)| < |Encoded(pending, k, enc)|
    ensures Encoded(pending, k, enc)[|Encoded(pending, m, enc)|] == enc(pending[m]).value
  {
    if m < k - 1 {
      EncodedComplete(pending, k - 1, enc, m);
      var before := Encoded(pending, k - 1, enc);
      assert Encoded(pending, k, enc)[..|before|] == before;
    }
  }

  /** Every word of `Encoded` is the word of an instruction that encodes, at that instruction's position. */
  lemma {:induction false} EncodedSound(pending: seq<Pending>, k: nat, enc: Pending -> Result<string, AsmError>, i: nat)
    requires k <= |pending| && i < |Encoded(pending, k, enc)|
    ensures exists m :: 0 <= m < k && enc(pending[m]).Ok? && |Encoded(pending, m, enc)| == i
              && Encoded(pending, k, enc)[i] == enc(pending[m]).value
  {
    var before := Encoded(pending, k - 1, enc);
    if i < |before| {
      EncodedSound(pending, k - 1, enc, i);
      var m :| 0 <= m < k - 1 && enc(pending[m]).Ok? && |Encoded(pending, m, enc)| == i
               && before[i] == enc(pending[m]).value;
      assert Encoded(pending, k, enc)[i] == before[i];
    } else {
      assert enc(pending[k - 1]).Ok? && Encoded(pending, k, enc)[i] == enc(pending[k - 1]).value;
    }
  }

  /** Word `i` of a padded sequence sits at `4 * i`, and the three after it are NOPs. */
  lemma {:induction false} PadAt(ws: seq<string>, i: nat)
    requires i < |ws|
    ensures Pad(ws)[4 * i] == ws[i]
    ensures Pad(ws)[4 * i + 1] == NopWord && Pad(ws)[4 * i + 2] == NopWord && Pad(ws)[4 * i + 3] == NopWord
  {
    if i > 0 {
      PadAt(ws[1..], i - 1);
      assert Pad(ws) == [ws[0], NopWord, NopWord, NopWord] + Pad(ws[1..]);
    }
  }

  /** A padded sequence holds the words it pads and NOPs, nothing else. */
  lemma {:induction false} PadMembers(ws: seq<string>, w: string)
    requires w in Pad(ws)
    ensures w == NopWord || w in ws
  {
    if |ws| > 0 && w != NopWord {
      assert Pad(ws) == [ws[0], NopWord, NopWord, NopWord] + Pad(ws[1..]);
      if w != ws[0] {
        PadMembers(ws[1..], w);
      }
    }
  }

  /**
   * In either mode, the word of an instruction that encodes sits in pass 2's
   * output at the index of the successes before it (times 4 in debug mode),
   * whatever failed earlier.
   */
  lemma Pass2Order(pending: seq<Pending>, k: nat, enc: Pending -> Result<string, AsmError>, debug: bool, m: nat)
    requires m < k <= |pending| && enc(pending[m]).Ok?
    ensures var w := Pass2Upto(pending, k, enc, debug).words;
      WordIndex(|Encoded(pending, m, enc)|, debug) < |w|
      && w[WordIndex(|Encoded(pending, m, enc)|, debug)] == enc(pending[m]).value
  {
    Pass2WordsAreEncoded(pending, k, enc, debug);
    EncodedComplete(pending, k, enc, m);
    if debug {
      PadAt(Encoded(pending, k, enc), |Encoded(pending, m, enc)|);
    }
  }

  /** Every word pass 2 emits is the word of some queued instruction, or a NOP. */
  lemma Pass2Sources(pending: seq<Pending>, k: nat, enc: Pending -> Result<string, AsmError>, debug: bool, w: string)
    requires k <= |pending| && w in Pass2Upto(pending, k, enc, debug).words
    ensures w == NopWord || exists m :: 0 <= m < k && enc(pending[m]) == Ok(w)
  {
    Pass2WordsAreEncoded(pending, k, enc, debug);
    var e := Encoded(pending, k, enc);
    if debug {
      PadMembers(e, w);
    }
    if w != NopWord {
      var i :| 0 <= i < |e| && e[i] == w;
      EncodedSound(pending, k, enc, i);
    }
  }

  /**
   * When no instruction fails, every instruction has a word, and the word of
   * the m-th instruction sits at index `WordIndex(m)`.
   */
  lemma {:induction false} Pass2AllEncode(pending: seq<Pending>, k: nat, enc: Pending -> Result<string, AsmError>, debug: bool)
    requires k <= |pending|
    requires Pass2Upto(pending, k, enc, debug).log == []
    ensures var w := Pass2Upto(pending, k, enc, debug).words;
      |w| == WordIndex(k, debug)
      && forall m :: 0 <= m < k ==> enc(pending[m]) == Ok(w[WordIndex(m, debug)])
  {
    if k > 0 {
      var o := Pass2Upto(pending, k - 1, enc, debug);
      assert o.log == [];
      Pass2AllEncode(pending, k - 1, enc, debug);
      assert enc(pending[k - 1]).Ok?;
      var w := Pass2Upto(pending, k, enc, debug).words;
      assert w[..|o.words|] == o.words;
      forall m | 0 <= m < k - 1
        ensures enc(pending[m]) == Ok(w[WordIndex(m, debug)])
      {
        assert WordIndex(m, debug) < |o.words|;
        assert w[WordIndex(m, debug)] == o.words[WordIndex(m, debug)];
      }
    }
  }

  /** Instruction k of pass 1 has word index k, or 4k in debug mode: its byte address over 4. */
  lemma AddressWord(k: int, debug: bool)
    ensures Address(k, debug) % 4 == 0 && Address(k, debug) / 4 == WordIndex(k, debug)
  {
  }

  /**
   * The memory image pass 2 builds from the queue of pass 1 when nothing
   * fails: it has as many bytes as the final address of pass 1, and the word
   * of every instruction sits at that instruction's own address (word index
   * `pc / 4`) in both modes.
   */
  lemma {:induction false} Layout(kinds: seq<LineKind>, debug: bool, enc: Pending -> Result<string, AsmError>)
    requires Pass1Upto(kinds, |kinds|, debug, {}).Ok?
    requires var s := Pass1Upto(kinds, |kinds|, debug, {}).value;
      Pass2Upto(s.pending, |s.pending|, enc, debug).log == []
    ensures var s := Pass1Upto(kinds, |kinds|, debug, {}).value;
      var w := Pass2Upto(s.pending, |s.pending|, enc, debug).words;
      4 * |w| == s.pc
      && forall k :: 0 <= k < |s.pending| ==>
           s.pending[k].pc % 4 == 0 && 0 <= s.pending[k].pc / 4 < |w| && enc(s.pending[k]) == Ok(w[s.pending[k].pc / 4])
  {
    var s := Pass1Upto(kinds, |kinds|, debug, {}).value;
    Pass1Addresses(kinds, |kinds|, debug, {});
    Pass2AllEncode(s.pending, |s.pending|, enc, debug);
    AddressWord(|s.pending|, debug);
    forall k | 0 <= k < |s.pending|
      ensures s.pending[k].pc % 4 == 0 && s.pending[k].pc / 4 == WordIndex(k, debug) < WordIndex(|s.pending|, debug)
    {
      AddressWord(k, debug);
    }
  }

  /**
   * The memory image of a program that assembles without diagnostics: every
   * instruction's word sits at that instruction's own address, which is why
   * branch offsets computed from pass-1 addresses also hold in debug mode.
   */
  lemma AssembledLayout(input: string, debug: bool)
    requires Pass1(input, debug, {}).Ok?
    requires AssembleSpec(input, debug, {}).log == []
    ensures var s := Pass1(input, debug, {}).value;
      var w := AssembleSpec(input, debug, {}).words;
      4 * |w| == s.pc
      && forall k :: 0 <= k < |s.pending| ==>
           s.pending[k].pc % 4 == 0 && 0 <= s.pending[k].pc / 4 < |w| && Outcome(s.pending[k], s.table) == Ok(w[s.pending[k].pc / 4])
  {
    var kinds := Kinds(SplitOn(input, '\n'));
    var s := Pass1Upto(kinds, |kinds|, debug, {}).value;
    Layout(kinds, debug, Encoder(s.table));
  }

  // ----------------------------------------------------- inherited names

  /** Cleaning leaves a line alone when it has no comment marker and no surrounding white space. */
  lemma CleanUnchanged(raw: string)
    requires '#' !in raw && '/' !in raw
    requires raw != "" && !IsWhitespace(raw[0]) && !IsWhitespace(raw[|raw| - 1])
    ensures Clean(raw) == raw
  {
    BeforeFirstAbsent(raw, "#");
    BeforeFirstAbsent(raw, "//");
  }

  /** A cleaned line ending in a colon is the label before the colon. */
  lemma ClassifyLabel(raw: string, line: string)
    requires line == Clean(raw) && EndsWithChar(line, ':')
    ensures Classify(raw) == Label(line[..|line| - 1])
  {
  }

  /** The one-line program `toString:` and what pass 1 makes of it. */
  lemma PrototypeLabelLine(input: string)
    requires input == "toString:"
    ensures Kinds(SplitOn(input, '\n')) == [Label("toString")]
  {
    OneLineKinds(input);
    PrototypeLabelKind(input);
  }

  /** A program without a newline is a single line. */
  lemma OneLineKinds(line: string)
    requires '\n' !in line
    ensures Kinds(SplitOn(line, '\n')) == [Classify(line)]
  {
    SplitNoSeparator(line, '\n');
    KindsOfOne(SplitOn(line, '\n'));
  }

  lemma KindsOfOne(lines: seq<string>)
    requires |lines| == 1
    ensures Kinds(lines) == [Classify(lines[0])]
  {
    var k := Kinds(lines);
    var c := Classify(lines[0]);
    assert |k| == 1 && k[0] == c;
    SingletonSeq(k, c);
  }

  lemma SingletonSeq<T>(s: seq<T>, x: T)
    requires |s| == 1 && s[0] == x
    ensures s == [x]
  {
  }

  lemma PrototypeLabelKind(line: string)
    requires line == "toString:"
    ensures Classify(line) == Label("toString")
  {
    CleanUnchanged(line);
    ClassifyLabel(line, line);
    assert line[..|line| - 1] == "toString";
  }

  /**
   * A label named after a property of `Object.prototype` is reported as a
   * duplicate on its first definition, although no label is defined twice;
   * without the inherited names the same program assembles to nothing.
   */
  lemma PrototypeLabelRejected(input: string, debug: bool)
    requires input == "toString:"
    ensures !Redefined(Kinds(SplitOn(input, '\n')), 1)
    ensures AssembleSpec(input, debug, ObjectPrototypeNames()) == Output([], [DuplicateLabel("toString")])
    ensures AssembleSpec(input, debug, {}) == Output([], [])
  {
    PrototypeLabelLine(input);
    var kinds := Kinds(SplitOn(input, '\n'));
    assert Pass1Upto(kinds, 1, debug, ObjectPrototypeNames()) == Err("toString");
    assert Pass1Upto(kinds, 1, debug, {}) == Ok(Scan(0, map["toString" := 0], []));
  }

  // ------------------------------------------------------------- the method

  /** One iteration of the pass-1 loop applies `Pass1Step` to the line's kind. */
  lemma Pass1Next(kinds: seq<LineKind>, i: nat, debug: bool, s: Scan)
    requires i < |kinds| && Pass1Upto(kinds, i, debug, {}) == Ok(s)
    ensures Pass1Upto(kinds, i + 1, debug, {}) == Pass1Step(s, kinds[i], i, debug, {})
  {
  }

  /** What one iteration of the pass-2 loop does, in the terms of the loop body. */
  lemma Pass2Next(pending: seq<Pending>, k: nat, enc: Pending -> Result<string, AsmError>, debug: bool)
    requires k < |pending|
    ensures var o := Pass2Upto(pending, k, enc, debug);
      var next := Pass2Upto(pending, k + 1, enc, debug);
      var r := enc(pending[k]);
      (r.Ok? && !debug ==> next == Output(o.words + [r.value], o.log))
      && (r.Ok? && debug ==> next == Output(o.words + [r.value] + [NopWord] + [NopWord] + [NopWord], o.log))
      && (r.Err? ==> next == Output(o.words, o.log + [LineError(pending[k].lineNumber, Message(r.error))]))
  {
    var o := Pass2Upto(pending, k, enc, debug);
    var r := enc(pending[k]);
    if r.Ok? && debug {
      assert o.words + [r.value] + [NopWord] + [NopWord] + [NopWord] == o.words + [r.value, NopWord, NopWord, NopWord];
    }
  }

  /**
   * The pass-1 loop of `assemble()` over the classified lines: the symbol
   * table and the queued instructions, or `Err(name)` where the loop logs a
   * duplicate label and returns.
   */
  method ScanSymbols(kinds: seq<LineKind>, debug: bool) returns (r: Result<Scan, string>)
    ensures r == Pass1Upto(kinds, |kinds|, debug, {})
  {
    var symbolTable: map<string, int> := map[];
    var cleanedLines: seq<Pending> := [];
    var pc := 0;
    var i := 0;
    while i < |kinds|
      invariant 0 <= i <= |kinds|
      invariant Pass1Upto(kinds, i, debug, {}) == Ok(Scan(pc, symbolTable, cleanedLines))
    {
      Pass1Next(kinds, i, debug, Scan(pc, symbolTable, cleanedLines));
      match kinds[i] {
        case Blank =>
        case Label(labelName) =>
          if labelName in symbolTable {
            Pass1Absorbs(kinds, i + 1, |kinds|, debug, {}, labelName);
            return Err(labelName);
          }
          symbolTable := symbolTable[labelName := pc];
        case Instruction(tokens) =>
          cleanedLines := cleanedLines + [Pending(pc, tokens, i + 1)];
          pc := pc + 4;
          if debug {
            pc := pc + 12;
          }
      }
      i := i + 1;
    }
    return Ok(Scan(pc, symbolTable, cleanedLines));
  }

  /**
   * The pass-2 loop of `assemble()`: encodes every queued instruction with
   * `encode` (which `Assemble` binds to `processInstruction` and the symbol
   * table), appending its word (and three NOPs in debug mode) or, where the
   * encoding throws, a diagnostic.
   */
  method Generate(cleanedLines: seq<Pending>, encode: Pending -> Result<string, AsmError>, debug: bool)
    returns (machineCode: seq<string>, log: seq<Diagnostic>)
    ensures Output(machineCode, log) == Pass2Upto(cleanedLines, |cleanedLines|, encode, debug)
  {
    machineCode, log := [], [];
    var k := 0;
    while k < |cleanedLines|
      invariant 0 <= k <= |cleanedLines|
      invariant Pass2Upto(cleanedLines, k, encode, debug) == Output(machineCode, log)
    {
      var instr := cleanedLines[k];
      Pass2Next(cleanedLines, k, encode, debug);
      var result := encode(instr);
      match result {
        case Ok(hex) =>
          machineCode := machineCode + [hex];
          if debug {
            machineCode := machineCode + [NopWord];
            machineCode := machineCode + [NopWord];
            machineCode := machineCode + [NopWord];
          }
        case Err(e) =>
          log := log + [LineError(instr.lineNumber, Message(e))];
      }
      k := k + 1;
    }
  }

  /**
   * `assemble()`: the text of the output area (the words joined by newlines)
   * and the messages of the log area. A duplicate label stops before pass 2
   * and leaves the output area empty.
   */
  method Assemble(input: string, debug: bool) returns (hexOutput: string, log: seq<Diagnostic>)
    ensures var o := AssembleSpec(input, debug, {});
      hexOutput == JoinWith(o.words, '\n') && log == o.log
  {
    var lines := SplitOn(input, '\n');
    var scan := ScanSymbols(Kinds(lines), debug);
    match scan {
      case Err(labelName) =>
        hexOutput, log := "", [DuplicateLabel(labelName)];
      case Ok(s) =>
        var machineCode;
        machineCode, log := Generate(s.pending, Encoder(s.table), debug);
        hexOutput := JoinWith(machineCode, '\n');
    }
  }
}
