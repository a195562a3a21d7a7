/**
 * The export step of the assembler: the `hex` download is the text of the
 * output box as it stands, and the `mif` download wraps its lines in a
 * Memory Initialization File, one `address : word;` entry per non-blank
 * line, where the address is the line's index in hexadecimal.
 */
module Mif {
  import opened Wrappers
  import opened Text
  import opened JsNumber
  import opened Assembler

  /** The fixed MIF header: 256 words of 32 bits, addresses and data in hexadecimal. */
  const Header: string := "DEPTH = 256;\nWIDTH = 32;\nADDRESS_RADIX = HEX;\nDATA_RADIX = HEX;\nCONTENT\nBEGIN\n"

  const Footer: string := "END;\n"

  /** What a download produces: nothing (the "Assemble first!" alert), or a file's content and name. */
  datatype Download = Alert | File(content: string, filename: string)

  /** The address of line `index`: `index.toString(16).toUpperCase()`. */
  function LineAddress(index: nat): string {
    ToUpper(NatToHex(index))
  }

  /** The MIF entry of line `index`: `ADDR : line;` and a newline. */
  function Entry(index: nat, line: string): string {
    LineAddress(index) + " : " + line + ";\n"
  }

  /**
   * `line.trim() === ""`: the line is all white space. `Trim` is empty exactly
   * then, which `BlankIsTrimEmpty` restates in these terms.
   */
  predicate Blank(line: string) {
    forall k :: 0 <= k < |line| ==> IsWhitespace(line[k])
  }

  lemma BlankIsTrimEmpty(line: string)
    ensures Blank(line) <==> Trim(line) == ""
  {
  }

  /** The entries of the first `n` lines; a blank line gets none, but its index is still used up. */
  function Entries(lines: seq<string>, n: nat): string
    requires n <= |lines|
  {
    if n == 0 then ""
    else Entries(lines, n - 1) + if Blank(lines[n - 1]) then "" else Entry(n - 1, lines[n - 1])
  }

  /** The reference listing: every one of the first `n` words at its own index, none skipped. */
  function Listing(words: seq<string>, n: nat): string
    requires n <= |words|
  {
    if n == 0 then "" else Listing(words, n - 1) + Entry(n - 1, words[n - 1])
  }

  /** The MIF text of the output box `rawHex`; `None` when the box is empty. */
  function MifText(rawHex: string): Option<string> {
    if rawHex == "" then None
    else
      var lines := SplitOn(rawHex, '\n');
      Some(Header + Entries(lines, |lines|) + Footer)
  }

  /** The entry-building loop of the `mif` download. */
  method BuildMif(rawHex: string) returns (content: string)
    requires rawHex != ""
    ensures Some(content) == MifText(rawHex)
  {
    var lines := SplitOn(rawHex, '\n');
    content := Header;
    var index := 0;
    while index < |lines|
      invariant 0 <= index <= |lines|
      invariant content == Header + Entries(lines, index)
    {
      var line := lines[index];
      BlankIsTrimEmpty(line);
      if Trim(line) != "" {
        var addr := ToUpper(NatToHex(index));
        EntriesNext(lines, index, Header, addr + " : " + line + ";\n");
        content := content + (addr + " : " + line + ";\n");
      } else {
        assert Entries(lines, index + 1) == Entries(lines, index) + "";
      }
      index := index + 1;
    }
    content := content + Footer;
  }

  lemma EntriesNext(lines: seq<string>, index: nat, head: string, entry: string)
    requires index < |lines| && !Blank(lines[index]) && entry == Entry(index, lines[index])
    ensures head + Entries(lines, index + 1) == head + Entries(lines, index) + entry
  {
  }

  /**
   * `downloadFile(type)`, up to the point where the file is handed to the
   * browser: an empty output box raises the alert, `hex` offers the box as it
   * stands, `mif` its MIF text, and any other type an empty unnamed file.
   */
  method DownloadFile(kind: string, rawHex: string) returns (d: Download)
    ensures rawHex == "" <==> d == Alert
    ensures rawHex != "" && kind == "hex" ==> d == File(rawHex, "program.hex")
    ensures rawHex != "" && kind == "mif" ==> MifText(rawHex).Some? && d == File(MifText(rawHex).value, "program.mif")
    ensures rawHex != "" && kind != "hex" && kind != "mif" ==> d == File("", "")
  {
    if rawHex == "" {
      return Alert;
    }
    var content := "";
    var filename := "";
    if kind == "hex" {
      content := rawHex;
      filename := "program.hex";
    } else if kind == "mif" {
      content := BuildMif(rawHex);
      filename := "program.mif";
    }
    return File(content, filename);
  }

  /** An address is upper-case hexadecimal and denotes its index. */
  lemma AddressValue(index: nat)
    ensures AllDigits(LineAddress(index), 16) && DigitsValue(LineAddress(index), 16) == index
    ensures forall k :: 0 <= k < |LineAddress(index)| ==> !('a' <= LineAddress(index)[k] <= 'z')
  {
    HexValue(index);
    UpperValue(NatToHex(index));
  }

  /** Lines that are all non-blank each get their entry, at their own index. */
  lemma {:induction false} EntriesOfWords(words: seq<string>, n: nat)
    requires n <= |words|
    requires forall k :: 0 <= k < n ==> !Blank(words[k])
    ensures Entries(words, n) == Listing(words, n)
  {
    if n > 0 {
      EntriesOfWords(words, n - 1);
    }
  }

  /** The entries of lines `i` to `n - 1`, each at its own index. */
  function EntriesBetween(lines: seq<string>, i: nat, n: nat): string
    requires i <= n <= |lines|
    decreases n - i
  {
    if i == n then "" else LineEntry(lines, i) + EntriesBetween(lines, i + 1, n)
  }

  /** The entry of line `i` at its own index, or nothing for a blank line. */
  function LineEntry(lines: seq<string>, i: nat): string
    requires i < |lines|
  {
    if Blank(lines[i]) then "" else Entry(i, lines[i])
  }

  /** The entries of the first `n` lines are those before line `i` followed by those from line `i` on. */
  lemma {:induction false} EntriesSplit(lines: seq<string>, i: nat, n: nat)
    requires i <= n <= |lines|
    ensures Entries(lines, n) == Entries(lines, i) + EntriesBetween(lines, i, n)
    decreases n - i
  {
    if i < n {
      EntriesSplit(lines, i + 1, n);
      assert Entries(lines, i + 1) == Entries(lines, i) + LineEntry(lines, i);
      ConcatAssociates(Entries(lines, i), LineEntry(lines, i), EntriesBetween(lines, i + 1, n));
    }
  }

  lemma ConcatAssociates(a: string, b: string, c: string)
    ensures (a + b) + c == a + (b + c)
  {
  }

  /**
   * A blank line contributes nothing: the image is the entries of the lines
   * before it followed by those of the lines after it, at their own indices;
   * equally, it may be replaced by an empty line.
   */
  lemma {:induction false} EntriesSkipBlank(lines: seq<string>, j: nat, n: nat)
    requires j < n <= |lines| && Blank(lines[j])
    ensures Entries(lines, n) == Entries(lines, j) + EntriesBetween(lines, j + 1, n)
    ensures Entries(lines, n) == Entries(lines[j := ""], n)
  {
    BlankDropped(lines, j, n);
    BlankReplaced(lines, j, n);
  }

  lemma BlankDropped(lines: seq<string>, j: nat, n: nat)
    requires j < n <= |lines| && Blank(lines[j])
    ensures Entries(lines, n) == Entries(lines, j) + EntriesBetween(lines, j + 1, n)
  {
    EntriesSplit(lines, j, n);
    BetweenSkipsBlank(lines, j, n);
  }

  lemma BetweenSkipsBlank(lines: seq<string>, j: nat, n: nat)
    requires j < n <= |lines| && Blank(lines[j])
    ensures EntriesBetween(lines, j, n) == EntriesBetween(lines, j + 1, n)
  {
    var rest := EntriesBetween(lines, j + 1, n);
    assert "" + rest == rest;
  }

  lemma {:induction false} BlankReplaced(lines: seq<string>, j: nat, n: nat)
    requires j < n <= |lines| && Blank(lines[j])
    ensures Entries(lines, n) == Entries(lines[j := ""], n)
  {
    if n - 1 > j {
      BlankReplaced(lines, j, n - 1);
    } else {
      assert Entries(lines, j) == Entries(lines[j := ""], j) by {
        EntriesPrefix(lines, lines[j := ""], j);
      }
    }
  }

  /** The entries of the first `n` lines depend on those lines only. */
  lemma {:induction false} EntriesPrefix(a: seq<string>, b: seq<string>, n: nat)
    requires n <= |a| && n <= |b| && a[..n] == b[..n]
    ensures Entries(a, n) == Entries(b, n)
  {
    if n > 0 {
      assert a[n - 1] == a[..n][n - 1] == b[..n][n - 1] == b[n - 1];
      assert a[..n - 1] == a[..n][..n - 1];
      assert b[..n - 1] == b[..n][..n - 1];
      EntriesPrefix(a, b, n - 1);
    }
  }

  /** A machine word is not blank and holds no line break. */
  lemma HexWordPlain(w: string)
    requires IsHexWord(w)
    ensures !Blank(w) && '\n' !in w
  {
    assert !IsWhitespace(w[0]);
    assert forall k :: 0 <= k < |w| ==> w[k] != '\n';
  }

  /**
   * The MIF file of a program's output: empty output raises the alert, and
   * otherwise every emitted word is listed at its own word index, debug NOPs
   * included, between the header and the footer.
   */
  lemma MifOfAssembly(input: string, debug: bool)
    ensures var words := AssembleSpec(input, debug, {}).words;
      MifText(JoinWith(words, '\n')) == if |words| == 0 then None else Some(Header + Listing(words, |words|) + Footer)
  {
    var words := AssembleSpec(input, debug, {}).words;
    AssembledWords(input, debug);
    if |words| > 0 {
      forall k | 0 <= k < |words|
        ensures !Blank(words[k]) && '\n' !in words[k]
      {
        HexWordPlain(words[k]);
      }
      SplitJoin(words, '\n');
      JoinNonEmpty(words);
      EntriesOfWords(words, |words|);
    }
  }

  /** Joining at least one non-blank word gives non-empty text. */
  lemma JoinNonEmpty(words: seq<string>)
    requires |words| >= 1 && !Blank(words[0])
    ensures JoinWith(words, '\n') != ""
  {
    if |words| > 1 {
      assert JoinWith(words, '\n') == words[0] + ['\n'] + JoinWith(words[1..], '\n');
    }
  }
}
