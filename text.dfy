/**
 * The JavaScript string built-ins the assembler relies on: `trim`, `split`
 * with a string or a whitespace-run separator, `replace(/,/g, ' ')`,
 * `endsWith`, `join` and the case conversions. Strings are sequences of
 * characters; the JavaScript white-space class (used by `trim`, by `\s` in
 * regular expressions and by `parseInt`) is `IsWhitespace`.
 */
module Text {

  /** WhiteSpace and LineTerminator code points of ECMA-262 (sections 12.2 and 12.3). */
  predicate IsWhitespace(c: char) {
    c == '\t' || c == '\n' || c == '\U{B}' || c == '\U{C}' || c == '\r' || c == ' '
    || c == '\U{A0}' || c == '\U{1680}' || ('\U{2000}' <= c <= '\U{200A}')
    || c == '\U{2028}' || c == '\U{2029}' || c == '\U{202F}' || c == '\U{205F}'
    || c == '\U{3000}' || c == '\U{FEFF}'
  }

  predicate NoWhitespace(s: string) {
    forall k :: 0 <= k < |s| ==> !IsWhitespace(s[k])
  }

  predicate AllWhitespace(s: string) {
    forall k :: 0 <= k < |s| ==> IsWhitespace(s[k])
  }

  /** `String.prototype.trimStart`: drops the leading white-space run. */
  function TrimStart(s: string): (r: string)
    ensures |r| <= |s| && r == s[|s| - |r|..]
    ensures forall k :: 0 <= k < |s| - |r| ==> IsWhitespace(s[k])
    ensures r == [] || !IsWhitespace(r[0])
  {
    if |s| > 0 && IsWhitespace(s[0]) then TrimStart(s[1..]) else s
  }

  /** `String.prototype.trimEnd`: drops the trailing white-space run. */
  function TrimEnd(s: string): (r: string)
    ensures |r| <= |s| && r == s[..|r|]
    ensures forall k :: |r| <= k < |s| ==> IsWhitespace(s[k])
    ensures r == [] || !IsWhitespace(r[|r| - 1])
  {
    if |s| > 0 && IsWhitespace(s[|s| - 1]) then TrimEnd(s[..|s| - 1]) else s
  }

  /** `String.prototype.trim`. */
  function Trim(s: string): (r: string)
    ensures r == [] || (!IsWhitespace(r[0]) && !IsWhitespace(r[|r| - 1]))
    ensures r == [] <==> forall k :: 0 <= k < |s| ==> IsWhitespace(s[k])
  {
    TrimEnd(TrimStart(s))
  }

  /**
   * `trim` keeps the text between the leading and the trailing white-space
   * run intact: `s` is a run, the result and a run, in that order.
   */
  lemma TrimContent(s: string)
    ensures exists i :: 0 <= i && i + |Trim(s)| <= |s| && s == s[..i] + Trim(s) + s[i + |Trim(s)|..]
              && AllWhitespace(s[..i]) && AllWhitespace(s[i + |Trim(s)|..])
  {
    var t := TrimStart(s);
    var i := |s| - |t|;
    var r := TrimEnd(t);
    assert r == Trim(s);
    TrimParts(s, t, r, i);
    assert 0 <= i && i + |r| <= |s| && s == s[..i] + r + s[i + |r|..]
      && AllWhitespace(s[..i]) && AllWhitespace(s[i + |r|..]);
  }

  lemma TrimParts(s: string, t: string, r: string, i: int)
    requires i == |s| - |t| && 0 <= i && t == s[i..] && forall k :: 0 <= k < i ==> IsWhitespace(s[k])
    requires |r| <= |t| && r == t[..|r|] && forall k :: |r| <= k < |t| ==> IsWhitespace(t[k])
    ensures 0 <= i && i + |r| <= |s| && s == s[..i] + r + s[i + |r|..]
    ensures AllWhitespace(s[..i]) && AllWhitespace(s[i + |r|..])
  {
    var lead, tail := s[..i], t[|r|..];
    assert s == lead + t;
    assert t == r + tail;
    assert AllWhitespace(lead) by {
      forall k | 0 <= k < |lead| ensures IsWhitespace(lead[k]) {
        assert lead[k] == s[k];
      }
    }
    assert AllWhitespace(tail) by {
      forall k | 0 <= k < |tail| ensures IsWhitespace(tail[k]) {
        assert tail[k] == t[|r| + k];
      }
    }
    assert tail == s[i + |r|..];
  }

  /** Text with no white space at either end is its own `trim`. */
  lemma TrimNoop(s: string)
    requires s == [] || (!IsWhitespace(s[0]) && !IsWhitespace(s[|s| - 1]))
    ensures Trim(s) == s
  {
  }

  /** True when `sep` occurs in `s` starting at index `k`. */
  predicate OccursAt(s: string, sep: string, k: nat) {
    k + |sep| <= |s| && s[k..k + |sep|] == sep
  }

  /** `s.split(sep)[0]`: the text before the first occurrence of `sep`. */
  function BeforeFirst(s: string, sep: string): (r: string)
    requires |sep| > 0
    ensures |r| <= |s| && r == s[..|r|]
    ensures forall k :: 0 <= k < |r| ==> !OccursAt(s, sep, k)
    ensures |r| == |s| || OccursAt(s, sep, |r|)
  {
    if OccursAt(s, sep, 0) then ""
    else if |s| == 0 then ""
    else
      var rest := BeforeFirst(s[1..], sep);
      assert forall k :: 1 <= k <= |s| ==> (OccursAt(s, sep, k) <==> OccursAt(s[1..], sep, k - 1));
      [s[0]] + rest
  }

  /** A string in which the separator's first character never occurs is its own first field. */
  lemma {:induction false} BeforeFirstAbsent(s: string, sep: string)
    requires |sep| > 0 && sep[0] !in s
    ensures BeforeFirst(s, sep) == s
  {
    if |s| > 0 {
      assert !OccursAt(s, sep, 0) by {
        if |sep| <= |s| {
          assert s[..|sep|][0] == s[0];
        }
      }
      BeforeFirstAbsent(s[1..], sep);
      assert [s[0]] + s[1..] == s;
    }
  }

  /** Text free of the separator's first character passes through to the first field. */
  lemma {:induction false} BeforeFirstSkip(a: string, b: string, sep: string)
    requires |sep| > 0 && sep[0] !in a
    ensures BeforeFirst(a + b, sep) == a + BeforeFirst(b, sep)
  {
    if |a| > 0 {
      var s := a + b;
      assert !OccursAt(s, sep, 0) by {
        if |sep| <= |s| {
          assert s[..|sep|][0] == s[0];
        }
      }
      assert s[1..] == a[1..] + b;
      BeforeFirstSkip(a[1..], b, sep);
      assert [a[0]] + (a[1..] + BeforeFirst(b, sep)) == a + BeforeFirst(b, sep);
    } else {
      assert a + b == b;
    }
  }

  /** The first field ends at the first occurrence of the separator. */
  lemma BeforeFirstAt(a: string, b: string, sep: string)
    requires |sep| > 0 && sep[0] !in a
    ensures BeforeFirst(a + sep + b, sep) == a
  {
    BeforeFirstSkip(a, sep + b, sep);
    assert a + sep + b == a + (sep + b);
    assert OccursAt(sep + b, sep, 0) by {
      assert (sep + b)[..|sep|] == sep;
    }
  }

  /** `ws.join(c)`. */
  function JoinWith(ws: seq<string>, c: char): string {
    if |ws| == 0 then ""
    else if |ws| == 1 then ws[0]
    else ws[0] + [c] + JoinWith(ws[1..], c)
  }

  /** `s.split(c)` for a one-character separator: the fields between the separators. */
  function SplitOn(s: string, c: char): (r: seq<string>)
    ensures |r| >= 1
    ensures forall k :: 0 <= k < |r| ==> c !in r[k]
    ensures JoinWith(r, c) == s
  {
    if |s| == 0 then [""]
    else if s[0] == c then [""] + SplitOn(s[1..], c)
    else
      var rest := SplitOn(s[1..], c);
      [[s[0]] + rest[0]] + rest[1..]
  }

  /** Splitting a join gives the fields back, as long as no field holds the separator. */
  lemma {:induction false} SplitJoin(ws: seq<string>, c: char)
    requires |ws| >= 1
    requires forall k :: 0 <= k < |ws| ==> c !in ws[k]
    ensures SplitOn(JoinWith(ws, c), c) == ws
  {
    if |ws| == 1 {
      SplitNoSeparator(ws[0], c);
    } else {
      SplitJoin(ws[1..], c);
      SplitAround(ws[0], JoinWith(ws[1..], c), c);
    }
  }

  lemma {:induction false} SplitNoSeparator(s: string, c: char)
    requires c !in s
    ensures SplitOn(s, c) == [s]
  {
    if |s| > 0 {
      SplitNoSeparator(s[1..], c);
      assert [s[0]] + s[1..] == s;
    }
  }

  lemma {:induction false} SplitAround(a: string, b: string, c: char)
    requires c !in a
    ensures SplitOn(a + [c] + b, c) == [a] + SplitOn(b, c)
  {
    if |a| == 0 {
      assert a + [c] + b == [c] + b;
      assert ([c] + b)[1..] == b;
    } else {
      var s := a + [c] + b;
      assert s[0] == a[0] && s[1..] == a[1..] + [c] + b;
      SplitAround(a[1..], b, c);
      var rest := SplitOn(s[1..], c);
      assert rest[0] == a[1..] && rest[1..] == SplitOn(b, c);
      assert [a[0]] + a[1..] == a;
    }
  }

  /** The concatenation of the strings of `ws`. */
  function Concat(ws: seq<string>): string {
    if |ws| == 0 then "" else ws[0] + Concat(ws[1..])
  }

  /** The characters of `s` that are not white space, in order. */
  function RemoveWhitespace(s: string): string {
    if |s| == 0 then ""
    else if IsWhitespace(s[0]) then RemoveWhitespace(s[1..])
    else [s[0]] + RemoveWhitespace(s[1..])
  }

  lemma {:induction false} RemoveWhitespaceOfRun(s: string)
    requires forall k :: 0 <= k < |s| ==> IsWhitespace(s[k])
    ensures RemoveWhitespace(s) == ""
  {
    if |s| > 0 { RemoveWhitespaceOfRun(s[1..]); }
  }

  lemma {:induction false} RemoveWhitespaceAppend(a: string, b: string)
    ensures RemoveWhitespace(a + b) == RemoveWhitespace(a) + RemoveWhitespace(b)
  {
    if |a| > 0 {
      RemoveWhitespaceAppend(a[1..], b);
      assert (a + b)[1..] == a[1..] + b;
    } else {
      assert a + b == b;
    }
  }

  /**
   * `s.split(/\s+/)`: the fields between maximal white-space runs. A leading
   * run gives an empty first field and a trailing run an empty last field;
   * no field holds white space.
   */
  function SplitWhitespace(s: string): (r: seq<string>)
    ensures |r| >= 1
    ensures forall k :: 0 <= k < |r| ==> NoWhitespace(r[k])
    ensures (r[0] == "") <==> (s == "" || IsWhitespace(s[0]))
    decreases |s|
  {
    if |s| == 0 then [""]
    else if IsWhitespace(s[0]) then [""] + SplitWhitespace(TrimStart(s))
    else
      var rest := SplitWhitespace(s[1..]);
      [[s[0]] + rest[0]] + rest[1..]
  }

  /** Between the first and a last field that no white space follows, every field is non-empty. */
  lemma {:induction false} SplitWhitespaceFields(s: string)
    requires s == [] || !IsWhitespace(s[|s| - 1])
    ensures forall k :: 0 < k < |SplitWhitespace(s)| ==> SplitWhitespace(s)[k] != ""
    decreases |s|
  {
    if |s| > 0 {
      if IsWhitespace(s[0]) {
        var t := TrimStart(s);
        assert |t| > 0 && t[|t| - 1] == s[|s| - 1];
        SplitWhitespaceFields(t);
        var rest := SplitWhitespace(t);
        assert rest[0] != "";
        var r := SplitWhitespace(s);
        assert r == [""] + rest;
        forall k | 0 < k < |r| ensures r[k] != "" {
          assert r[k] == rest[k - 1];
        }
      } else {
        SplitWhitespaceFields(s[1..]);
        var rest := SplitWhitespace(s[1..]);
        assert SplitWhitespace(s) == [[s[0]] + rest[0]] + rest[1..];
      }
    }
  }

  /** The fields together hold exactly the characters of `s` that are not white space, in order. */
  lemma {:induction false} SplitWhitespaceConcat(s: string)
    ensures Concat(SplitWhitespace(s)) == RemoveWhitespace(s)
    decreases |s|
  {
    if |s| > 0 {
      if IsWhitespace(s[0]) {
        var t := TrimStart(s);
        var rest := SplitWhitespace(t);
        SplitWhitespaceConcat(t);
        assert Concat([""] + rest) == Concat(rest);
        assert s == s[..|s| - |t|] + t;
        RemoveWhitespaceOfRun(s[..|s| - |t|]);
        RemoveWhitespaceAppend(s[..|s| - |t|], t);
      } else {
        var rest := SplitWhitespace(s[1..]);
        SplitWhitespaceConcat(s[1..]);
        var r := [[s[0]] + rest[0]] + rest[1..];
        assert Concat(r) == [s[0]] + rest[0] + Concat(rest[1..]);
      }
    }
  }

  /** `ws[0] + seps[0] + ws[1] + ... + ws[n - 1]`: fields with a separator between each two. */
  function Interleave(ws: seq<string>, seps: seq<string>): string
    requires |ws| >= 1 && |seps| == |ws| - 1
  {
    if |ws| == 1 then ws[0] else ws[0] + seps[0] + Interleave(ws[1..], seps[1..])
  }

  /** A first field that is not empty gives the first character. */
  lemma InterleaveFirst(ws: seq<string>, seps: seq<string>)
    requires |ws| >= 1 && |seps| == |ws| - 1 && ws[0] != ""
    ensures |Interleave(ws, seps)| >= 1 && Interleave(ws, seps)[0] == ws[0][0]
  {
  }

  /** A last field that is not empty gives the last character. */
  lemma {:induction false} InterleaveLast(ws: seq<string>, seps: seq<string>)
    requires |ws| >= 1 && |seps| == |ws| - 1 && ws[|ws| - 1] != ""
    ensures var t := Interleave(ws, seps); |t| >= 1 && t[|t| - 1] == ws[|ws| - 1][|ws[|ws| - 1]| - 1]
  {
    if |ws| > 1 {
      InterleaveLast(ws[1..], seps[1..]);
    }
  }

  /**
   * `split(/\s+/)` cuts text exactly at its white-space runs: fields without
   * white space, joined by non-empty white-space runs, come back as they were.
   * The first and the last field may be empty (text that starts or ends with
   * white space); the fields between cannot.
   */
  lemma {:induction false} SplitWhitespaceInterleave(ws: seq<string>, seps: seq<string>)
    requires |ws| >= 1 && |seps| == |ws| - 1
    requires forall k :: 0 <= k < |ws| ==> NoWhitespace(ws[k])
    requires forall k :: 0 < k < |ws| - 1 ==> ws[k] != ""
    requires forall k :: 0 <= k < |seps| ==> seps[k] != "" && AllWhitespace(seps[k])
    ensures SplitWhitespace(Interleave(ws, seps)) == ws
  {
    if |ws| == 1 {
      SplitWhitespaceNone(ws[0]);
    } else {
      var tail := Interleave(ws[1..], seps[1..]);
      SplitWhitespaceInterleave(ws[1..], seps[1..]);
      if |ws| > 2 {
        InterleaveFirst(ws[1..], seps[1..]);
      }
      assert tail == [] || !IsWhitespace(tail[0]);
      SplitWhitespaceAround(ws[0], seps[0], tail);
      assert [ws[0]] + ws[1..] == ws;
    }
  }

  lemma {:induction false} SplitWhitespaceNone(a: string)
    requires NoWhitespace(a)
    ensures SplitWhitespace(a) == [a]
  {
    if |a| > 0 {
      SplitWhitespaceNone(a[1..]);
      assert [a[0]] + a[1..] == a;
    }
  }

  /** A white-space run after a field without white space ends that field. */
  lemma {:induction false} SplitWhitespaceAround(a: string, sep: string, b: string)
    requires NoWhitespace(a) && sep != "" && AllWhitespace(sep)
    requires b == [] || !IsWhitespace(b[0])
    ensures SplitWhitespace(a + sep + b) == [a] + SplitWhitespace(b)
    decreases |a|
  {
    if |a| == 0 {
      assert a + sep + b == sep + b;
      TrimStartRun(sep, b);
    } else {
      var s := a + sep + b;
      assert s[0] == a[0] && s[1..] == a[1..] + sep + b;
      SplitWhitespaceAround(a[1..], sep, b);
      var rest := SplitWhitespace(s[1..]);
      assert rest[0] == a[1..] && rest[1..] == SplitWhitespace(b);
      assert [a[0]] + a[1..] == a;
    }
  }

  /** `trimStart` removes exactly a leading white-space run. */
  lemma {:induction false} TrimStartRun(sep: string, b: string)
    requires AllWhitespace(sep)
    requires b == [] || !IsWhitespace(b[0])
    ensures TrimStart(sep + b) == b
  {
    if |sep| > 0 {
      assert (sep + b)[1..] == sep[1..] + b;
      TrimStartRun(sep[1..], b);
    } else {
      assert sep + b == b;
    }
  }

  /** `s.replace(/,/g, ' ')` and similar one-character global replacements. */
  function ReplaceAll(s: string, from: char, to: char): (r: string)
    ensures |r| == |s|
    ensures forall k :: 0 <= k < |s| ==> r[k] == if s[k] == from then to else s[k]
  {
    if |s| == 0 then "" else [if s[0] == from then to else s[0]] + ReplaceAll(s[1..], from, to)
  }

  lemma ReplaceAllAppend(a: string, b: string, from: char, to: char)
    ensures ReplaceAll(a + b, from, to) == ReplaceAll(a, from, to) + ReplaceAll(b, from, to)
  {
    var l, r := ReplaceAll(a + b, from, to), ReplaceAll(a, from, to) + ReplaceAll(b, from, to);
    forall k | 0 <= k < |a + b| ensures l[k] == r[k] {
      if k >= |a| { assert (a + b)[k] == b[k - |a|]; }
    }
  }

  lemma ReplaceAllAbsent(a: string, from: char, to: char)
    requires from !in a
    ensures ReplaceAll(a, from, to) == a
  {
  }

  function LowerChar(c: char): char {
    if 'A' <= c <= 'Z' then (c as int + 32) as char else c
  }

  function UpperChar(c: char): char {
    if 'a' <= c <= 'z' then (c as int - 32) as char else c
  }

  /** `toLowerCase`, for the ASCII letters. */
  function ToLower(s: string): (r: string)
    ensures |r| == |s|
    ensures forall k :: 0 <= k < |s| ==> r[k] == LowerChar(s[k])
  {
    if |s| == 0 then "" else [LowerChar(s[0])] + ToLower(s[1..])
  }

  /** `toUpperCase`, for the ASCII letters. */
  function ToUpper(s: string): (r: string)
    ensures |r| == |s|
    ensures forall k :: 0 <= k < |s| ==> r[k] == UpperChar(s[k])
  {
    if |s| == 0 then "" else [UpperChar(s[0])] + ToUpper(s[1..])
  }

  /** Lower-casing twice is lower-casing once. */
  lemma ToLowerIdempotent(s: string)
    ensures ToLower(ToLower(s)) == ToLower(s)
  {
  }

  /** `s.endsWith(suffix)`. */
  predicate EndsWith(s: string, suffix: string) {
    |suffix| <= |s| && s[|s| - |suffix|..] == suffix
  }

  /** `s.endsWith(c)` for a one-character suffix `c`. */
  predicate EndsWithChar(s: string, c: char)
    ensures EndsWithChar(s, c) <==> EndsWith(s, [c])
  {
    |s| > 0 && s[|s| - 1] == c
  }

  /** `s.startsWith(prefix)`. */
  predicate StartsWith(s: string, prefix: string) {
    |prefix| <= |s| && s[..|prefix|] == prefix
  }
}
