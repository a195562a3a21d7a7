/**
 * The memory operand `imm(reg)` of loads and stores, recognised with the
 * regular expression `^(-?\d+|0x[0-9a-fA-F]+)\(([a-zA-Z0-9]+)\)$`.
 */
module Operands {
  import opened Wrappers
  import opened Text
  import opened JsNumber

  predicate IsAlphanumeric(c: char) {
    ('a' <= c <= 'z') || ('A' <= c <= 'Z') || ('0' <= c <= '9')
  }

  /** The first group, `-?\d+|0x[0-9a-fA-F]+`, matches all of `p`. */
  predicate IsImmediateText(p: string) {
    (|p| >= 1 && AllDigits(p, 10))
    || (|p| >= 2 && p[0] == '-' && AllDigits(p[1..], 10))
    || (|p| >= 3 && p[0] == '0' && p[1] == 'x' && AllDigits(p[2..], 16))
  }

  /** The second group, `[a-zA-Z0-9]+`, matches all of `q`. */
  predicate IsBaseText(q: string) {
    |q| >= 1 && forall k :: 0 <= k < |q| ==> IsAlphanumeric(q[k])
  }

  /**
   * `s.match(...)` with the memory-operand pattern, as its two groups. Neither
   * group can hold a parenthesis, so the match, when there is one, splits `s`
   * at its first `(` and its final `)`.
   */
  function MatchMemOperand(s: string): (r: Option<(string, string)>)
    ensures r.Some? ==> s == r.value.0 + "(" + r.value.1 + ")"
    ensures r.Some? ==> IsImmediateText(r.value.0) && IsBaseText(r.value.1)
  {
    var p := BeforeFirst(s, "(");
    if |p| == |s| then None
    else
      var rest := s[|p| + 1..];
      if |rest| == 0 || rest[|rest| - 1] != ')' then None
      else
        var q := rest[..|rest| - 1];
        if IsImmediateText(p) && IsBaseText(q) then
          assert s == p + "(" + q + ")" by {
            assert s[|p|] == '(' by { assert OccursAt(s, "(", |p|); }
            assert s == s[..|p|] + [s[|p|]] + s[|p| + 1..];
            assert rest == q + ")";
          }
          Some((p, q))
        else None
  }

  lemma ImmediateHasNoParen(p: string)
    requires IsImmediateText(p)
    ensures forall k :: 0 <= k < |p| ==> p[k] != '('
  {
    forall k | 0 <= k < |p| ensures p[k] != '(' {
      if !AllDigits(p, 10) && !(p[0] == '-' && AllDigits(p[1..], 10)) {
        if k >= 2 { assert p[k] == p[2..][k - 2]; }
      } else if !AllDigits(p, 10) && k >= 1 {
        assert p[k] == p[1..][k - 1];
      }
    }
  }

  /** Every operand the pattern describes is matched, with its two groups. */
  lemma MatchMemOperandComplete(p: string, q: string)
    requires IsImmediateText(p) && IsBaseText(q)
    ensures MatchMemOperand(p + "(" + q + ")") == Some((p, q))
  {
    var s := p + "(" + q + ")";
    var b := BeforeFirst(s, "(");
    ImmediateHasNoParen(p);
    assert OccursAt(s, "(", |p|) by { assert s[|p|..|p| + 1] == "("; }
    assert b == s[..|p|] == p;
    assert s[|p| + 1..] == q + ")";
    assert (q + ")")[..|q|] == q;
  }

  /** A token with no parenthesis is never a memory operand. */
  lemma MatchNeedsParen(s: string)
    requires forall k :: 0 <= k < |s| ==> s[k] != '('
    ensures MatchMemOperand(s) == None
  {
  }
}
