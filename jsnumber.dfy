/**
 * The parts of JavaScript's number semantics the assembler depends on:
 * `parseInt` with no radix (section 19.2.5 of ECMA-262), the ToInt32
 * conversion that every bitwise operator applies (section 7.1.6), the
 * arithmetic right shift `>>`, and the rendering `toHex` builds from
 * `>>> 0`, `toString(16)`, `padStart(8, '0')` and `toUpperCase()`.
 *
 * A JavaScript number here is `Option<int>`: `None` is NaN and `Some(n)` an
 * integer-valued number. Every value the assembler computes is an integer.
 * The result of a bitwise operator is kept as its 32-bit pattern, an integer
 * in [0, 2^32) whose binary digits are the bits (`Bits32`): the signed value
 * JavaScript holds and its pattern determine each other (`Signed`), and
 * `>>> 0` is the pattern itself.
 */
module JsNumber {
  import opened Wrappers
  import opened Text

  // ---------------------------------------------------------------- digits

  /** A digit of radix 10, or of radix 16 where both letter cases count. */
  predicate IsRadixDigit(c: char, radix: nat) {
    ('0' <= c <= '9') || (radix == 16 && (('a' <= c <= 'f') || ('A' <= c <= 'F')))
  }

  predicate AllDigits(s: string, radix: nat) {
    forall k :: 0 <= k < |s| ==> IsRadixDigit(s[k], radix)
  }

  function DigitValue(c: char): (d: nat)
    requires IsRadixDigit(c, 16)
    ensures d < 16
    ensures '0' <= c <= '9' ==> d < 10
  {
    if '0' <= c <= '9' then c as int - '0' as int
    else if 'a' <= c <= 'f' then c as int - 'a' as int + 10
    else c as int - 'A' as int + 10
  }

  /** The longest prefix of `s` made of radix digits. */
  function DigitPrefix(s: string, radix: nat): (r: string)
    ensures |r| <= |s| && r == s[..|r|]
    ensures AllDigits(r, radix)
    ensures |r| == |s| || !IsRadixDigit(s[|r|], radix)
  {
    if |s| > 0 && IsRadixDigit(s[0], radix) then [s[0]] + DigitPrefix(s[1..], radix) else ""
  }

  /** The number a digit string denotes, most significant digit first. */
  function DigitsValue(z: string, radix: nat): nat
    requires radix == 10 || radix == 16
    requires AllDigits(z, radix)
  {
    if |z| == 0 then 0
    else if radix == 16 then DigitsValue(z[..|z| - 1], radix) * 16 + DigitValue(z[|z| - 1])
    else DigitsValue(z[..|z| - 1], radix) * 10 + DigitValue(z[|z| - 1])
  }

  function Pow(b: nat, e: nat): nat {
    if e == 0 then 1 else b * Pow(b, e - 1)
  }

  // --------------------------------------------------------------- parseInt

  /**
   * `parseInt(s)`: skip leading white space, take an optional sign, take an
   * optional `0x`/`0X` prefix (which selects radix 16), then read the longest
   * run of digits. No digits at all gives NaN; `parseInt` never throws.
   */
  function ParseInt(s: string): Option<int> {
    ParseSigned(TrimStart(s))
  }

  /** The steps of `parseInt` after the leading white space is gone. */
  function ParseSigned(t: string): Option<int> {
    if |t| > 0 && t[0] == '-' then
      match ParseUnsigned(t[1..])
      case None => None
      case Some(v) => Some(-v)
    else if |t| > 0 && t[0] == '+' then ParseUnsigned(t[1..])
    else ParseUnsigned(t)
  }

  /** The steps of `parseInt` after the sign is gone. */
  function ParseUnsigned(u: string): Option<int> {
    if |u| >= 2 && u[0] == '0' && (u[1] == 'x' || u[1] == 'X') then ParseDigits(u[2..], 16)
    else ParseDigits(u, 10)
  }

  /** The longest digit run and its value, or NaN when the run is empty. */
  function ParseDigits(v: string, radix: nat): Option<int>
    requires radix == 10 || radix == 16
  {
    var z := DigitPrefix(v, radix);
    if z == "" then None else Some(DigitsValue(z, radix))
  }

  /** Text that starts with something other than white space, a sign or a decimal digit is NaN. */
  lemma ParseIntNoDigits(s: string)
    requires s == "" || (!IsWhitespace(s[0]) && s[0] != '-' && s[0] != '+' && !('0' <= s[0] <= '9'))
    ensures ParseInt(s) == None
  {
  }

  // ------------------------------------------------ reference printers

  function DecimalChar(d: nat): char
    requires d < 10
  {
    ('0' as int + d) as char
  }

  /** The decimal numeral of `n`, without leading zeros. */
  function NatDecimal(n: nat): (r: string)
    ensures |r| >= 1 && AllDigits(r, 10)
    ensures r[0] == '0' ==> n == 0
  {
    if n < 10 then [DecimalChar(n)] else NatDecimal(n / 10) + [DecimalChar(n % 10)]
  }

  /** `String(n)` for an integer `n`. */
  function Decimal(n: int): string {
    if n < 0 then "-" + NatDecimal(-n) else NatDecimal(n)
  }

  function HexChar(d: nat): char
    requires d < 16
  {
    if d < 10 then ('0' as int + d) as char else ('a' as int + d - 10) as char
  }

  /** `n.toString(16)`: lower-case hexadecimal digits without leading zeros. */
  function NatToHex(n: nat): (r: string)
    ensures |r| >= 1 && AllDigits(r, 16)
    ensures forall k :: 0 <= k < |r| ==> !('A' <= r[k] <= 'Z')
  {
    if n < 16 then [HexChar(n)] else NatToHex(n / 16) + [HexChar(n % 16)]
  }

  lemma {:induction false} DecimalValue(n: nat)
    ensures DigitsValue(NatDecimal(n), 10) == n
  {
    if n >= 10 {
      DecimalValue(n / 10);
      var s := NatDecimal(n);
      assert s[..|s| - 1] == NatDecimal(n / 10);
    }
  }

  lemma {:induction false} HexValue(n: nat)
    ensures DigitsValue(NatToHex(n), 16) == n
  {
    if n >= 16 {
      HexValue(n / 16);
      var s := NatToHex(n);
      assert s[..|s| - 1] == NatToHex(n / 16);
    }
  }

  /** When `z` is all digits and the next character is not one, `z` is the longest digit prefix. */
  lemma DigitPrefixOf(z: string, rest: string, radix: nat)
    requires AllDigits(z, radix)
    requires rest == "" || !IsRadixDigit(rest[0], radix)
    ensures DigitPrefix(z + rest, radix) == z
  {
    assert (z + rest)[..|z|] == z;
  }

  /** A string that does not start with white space is its own `trimStart`. */
  lemma TrimStartNoop(s: string)
    requires s == "" || !IsWhitespace(s[0])
    ensures TrimStart(s) == s
  {
  }

  /** The unsigned part of `parseInt` reads a decimal run `z` that the text `rest` does not continue. */
  lemma ParseUnsignedDecimalRun(z: string, rest: string)
    requires |z| >= 1 && AllDigits(z, 10)
    requires z[0] != '0' || |z| == 1
    requires rest == "" || (!IsRadixDigit(rest[0], 10) && rest[0] != 'x' && rest[0] != 'X')
    ensures ParseUnsigned(z + rest) == Some(DigitsValue(z, 10))
  {
    DigitPrefixOf(z, rest, 10);
    var u := z + rest;
    assert u[0] == z[0];
    assert !(|u| >= 2 && u[0] == '0' && (u[1] == 'x' || u[1] == 'X')) by {
      if |z| >= 2 { assert u[1] == z[1]; }
      else if |u| >= 2 { assert u[1] == rest[0]; }
    }
  }

  /** The unsigned part of `parseInt` reads a `0x` run `z` that the text `rest` does not continue. */
  lemma ParseUnsignedHexRun(z: string, rest: string)
    requires |z| >= 1 && AllDigits(z, 16)
    requires rest == "" || !IsRadixDigit(rest[0], 16)
    ensures ParseUnsigned("0x" + z + rest) == Some(DigitsValue(z, 16))
  {
    var w := z + rest;
    DropPrefix("0x", w);
    assert "0x" + z + rest == "0x" + w;
    HexPrefixSelectsRadix16("0x" + w);
    DigitPrefixOf(z, rest, 16);
  }

  lemma DropPrefix(p: string, w: string)
    ensures (p + w)[..|p|] == p && (p + w)[|p|..] == w
  {
  }

  lemma HexPrefixSelectsRadix16(u: string)
    requires |u| >= 2 && u[0] == '0' && u[1] == 'x'
    ensures ParseUnsigned(u) == ParseDigits(u[2..], 16)
  {
  }

  /** A leading minus sign negates what the rest of the text parses to. */
  lemma MinusSign(w: string)
    ensures ParseInt("-" + w) == match ParseUnsigned(w) case None => None case Some(v) => Some(-v)
  {
    DropPrefix("-", w);
    TrimStartNoop("-" + w);
  }

  /** Text that starts with neither white space nor a sign goes straight to the unsigned step. */
  lemma NoSign(w: string)
    requires w != "" && !IsWhitespace(w[0]) && w[0] != '-' && w[0] != '+'
    ensures ParseInt(w) == ParseUnsigned(w)
  {
    TrimStartNoop(w);
  }

  /**
   * `parseInt` reads back every decimal numeral `String(n)` produces, and it
   * stops at the first character that cannot continue the numeral.
   */
  lemma ParseIntDecimal(n: int, rest: string)
    requires rest == "" || (!IsRadixDigit(rest[0], 10) && rest[0] != 'x' && rest[0] != 'X')
    ensures ParseInt(Decimal(n) + rest) == Some(n)
  {
    if n < 0 {
      var z := NatDecimal(-n);
      NegativeDecimal(z, -n, rest);
      assert Decimal(n) + rest == "-" + (z + rest);
    } else {
      NaturalDecimal(n, rest);
    }
  }

  lemma NaturalDecimal(m: nat, rest: string)
    requires rest == "" || (!IsRadixDigit(rest[0], 10) && rest[0] != 'x' && rest[0] != 'X')
    ensures ParseInt(NatDecimal(m) + rest) == Some(m)
  {
    var z := NatDecimal(m);
    DecimalValue(m);
    ParseUnsignedDecimalRun(z, rest);
    assert (z + rest)[0] == z[0];
    NoSign(z + rest);
  }

  lemma NegativeDecimal(z: string, m: nat, rest: string)
    requires z == NatDecimal(m)
    requires rest == "" || (!IsRadixDigit(rest[0], 10) && rest[0] != 'x' && rest[0] != 'X')
    ensures ParseInt("-" + (z + rest)) == Some(-(m as int))
  {
    DecimalValue(m);
    ParseUnsignedDecimalRun(z, rest);
    MinusSign(z + rest);
  }

  /** `parseInt` reads back a `0x` numeral, with either sign, up to the first non-hex character. */
  lemma ParseIntHex(n: nat, rest: string)
    requires rest == "" || !IsRadixDigit(rest[0], 16)
    ensures ParseInt("0x" + NatToHex(n) + rest) == Some(n)
    ensures ParseInt("-" + ("0x" + NatToHex(n) + rest)) == Some(-(n as int))
  {
    var z := NatToHex(n);
    HexValue(n);
    ParseUnsignedHexRun(z, rest);
    HexSign("0x" + z + rest, n);
  }

  lemma HexSign(body: string, n: nat)
    requires |body| >= 1 && body[0] == '0' && ParseUnsigned(body) == Some(n)
    ensures ParseInt(body) == Some(n) && ParseInt("-" + body) == Some(-(n as int))
  {
    MinusSign(body);
    NoSign(body);
  }

  // ------------------------------------------------------ 32-bit patterns

  function Pow2(k: nat): (p: nat)
    ensures p >= 1
  {
    if k == 0 then 1 else 2 * Pow2(k - 1)
  }

  /** The bit pattern of a 32-bit value, as the unsigned integer it denotes. */
  type Bits32 = x: int | 0 <= x < 0x1_0000_0000

  /** ToInt32, as the bit pattern a bitwise operator works on: NaN is 0, integers wrap modulo 2^32. */
  function ToInt32(n: Option<int>): Bits32 {
    if n.None? then 0 else n.value % 0x1_0000_0000
  }

  /** The signed 32-bit integer JavaScript holds for a pattern. */
  function Signed(p: Bits32): int {
    if p < 0x8000_0000 then p else p - 0x1_0000_0000
  }

  /** JavaScript's `p << k`. */
  function Shl(p: Bits32, k: nat): Bits32
    requires k < 32
  {
    (p * Pow2(k)) % 0x1_0000_0000
  }

  /** JavaScript's `p >> k`: division of the signed value, rounding down, so the sign bit is copied in. */
  function Sar(p: Bits32, k: nat): Bits32
    requires k < 32
  {
    (Signed(p) / Pow2(k)) % 0x1_0000_0000
  }

  /** JavaScript's `p & (2^w - 1)`: the low `w` bits. */
  function Low(p: Bits32, w: nat): Bits32
    requires w <= 32
  {
    LowBound(w);
    p % Pow2(w)
  }

  lemma LowBound(w: nat)
    requires w <= 32
    ensures Pow2(w) <= 0x1_0000_0000
  {
    Pow2Table();
    if w < 32 { Pow2Monotone(w, 32); }
  }

  lemma {:induction false} Pow2Monotone(a: nat, b: nat)
    requires a <= b
    ensures Pow2(a) <= Pow2(b)
  {
    if a < b { Pow2Monotone(a, b - 1); }
  }

  lemma Pow2At32()
    ensures Pow2(32) == 0x1_0000_0000
  {
    Pow2Table();
  }

  /** The powers of two the encoders use. */
  lemma Pow2Table()
    ensures Pow2(1) == 2 && Pow2(2) == 4 && Pow2(3) == 8 && Pow2(4) == 16 && Pow2(5) == 32
    ensures Pow2(6) == 64 && Pow2(7) == 128 && Pow2(8) == 256 && Pow2(10) == 1024
    ensures Pow2(11) == 2048 && Pow2(12) == 4096 && Pow2(13) == 8192
    ensures Pow2(15) == 0x8000 && Pow2(20) == 0x10_0000 && Pow2(21) == 0x20_0000
    ensures Pow2(25) == 0x200_0000 && Pow2(31) == 0x8000_0000 && Pow2(32) == 0x1_0000_0000
  {
    assert Pow2(4) == 16;
    assert Pow2(8) == 256;
    assert Pow2(12) == 4096;
    assert Pow2(16) == 0x1_0000;
    assert Pow2(20) == 0x10_0000;
    assert Pow2(24) == 0x100_0000;
    assert Pow2(28) == 0x1000_0000;
    assert Pow2(32) == 0x1_0000_0000;
  }

  /** The low `k` bits of the bitwise or of `a` and `b`. */
  function OrBits(a: nat, b: nat, k: nat): (r: nat)
    ensures r < Pow2(k)
  {
    if k == 0 then 0
    else 2 * OrBits(a / 2, b / 2, k - 1) + (if a % 2 == 1 || b % 2 == 1 then 1 else 0)
  }

  /** JavaScript's `a | b`. */
  function Or(a: Bits32, b: Bits32): Bits32 {
    Pow2Table();
    OrBits(a, b, 32)
  }

  /**
   * Or of two patterns whose set bits do not overlap is their sum: `hi` is
   * shifted above position `j` and `lo` lies below it.
   */
  lemma {:induction false} OrDisjointBits(hi: nat, lo: nat, j: nat, k: nat)
    requires j <= k && lo < Pow2(j) && hi * Pow2(j) < Pow2(k)
    ensures OrBits(hi * Pow2(j), lo, k) == hi * Pow2(j) + lo
  {
    if j == 0 {
      OrLowBits(hi, k);
    } else {
      assert Pow2(j) == 2 * Pow2(j - 1);
      assert Pow2(k) == 2 * Pow2(k - 1);
      assert (hi * Pow2(j)) / 2 == hi * Pow2(j - 1);
      assert (hi * Pow2(j)) % 2 == 0;
      OrDisjointBits(hi, lo / 2, j - 1, k - 1);
    }
  }

  lemma {:induction false} OrLowBits(a: nat, k: nat)
    requires a < Pow2(k)
    ensures OrBits(a, 0, k) == a
  {
    if k > 0 { OrLowBits(a / 2, k - 1); }
  }

  /** JavaScript's `a | b` is `a + b` when `a` is `hi` shifted up by `j` bits and `b` lies below bit `j`. */
  lemma OrDisjoint(a: Bits32, b: Bits32, hi: nat, j: nat)
    requires j <= 32 && a == hi * Pow2(j) && b < Pow2(j)
    ensures Or(a, b) == a + b
  {
    Pow2At32();
    OrDisjointBits(hi, b, j, 32);
  }

  lemma {:induction false} OrBitsCommutes(a: nat, b: nat, k: nat)
    ensures OrBits(a, b, k) == OrBits(b, a, k)
  {
    if k > 0 { OrBitsCommutes(a / 2, b / 2, k - 1); }
  }

  lemma {:induction false} OrBitsAssociates(a: nat, b: nat, c: nat, k: nat)
    ensures OrBits(OrBits(a, b, k), c, k) == OrBits(a, OrBits(b, c, k), k)
  {
    if k > 0 {
      var ab := OrBits(a, b, k);
      var bc := OrBits(b, c, k);
      assert ab / 2 == OrBits(a / 2, b / 2, k - 1);
      assert bc / 2 == OrBits(b / 2, c / 2, k - 1);
      OrBitsAssociates(a / 2, b / 2, c / 2, k - 1);
    }
  }

  /** The last two operands of `(a | b) | c` can trade places. */
  lemma OrSwap(a: Bits32, b: Bits32, c: Bits32)
    ensures Or(Or(a, b), c) == Or(Or(a, c), b)
  {
    OrBitsAssociates(a, b, c, 32);
    OrBitsCommutes(b, c, 32);
    OrBitsAssociates(a, c, b, 32);
  }

  /** ToInt32 loses nothing on values that fit in 32 signed bits. */
  lemma Int32RoundTrip(x: int)
    requires -0x8000_0000 <= x < 0x8000_0000
    ensures Signed(ToInt32(Some(x))) == x
  {
  }

  // ------------------------------------------------------------------ toHex

  /** `s.padStart(n, c)` for a one-character filler. */
  function PadStart(s: string, n: nat, c: char): (r: string)
    ensures |r| == if |s| >= n then |s| else n
    ensures r == r[..|r| - |s|] + s
    ensures forall k :: 0 <= k < |r| - |s| ==> r[k] == c
    decreases n - |s|
  {
    if |s| >= n then s else PadStart([c] + s, n, c)
  }

  predicate IsUpperHexDigit(c: char) {
    ('0' <= c <= '9') || ('A' <= c <= 'F')
  }

  /** A machine word as the assembler prints it: eight upper-case hexadecimal digits. */
  predicate IsHexWord(s: string) {
    |s| == 8 && forall k :: 0 <= k < 8 ==> IsUpperHexDigit(s[k])
  }

  /**
   * `toHex(value)`: `(value >>> 0).toString(16).padStart(8, '0').toUpperCase()`.
   * The unsigned value is below 2^32, so the result is exactly eight upper-case
   * hexadecimal digits and they denote the word.
   */
  function ToHex(w: Bits32): (r: string)
    ensures IsHexWord(r)
    ensures DigitsValue(r, 16) == w
  {
    PaddedHex(w);
    ToUpper(PadStart(NatToHex(w), 8, '0'))
  }

  /** The padded, upper-cased digits of `w` are a machine word that denotes `w`. */
  lemma PaddedHex(w: Bits32)
    ensures var r := ToUpper(PadStart(NatToHex(w), 8, '0'));
      IsHexWord(r) && DigitsValue(r, 16) == w
  {
    var digits := NatToHex(w);
    HexLength(w, 8);
    HexValue(w);
    PaddedValue(digits);
    UpperWord(PadStart(digits, 8, '0'));
  }

  /** Padding a numeral of at most eight digits with zeros gives eight digits of the same value. */
  lemma PaddedValue(digits: string)
    requires AllDigits(digits, 16) && |digits| <= 8
    ensures var padded := PadStart(digits, 8, '0');
      |padded| == 8 && AllDigits(padded, 16) && DigitsValue(padded, 16) == DigitsValue(digits, 16)
  {
    var padded := PadStart(digits, 8, '0');
    var zeros := padded[..|padded| - |digits|];
    assert forall k :: 0 <= k < |zeros| ==> zeros[k] == '0';
    LeadingZeros(zeros, digits);
  }

  /** Upper-casing eight hexadecimal digits gives a machine word of the same value. */
  lemma UpperWord(h: string)
    requires |h| == 8 && AllDigits(h, 16)
    ensures IsHexWord(ToUpper(h)) && DigitsValue(ToUpper(h), 16) == DigitsValue(h, 16)
  {
    UpperValue(h);
    var u := ToUpper(h);
    forall k | 0 <= k < 8
      ensures IsUpperHexDigit(u[k])
    {
      assert u[k] == UpperChar(h[k]);
    }
  }

  lemma {:induction false} HexLength(n: nat, k: nat)
    requires k >= 1 && n < Pow(16, k)
    ensures |NatToHex(n)| <= k
  {
    if n >= 16 {
      assert Pow(16, k) == 16 * Pow(16, k - 1);
      HexLength(n / 16, k - 1);
    } else {
      assert |NatToHex(n)| == 1;
    }
  }

  lemma {:induction false} UpperValue(s: string)
    requires AllDigits(s, 16)
    ensures AllDigits(ToUpper(s), 16)
    ensures DigitsValue(ToUpper(s), 16) == DigitsValue(s, 16)
  {
    if |s| > 0 {
      var u, init, last := ToUpper(s), s[..|s| - 1], s[|s| - 1];
      assert AllDigits(init, 16);
      assert u[..|u| - 1] == ToUpper(init);
      assert u[|u| - 1] == UpperChar(last);
      UpperValue(init);
      UpperDigit(last);
      assert AllDigits(u, 16) by {
        forall k | 0 <= k < |u|
          ensures IsRadixDigit(u[k], 16)
        {
          UpperDigit(s[k]);
        }
      }
    }
  }

  /** Upper-casing a hexadecimal digit keeps it a digit of the same value. */
  lemma UpperDigit(c: char)
    requires IsRadixDigit(c, 16)
    ensures IsRadixDigit(UpperChar(c), 16) && DigitValue(UpperChar(c)) == DigitValue(c)
  {
  }

  lemma {:induction false} LeadingZeros(zeros: string, s: string)
    requires forall k :: 0 <= k < |zeros| ==> zeros[k] == '0'
    requires AllDigits(s, 16)
    ensures AllDigits(zeros + s, 16)
    ensures DigitsValue(zeros + s, 16) == DigitsValue(s, 16)
  {
    if |s| == 0 {
      assert zeros + s == zeros;
      AllZeros(zeros);
    } else {
      var t := zeros + s;
      assert t[..|t| - 1] == zeros + s[..|s| - 1];
      LeadingZeros(zeros, s[..|s| - 1]);
    }
  }

  lemma {:induction false} AllZeros(zeros: string)
    requires forall k :: 0 <= k < |zeros| ==> zeros[k] == '0'
    ensures AllDigits(zeros, 16) && DigitsValue(zeros, 16) == 0
  {
    if |zeros| > 0 { AllZeros(zeros[..|zeros| - 1]); }
  }

  /** `parseInt` reads a printed word back: `parseInt("0x" + toHex(w))` is the unsigned value of `w`. */
  lemma ToHexParsesBack(w: Bits32)
    ensures ParseInt("0x" + ToHex(w)) == Some(w)
  {
    ParseHexWord(ToHex(w));
  }

  lemma ParseHexWord(h: string)
    requires IsHexWord(h)
    ensures AllDigits(h, 16) && ParseInt("0x" + h) == Some(DigitsValue(h, 16))
  {
    assert AllDigits(h, 16);
    var u := "0x" + h;
    DropPrefix("0x", h);
    HexPrefixSelectsRadix16(u);
    assert h + "" == h;
    DigitPrefixOf(h, "", 16);
    NoSign(u);
  }

  /** Eight upper-case hex digits are determined by the value they denote: `toHex` is the only printing of a word. */
  lemma ToHexUnique(w: Bits32, h: string)
    requires IsHexWord(h) && AllDigits(h, 16) && DigitsValue(h, 16) == w
    ensures ToHex(w) == h
  {
    DigitsUnique(ToHex(w), h);
  }

  lemma {:induction false} DigitsUnique(a: string, b: string)
    requires |a| == |b|
    requires forall k :: 0 <= k < |a| ==> IsUpperHexDigit(a[k]) && IsUpperHexDigit(b[k])
    requires AllDigits(a, 16) && AllDigits(b, 16) && DigitsValue(a, 16) == DigitsValue(b, 16)
    ensures a == b
  {
    if |a| > 0 {
      var n := |a| - 1;
      var x, y := DigitsValue(a[..n], 16), DigitsValue(b[..n], 16);
      var c, d := DigitValue(a[n]), DigitValue(b[n]);
      LastDigit(x, c, y, d);
      UpperDigitValue(a[n], b[n]);
      DigitsUnique(a[..n], b[..n]);
      assert a == a[..n] + [a[n]] && b == b[..n] + [b[n]];
    }
  }

  lemma LastDigit(x: int, c: int, y: int, d: int)
    requires 0 <= c < 16 && 0 <= d < 16 && x * 16 + c == y * 16 + d
    ensures c == d && x == y
  {
  }

  lemma UpperDigitValue(c: char, d: char)
    requires IsUpperHexDigit(c) && IsUpperHexDigit(d) && DigitValue(c) == DigitValue(d)
    ensures c == d
  {
  }

  /** The value of an eight-digit word, digit by digit from the most significant. */
  lemma HexWordValue(h: string)
    requires IsHexWord(h)
    ensures AllDigits(h, 16)
    ensures DigitsValue(h, 16)
         == ((((((DigitValue(h[0]) * 16 + DigitValue(h[1])) * 16 + DigitValue(h[2])) * 16 + DigitValue(h[3])) * 16
             + DigitValue(h[4])) * 16 + DigitValue(h[5])) * 16 + DigitValue(h[6])) * 16 + DigitValue(h[7])
  {
    HighHalfValue(h);
    DigitsStep(h, 4);
    DigitsStep(h, 5);
    DigitsStep(h, 6);
    DigitsStep(h, 7);
    assert h[..8] == h;
  }

  /** The value of the first four digits of a word. */
  lemma HighHalfValue(h: string)
    requires IsHexWord(h)
    ensures AllDigits(h[..4], 16)
    ensures DigitsValue(h[..4], 16)
         == ((DigitValue(h[0]) * 16 + DigitValue(h[1])) * 16 + DigitValue(h[2])) * 16 + DigitValue(h[3])
  {
    DigitsStep(h, 0);
    DigitsStep(h, 1);
    DigitsStep(h, 2);
    DigitsStep(h, 3);
    assert h[..0] == "";
  }

  /** One more hexadecimal digit multiplies the value of the prefix by 16 and adds its own. */
  lemma DigitsStep(h: string, k: nat)
    requires AllDigits(h, 16) && k < |h|
    ensures AllDigits(h[..k], 16) && AllDigits(h[..k + 1], 16)
    ensures DigitsValue(h[..k + 1], 16) == DigitsValue(h[..k], 16) * 16 + DigitValue(h[k])
  {
    assert h[..k + 1][..k] == h[..k];
  }
}
