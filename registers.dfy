/** Register operands: the ABI name table and `parseRegister`. */
module Registers {
  import opened Wrappers
  import opened Text
  import opened JsNumber
  import opened Errors

  /** `REGISTER_MAP`: the ABI names of the 32 integer registers; `s0` and `fp` name the same one. */
  const RegisterMap: map<string, int> := map[
    "zero" := 0, "ra" := 1, "sp" := 2, "gp" := 3, "tp" := 4, "t0" := 5, "t1" := 6, "t2" := 7,
    "s0" := 8, "fp" := 8, "s1" := 9, "a0" := 10, "a1" := 11, "a2" := 12, "a3" := 13, "a4" := 14, "a5" := 15,
    "a6" := 16, "a7" := 17, "s2" := 18, "s3" := 19, "s4" := 20, "s5" := 21, "s6" := 22, "s7" := 23,
    "s8" := 24, "s9" := 25, "s10" := 26, "s11" := 27, "t3" := 28, "t4" := 29, "t5" := 30, "t6" := 31
  ]

  /**
   * `parseRegister(token)`: a missing or empty token raises "Missing register";
   * otherwise the lower-cased token is looked up among the ABI names, then an
   * `x` prefix yields `parseInt` of the rest (NaN, negative or above 31
   * included: there is no range check); anything else raises "Invalid register".
   */
  function ParseRegister(token: Option<string>): (r: Result<Option<int>, AsmError>)
    ensures r == Err(MissingRegister) <==> token.None? || token.value == ""
    ensures r.Err? && r != Err(MissingRegister) ==>
      token.Some? && r == Err(InvalidRegister(ToLower(token.value)))
      && ToLower(token.value) !in RegisterMap && !StartsWith(ToLower(token.value), "x")
    ensures token.Some? && token.value != "" && ToLower(token.value) in RegisterMap ==>
      r == Ok(Some(RegisterMap[ToLower(token.value)]))
    ensures token.Some? && token.value != "" && ToLower(token.value) !in RegisterMap && StartsWith(ToLower(token.value), "x") ==>
      r == Ok(ParseInt(ToLower(token.value)[1..]))
    ensures token.Some? && token.value != "" && ToLower(token.value) !in RegisterMap && !StartsWith(ToLower(token.value), "x") ==>
      r == Err(InvalidRegister(ToLower(token.value)))
  {
    if token.None? || token.value == "" then Err(MissingRegister)
    else
      var reg := ToLower(token.value);
      if reg in RegisterMap then Ok(Some(RegisterMap[reg]))
      else if StartsWith(reg, "x") then Ok(ParseInt(reg[1..]))
      else Err(InvalidRegister(reg))
  }

  /** The canonical ABI name of each register, by index. */
  const AbiNames: seq<string> := [
    "zero", "ra", "sp", "gp", "tp", "t0", "t1", "t2", "s0", "s1", "a0", "a1", "a2", "a3", "a4", "a5",
    "a6", "a7", "s2", "s3", "s4", "s5", "s6", "s7", "s8", "s9", "s10", "s11", "t3", "t4", "t5", "t6"]

  /** Every table entry is a register index 0 to 31. */
  lemma RegisterMapRange()
    ensures forall name :: name in RegisterMap ==> 0 <= RegisterMap[name] < 32
  {
  }

  /** Every register 0 to 31 has an ABI name, and `fp` names the same register as `s0`. */
  lemma RegisterMapCovers()
    ensures |AbiNames| == 32
    ensures forall i :: 0 <= i < 32 ==> AbiNames[i] in RegisterMap && RegisterMap[AbiNames[i]] == i
    ensures RegisterMap["fp"] == RegisterMap["s0"] == 8
  {
    Covers0();
    Covers4();
    Covers8();
    Covers12();
    Covers16();
    Covers20();
    Covers24();
    Covers28();
  }

  /** ABI names `lo` to `lo + 3` map back to their indices, block by block. */
  lemma Covers0()
    ensures forall i :: 0 <= i < 4 ==> AbiNames[i] in RegisterMap && RegisterMap[AbiNames[i]] == i
  {
    forall i | 0 <= i < 4
      ensures AbiNames[i] in RegisterMap && RegisterMap[AbiNames[i]] == i
    {
    }
  }

  lemma Covers4()
    ensures forall i :: 4 <= i < 8 ==> AbiNames[i] in RegisterMap && RegisterMap[AbiNames[i]] == i
  {
    forall i | 4 <= i < 8
      ensures AbiNames[i] in RegisterMap && RegisterMap[AbiNames[i]] == i
    {
    }
  }

  lemma Covers8()
    ensures forall i :: 8 <= i < 12 ==> AbiNames[i] in RegisterMap && RegisterMap[AbiNames[i]] == i
  {
    forall i | 8 <= i < 12
      ensures AbiNames[i] in RegisterMap && RegisterMap[AbiNames[i]] == i
    {
    }
  }

  lemma Covers12()
    ensures forall i :: 12 <= i < 16 ==> AbiNames[i] in RegisterMap && RegisterMap[AbiNames[i]] == i
  {
    forall i | 12 <= i < 16
      ensures AbiNames[i] in RegisterMap && RegisterMap[AbiNames[i]] == i
    {
    }
  }

  lemma Covers16()
    ensures forall i :: 16 <= i < 20 ==> AbiNames[i] in RegisterMap && RegisterMap[AbiNames[i]] == i
  {
    forall i | 16 <= i < 20
      ensures AbiNames[i] in RegisterMap && RegisterMap[AbiNames[i]] == i
    {
    }
  }

  lemma Covers20()
    ensures forall i :: 20 <= i < 24 ==> AbiNames[i] in RegisterMap && RegisterMap[AbiNames[i]] == i
  {
    forall i | 20 <= i < 24
      ensures AbiNames[i] in RegisterMap && RegisterMap[AbiNames[i]] == i
    {
    }
  }

  lemma Covers24()
    ensures forall i :: 24 <= i < 28 ==> AbiNames[i] in RegisterMap && RegisterMap[AbiNames[i]] == i
  {
    forall i | 24 <= i < 28
      ensures AbiNames[i] in RegisterMap && RegisterMap[AbiNames[i]] == i
    {
    }
  }

  lemma Covers28()
    ensures forall i :: 28 <= i < 32 ==> AbiNames[i] in RegisterMap && RegisterMap[AbiNames[i]] == i
  {
    forall i | 28 <= i < 32
      ensures AbiNames[i] in RegisterMap && RegisterMap[AbiNames[i]] == i
    {
    }
  }

  /** The ABI names are lower case and none starts with `x`. */
  lemma RegisterNamesLowerCase()
    ensures forall name :: name in RegisterMap ==> ToLower(name) == name && !StartsWith(name, "x")
  {
    forall name | name in RegisterMap
      ensures ToLower(name) == name && !StartsWith(name, "x")
    {
      NamesPlain();
      PlainNameLower(name);
    }
  }

  /** A name of lower-case letters and digits that does not start with `x`. */
  predicate PlainName(name: string) {
    |name| >= 1 && name[0] != 'x' && forall k :: 0 <= k < |name| ==> 'a' <= name[k] <= 'z' || '0' <= name[k] <= '9'
  }

  lemma NamesPlain()
    ensures forall name :: name in RegisterMap ==> PlainName(name)
  {
  }

  lemma PlainNameLower(name: string)
    requires PlainName(name)
    ensures ToLower(name) == name && !StartsWith(name, "x")
  {
    assert ToLower(name)[0] == name[0];
  }

  /** Register tokens are case-insensitive, errors included. */
  lemma ParseRegisterCaseInsensitive(token: string)
    ensures ParseRegister(Some(token)) == ParseRegister(Some(ToLower(token)))
  {
    ToLowerIdempotent(token);
  }

  /** Every ABI name yields its listed index. */
  lemma ParseRegisterAbiName(name: string)
    requires name in RegisterMap
    ensures ParseRegister(Some(name)) == Ok(Some(RegisterMap[name]))
  {
    RegisterNamesLowerCase();
  }

  /** `x<n>` and `X<n>` yield `n` for every integer `n`: indices are not range-checked. */
  lemma ParseRegisterNumbered(n: int, upper: bool)
    ensures ParseRegister(Some([if upper then 'X' else 'x'] + Decimal(n))) == Ok(Some(n))
  {
    var token := [if upper then 'X' else 'x'] + Decimal(n);
    var reg := ToLower(token);
    assert reg == "x" + Decimal(n) by {
      DecimalLowerCase(n);
      assert ToLower(token) == [LowerChar(token[0])] + ToLower(Decimal(n));
    }
    RegisterNamesLowerCase();
    assert reg[1..] == Decimal(n);
    ParseIntDecimal(n, "");
    assert Decimal(n) + "" == Decimal(n);
  }

  lemma DecimalLowerCase(n: int)
    ensures ToLower(Decimal(n)) == Decimal(n)
  {
    var d := Decimal(n);
    assert forall k :: 0 <= k < |d| ==> LowerChar(d[k]) == d[k] by {
      forall k | 0 <= k < |d| ensures LowerChar(d[k]) == d[k] {
        if n < 0 && k > 0 { assert d[k] == NatDecimal(-n)[k - 1]; }
      }
    }
  }
}
