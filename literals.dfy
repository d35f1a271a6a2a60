/** The two number parsers of the operation grammar (src/parse.rs:411-476):
    plain decimal, and hexadecimal with a mandatory `0x` or `0X` prefix. */
module Literals {
  import opened Errors
  import opened Strings
  import opened Numerals

  /** `parse_value_dec`: only ASCII digits, folded from the most significant
      one; the empty text is the number 0. */
  function ParseValueDec(value: string): (r: Result<nat>)
    ensures r.Err? <==> exists k :: 0 <= k < |value| && !IsDecDigit(value[k])
    ensures r.Err? ==> r.error == ArgNumDec(value)
    ensures r.Ok? ==> AllDec(value) && r.value == DecValue(value)
  {
    if !AllDec(value) then Err(ArgNumDec(value)) else Ok(DecValue(value))
  }

  /** Size of the text in UTF-16 code units of two bytes, the terminator
      included. */
  function NumBytes(value: string): nat {
    2 * (|value| + 1)
  }

  predicate HexPrefixed(value: string) {
    |value| >= 2 && value[0] == '0' && (value[1] == 'x' || value[1] == 'X')
  }

  /** `parse_value_hex`: two characters are taken first, then the prefix is
      checked, then the length limit, then every remaining digit. */
  function ParseValueHex(value: string): (r: Result<nat>)
    ensures |value| < 2 ==> r == Err(ArgMore(value))
    ensures |value| >= 2 && !HexPrefixed(value) ==> r == Err(ArgNumHexPrefix(value))
    ensures HexPrefixed(value) && |value| > 18 ==> r == Err(ArgSizeLimit(value))
    ensures HexPrefixed(value) && |value| <= 18 ==>
              (r.Ok? <==> AllHex(value[2..])) && (r.Err? ==> r.error == ArgNumHex(value))
    ensures r.Err? ==> r.error in {ArgMore(value), ArgNumHexPrefix(value), ArgSizeLimit(value), ArgNumHex(value)}
    ensures r.Ok? ==> HexPrefixed(value) && |value| <= 18 && AllHex(value[2..]) &&
                      r.value == HexValue(value[2..]) && r.value < Pow(16, 16)
  {
    var first :- TryNextChar(value, value);
    var second :- TryNextChar(first.1, value);
    assert value == [first.0, second.0] + second.1;
    assert second.1 == value[2..];
    if !(first.0 == '0' && (second.0 == 'x' || second.0 == 'X')) then
      Err(ArgNumHexPrefix(value))
    else if NumBytes(value) > 2 * (18 + 1) then
      Err(ArgSizeLimit(value))
    else if !AllHex(second.1) then
      Err(ArgNumHex(value))
    else
      HexValueBound(second.1);
      PowMonotone(16, |second.1|, 16);
      Ok(HexValue(second.1))
  }

  // ---------------------------------------------------------------------
  // Properties
  // ---------------------------------------------------------------------

  /** The length limit admits exactly sixteen digits after the prefix. */
  lemma HexDigitLimit(digits: string)
    requires AllHex(digits)
    ensures ParseValueHex("0x" + digits).Ok? <==> |digits| <= 16
  {
    var value := "0x" + digits;
    assert value[2..] == digits;
  }

  /** The empty text is decimal 0, and so is the bare prefix in hexadecimal. */
  lemma EmptyLiterals()
    ensures ParseValueDec("") == Ok(0)
    ensures ParseValueHex("0x") == Ok(0) && ParseValueHex("0X") == Ok(0)
    ensures ParseValueHex("") == Err(ArgMore("")) && ParseValueHex("0") == Err(ArgMore("0"))
  {
    assert "0x"[2..] == [];
    assert "0X"[2..] == [];
  }

  /** Decimal spellings parse back to their number. */
  lemma DecimalRoundTrip(n: nat)
    ensures ParseValueDec(DecimalText(n)) == Ok(n)
  {
  }

  /** Padded hexadecimal spellings of at most sixteen digits parse back to
      their number, and are never decimal. */
  lemma HexRoundTrip(n: nat, width: nat)
    requires n < Pow(16, 16) && width <= 18
    ensures ParseValueHex(PrefixedHex(n, width)) == Ok(n)
    ensures ParseValueDec(PrefixedHex(n, width)).Err?
  {
    var r := PrefixedHex(n, width);
    PrefixedHexLength(n, width, 16);
    assert !IsDecDigit(r[1]);
  }
}
