/** `parseNullableInt` (src/transformation/parseNullableInt.ts): base-10
    `parseInt` over a string that may be missing. */
module NullableInt {
  import opened Wrappers
  import opened JsText
  import opened IntParsing

  /** `parseNullableInt(value)`; an absent `value` is `null` or `undefined`,
      and `None` in the result is `null`. NaN never comes out: it becomes
      `None`. */
  function ParseNullableInt(value: Option<string>): (r: Option<int>)
    ensures value.None? ==> r.None?
  {
    match value
    case None => None
    case Some(s) =>
      var result := ParseInt(s);
      if result.None? then None else result
  }

  /** Leading white space and one sign are read, then the longest run of
      digits; whatever follows is ignored (`'42.7'` gives 42, `'1e5'` gives
      1, `'99 bottles'` gives 99, `'0xFF'` and `'0b101'` give 0). */
  lemma ParseNullableIntOfParts(ws: string, sign: string, digits: string, rest: string)
    requires AllWhitespace(ws) && IsSign(sign)
    requires digits != [] && AllDigits(digits)
    requires rest == [] || !IsDigit(rest[0])
    ensures ParseNullableInt(Some(ws + sign + digits + rest)) == Some(Signed(sign, DecimalValue(digits)))
  {
    ParseIntOfParts(ws, sign, digits, rest);
  }

  /** No digit after the white space and the sign gives `null` (`''`,
      `'   '`, `'abc'`, `'.42'`, `'Infinity'`, `'NaN'`). */
  lemma ParseNullableIntNoDigits(ws: string, sign: string, rest: string)
    requires AllWhitespace(ws) && IsSign(sign)
    requires rest == [] || !IsDigit(rest[0])
    requires sign == [] && rest != [] ==> !IsWhitespace(rest[0]) && rest[0] != '+' && rest[0] != '-'
    ensures ParseNullableInt(Some(ws + sign + rest)) == None
  {
    ParseIntNoDigits(ws, sign, rest);
  }

  /** Every integer written in decimal comes back unchanged. */
  lemma ParseNullableIntOfNumeral(n: int)
    ensures ParseNullableInt(Some(IntToString(n))) == Some(n)
  {
    ParseIntOfNumeral(n);
  }
}
