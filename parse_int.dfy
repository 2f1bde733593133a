/** `parseInt(string, 10)` as section 19.2.5 of ECMA-262 defines it: skip
    leading white space, take one optional sign, then read the longest run
    of decimal digits; no digit at all gives NaN (here `None`). Radix
    prefixes such as `0x` are not recognised when the radix is 10. */
module IntParsing {
  import opened Wrappers
  import opened JsText

  /** The longest prefix of `s` made of decimal digits. */
  function LeadingDigits(s: string): (r: string)
    ensures AllDigits(r) && r <= s
    ensures |r| < |s| ==> !IsDigit(s[|r|])
  {
    if s != [] && IsDigit(s[0]) then [s[0]] + LeadingDigits(s[1..]) else []
  }

  /** `parseInt(s, 10)`; `None` stands for NaN. */
  function ParseInt(s: string): Option<int> {
    ParseSigned(TrimStart(s))
  }

  /** `s[k]` is a digit with only white space and at most one `+` or `-`
      before it. */
  predicate NumberAt(s: string, k: nat) {
    k < |s| && IsDigit(s[k]) &&
    (AllWhitespace(s[..k]) || (k > 0 && AllWhitespace(s[..k - 1]) && (s[k - 1] == '+' || s[k - 1] == '-')))
  }

  /** Some digit has only white space and at most one sign before it. */
  predicate HasLeadingNumber(s: string) {
    exists k: nat :: k < |s| && NumberAt(s, k)
  }

  /** A number is read exactly when some digit has only white space and
      at most one sign before it; otherwise the result is NaN. */
  lemma {:induction false} ParseIntDefined(s: string)
    ensures ParseInt(s).Some? <==> HasLeadingNumber(s)
  {
    if ParseInt(s).Some? {
      ParsedNumberAt(s);
    }
    if HasLeadingNumber(s) {
      var k: nat :| k < |s| && NumberAt(s, k);
      NumberAtParses(s, k);
    }
  }

  /** A number read from `s` starts at a digit that only white space and a
      sign precede. */
  lemma {:induction false} ParsedNumberAt(s: string)
    requires ParseSigned(TrimStart(s)).Some?
    ensures HasLeadingNumber(s)
  {
    var t := TrimStart(s);
    var m := |s| - |t|;
    assert t == s[m..];
    if t[0] == '-' || t[0] == '+' {
      var d := LeadingDigits(t[1..]);
      assert d != [] && d[0] == t[1];
      assert s[m + 1] == t[1] && s[m] == t[0];
      assert NumberAt(s, m + 1);
    } else {
      var d := LeadingDigits(t);
      assert d != [] && d[0] == t[0];
      assert s[m] == t[0];
      assert NumberAt(s, m);
    }
  }

  /** Reads a digit that only white space and a sign precede. */
  lemma {:induction false} NumberAtParses(s: string, k: nat)
    requires NumberAt(s, k)
    ensures ParseSigned(TrimStart(s)).Some?
  {
    if AllWhitespace(s[..k]) {
      assert s == s[..k] + s[k..];
      DigitAfterSpace(s[..k], s[k..]);
    } else {
      var j := k - 1;
      assert s == s[..j] + s[j..];
      SignedDigitAfterSpace(s[..j], s[j..]);
    }
  }

  lemma DigitAfterSpace(ws: string, u: string)
    requires AllWhitespace(ws) && u != [] && IsDigit(u[0])
    ensures ParseSigned(TrimStart(ws + u)).Some?
  {
    TrimStartOf(ws, u);
    assert LeadingDigits(u) != [];
  }

  lemma SignedDigitAfterSpace(ws: string, u: string)
    requires AllWhitespace(ws) && |u| >= 2 && (u[0] == '+' || u[0] == '-') && IsDigit(u[1])
    ensures ParseSigned(TrimStart(ws + u)).Some?
  {
    TrimStartOf(ws, u);
    assert u[1..][0] == u[1];
    assert LeadingDigits(u[1..]) != [];
  }

  /** One optional sign, then the digits. */
  function ParseSigned(t: string): Option<int> {
    if t != [] && t[0] == '-' then
      match ParseDigits(t[1..])
      case Some(n) => Some(-n)
      case None => None
    else if t != [] && t[0] == '+' then ParseDigits(t[1..])
    else ParseDigits(t)
  }

  /** The value of the leading digits, or NaN when there are none. */
  function ParseDigits(u: string): Option<int> {
    var digits := LeadingDigits(u);
    if digits == [] then None else Some(DecimalValue(digits))
  }

  /** The empty string, `+` or `-`. */
  predicate IsSign(sign: string) {
    |sign| <= 1 && (|sign| == 1 ==> sign[0] == '+' || sign[0] == '-')
  }

  function Signed(sign: string, n: nat): int { if sign != [] && sign[0] == '-' then -(n as int) else n }

  lemma {:induction false} LeadingDigitsOf(digits: string, rest: string)
    requires AllDigits(digits)
    requires rest == [] || !IsDigit(rest[0])
    ensures LeadingDigits(digits + rest) == digits
  {
    if digits != [] {
      assert (digits + rest)[1..] == digits[1..] + rest;
      LeadingDigitsOf(digits[1..], rest);
      assert [digits[0]] + digits[1..] == digits;
    } else {
      assert digits + rest == rest;
    }
  }

  lemma ParseDigitsOf(digits: string, rest: string)
    requires digits != [] && AllDigits(digits)
    requires rest == [] || !IsDigit(rest[0])
    ensures ParseDigits(digits + rest) == Some(DecimalValue(digits))
  {
    LeadingDigitsOf(digits, rest);
  }

  /** A sign in front of text that starts with a digit. */
  lemma ParseSignedOf(sign: string, u: string, v: nat)
    requires IsSign(sign)
    requires u != [] && IsDigit(u[0])
    requires ParseDigits(u) == Some(v)
    ensures ParseSigned(sign + u) == Some(Signed(sign, v))
  {
    var t := sign + u;
    if sign == [] {
      assert t == u;
      assert u[0] != '-' && u[0] != '+';
      assert ParseSigned(t) == ParseDigits(u);
    } else {
      assert t[0] == sign[0];
      assert t[1..] == u;
      assert ParseDigits(t[1..]) == Some(v);
    }
  }

  lemma ParseSignedOfDigits(sign: string, digits: string, rest: string)
    requires IsSign(sign)
    requires digits != [] && AllDigits(digits)
    requires rest == [] || !IsDigit(rest[0])
    ensures ParseSigned(sign + digits + rest) == Some(Signed(sign, DecimalValue(digits)))
  {
    var u := digits + rest;
    ParseDigitsOf(digits, rest);
    assert u[0] == digits[0];
    ParseSignedOf(sign, u, DecimalValue(digits));
    ConcatAssoc(sign, digits, rest);
  }

  /** White space, a sign and a run of digits, followed by anything that is
      not a digit: the digits are read with the sign and the rest ignored
      (`'42.7'` gives 42, `'1e5'` gives 1, `'0xFF'` gives 0). */
  lemma {:induction false} ParseIntOfParts(ws: string, sign: string, digits: string, rest: string)
    requires AllWhitespace(ws) && IsSign(sign)
    requires digits != [] && AllDigits(digits)
    requires rest == [] || !IsDigit(rest[0])
    ensures ParseInt(ws + sign + digits + rest) == Some(Signed(sign, DecimalValue(digits)))
  {
    var t := sign + digits + rest;
    ConcatAssoc(ws + sign, digits, rest);
    ConcatAssoc(ws, sign, digits + rest);
    ConcatAssoc(sign, digits, rest);
    assert t[0] == if sign == [] then digits[0] else sign[0];
    TrimStartOf(ws, t);
    ParseSignedOfDigits(sign, digits, rest);
  }

  /** When no digit follows the white space and the optional sign, the result
      is NaN (`''`, `'   '`, `'abc'`, `'.42'`, `'Infinity'`, `'-x'`). */
  lemma {:induction false} ParseIntNoDigits(ws: string, sign: string, rest: string)
    requires AllWhitespace(ws) && IsSign(sign)
    requires rest == [] || !IsDigit(rest[0])
    requires sign == [] && rest != [] ==> !IsWhitespace(rest[0]) && rest[0] != '+' && rest[0] != '-'
    ensures ParseInt(ws + sign + rest) == None
  {
    var t := sign + rest;
    assert ws + sign + rest == ws + t;
    assert t != [] ==> t[0] == if sign == [] then rest[0] else sign[0];
    TrimStartOf(ws, t);
    assert LeadingDigits(rest) == [];
    if sign == [] {
      assert t == rest;
    } else {
      assert t[1..] == rest;
    }
  }

  /** A run of digits read to its end. */
  lemma ParseDigitsAll(digits: string)
    requires digits != [] && AllDigits(digits)
    ensures ParseDigits(digits) == Some(DecimalValue(digits))
  {
    LeadingDigitsOf(digits, []);
    assert digits + [] == digits;
  }

  /** A sign and a run of digits, with nothing around them. */
  lemma ParseIntOfSignedDigits(sign: string, digits: string)
    requires IsSign(sign)
    requires digits != [] && AllDigits(digits)
    ensures ParseInt(sign + digits) == Some(Signed(sign, DecimalValue(digits)))
  {
    var t := sign + digits;
    assert t[0] == if sign == [] then digits[0] else sign[0];
    TrimStartNoSpace(t);
    ParseDigitsAll(digits);
    ParseSignedOf(sign, digits, DecimalValue(digits));
  }

  /** A bare run of digits parses to its decimal value. */
  lemma ParseIntOfDigits(digits: string)
    requires digits != [] && AllDigits(digits)
    ensures ParseInt(digits) == Some(DecimalValue(digits) as int)
  {
    ParseIntOfSignedDigits([], digits);
    assert [] + digits == digits;
  }

  /** The decimal numeral of an integer, with a `-` when it is negative. */
  function IntToString(n: int): string {
    if n < 0 then ['-'] + NatToString(-n) else NatToString(n)
  }

  /** The numeral of a natural number, possibly after a minus sign,
      parses back to it, negated after the sign. */
  lemma ParseIntOfNat(sign: string, m: nat)
    requires sign == [] || sign == ['-']
    ensures ParseInt(sign + NatToString(m)) == Some(Signed(sign, m))
  {
    var digits := NatToString(m);
    NatToStringValue(m);
    ParseIntOfSignedDigits(sign, digits);
  }

  /** Every integer's numeral parses back to it. */
  lemma ParseIntOfNumeral(n: int)
    ensures ParseInt(IntToString(n)) == Some(n)
  {
    if n < 0 {
      var m: nat := -n;
      assert IntToString(n) == ['-'] + NatToString(m);
      ParseIntOfNat(['-'], m);
      assert Signed(['-'], m) == n;
    } else {
      ParseIntOfNat([], n);
      assert [] + NatToString(n) == NatToString(n);
    }
  }
}
