/** The environment getters of src/environment, and the copy of
    `getEnvString` in src/env. `process.env` is the map `env`; an absent
    key is an unset variable, and an absent or `undefined` default is
    `None`. */
module Environment {
  import opened Wrappers
  import opened JsText
  import opened IntParsing

  /** What a getter returns: a value read from the variable, or the
      caller's default. */
  datatype Value<A, T> = FromEnv(read: A) | FromDefault(default: T)

  function NotDefined(name: string): string {
    "Environment variable \"" + name + "\" is not defined"
  }

  function NotANumber(name: string): string {
    "Environment variable \"" + name + "\" could not be parsed as a number"
  }

  /** `value.trim().toLowerCase()` is `'1'` or `'true'`. */
  predicate IsTruthy(value: string) {
    var v := LowerCase(Trim(value));
    v == "1" || v == "true"
  }

  /** `getEnvBoolean(name, defaultValue)`: a set variable gives whether it
      is truthy and the default is ignored; an unset one gives the default,
      or fails when there is none. */
  function GetEnvBoolean<T>(env: map<string, string>, name: string, defaultValue: Option<T>): (r: Result<Value<bool, T>>)
    ensures r.Err? <==> name !in env && defaultValue.None?
    ensures r.Err? ==> r.message == NotDefined(name)
    ensures name in env ==> r == Ok(FromEnv(IsTruthy(env[name])))
    ensures name !in env && defaultValue.Some? ==> r == Ok(FromDefault(defaultValue.value))
  {
    if name !in env then
      if defaultValue.Some? then Ok(FromDefault(defaultValue.value)) else Err(NotDefined(name))
    else
      var value := LowerCase(Trim(env[name]));
      Ok(FromEnv(value == "1" || value == "true"))
  }

  /** `getEnvInteger(name, defaultValue)`, and `getEnvNumber`, which has
      the same body: a set variable gives its `parseInt(value, 10)` and the
      default is ignored, or fails when that is NaN; an unset one gives the
      default, or fails when there is none. */
  function GetEnvInteger<T>(env: map<string, string>, name: string, defaultValue: Option<T>): (r: Result<Value<int, T>>)
    ensures r.Err? <==> (name in env && ParseInt(env[name]).None?) || (name !in env && defaultValue.None?)
    ensures r.Err? ==> r.message == if name in env then NotANumber(name) else NotDefined(name)
    ensures name in env && r.Ok? ==> r.value == FromEnv(ParseInt(env[name]).value)
    ensures name !in env && defaultValue.Some? ==> r == Ok(FromDefault(defaultValue.value))
  {
    if name in env then
      match ParseInt(env[name])
      case None => Err(NotANumber(name))
      case Some(n) => Ok(FromEnv(n))
    else if defaultValue.Some? then Ok(FromDefault(defaultValue.value))
    else Err(NotDefined(name))
  }

  /** `getEnvString(name, defaultValue)`: `process.env[name] ?? defaultValue`,
      failing when both are missing. */
  function GetEnvString<T>(env: map<string, string>, name: string, defaultValue: Option<T>): (r: Result<Value<string, T>>)
    ensures r.Err? <==> name !in env && defaultValue.None?
    ensures r.Err? ==> r.message == NotDefined(name)
    ensures name in env ==> r == Ok(FromEnv(env[name]))
    ensures name !in env && defaultValue.Some? ==> r == Ok(FromDefault(defaultValue.value))
  {
    if name in env then Ok(FromEnv(env[name]))
    else if defaultValue.Some? then Ok(FromDefault(defaultValue.value))
    else Err(NotDefined(name))
  }

  /** The case-insensitive spellings of `true`. */
  predicate SpellsTrue(t: string) {
    |t| == 4 && LowerChar(t[0]) == 't' && LowerChar(t[1]) == 'r' &&
    LowerChar(t[2]) == 'u' && LowerChar(t[3]) == 'e'
  }

  /** A value is truthy exactly when, without its surrounding white space,
      it is `1` or `true` in any letter case. */
  lemma IsTruthyIff(value: string)
    ensures IsTruthy(value) <==> Trim(value) == "1" || SpellsTrue(Trim(value))
  {
    var t := Trim(value);
    var v := LowerCase(t);
    if |t| == 1 {
      assert v == "1" <==> t == "1";
    }
    if |t| == 4 {
      assert v == "true" <==> SpellsTrue(t);
    }
  }

  /** White space around the value does not matter. */
  lemma TruthyIgnoresSpace(ws1: string, t: string, ws2: string)
    requires AllWhitespace(ws1) && AllWhitespace(ws2)
    requires t != [] && !IsWhitespace(t[0]) && !IsWhitespace(t[|t| - 1])
    ensures IsTruthy(ws1 + t + ws2) == IsTruthy(t)
  {
    TrimOf(ws1, t, ws2);
    TrimOf([], t, []);
    assert [] + t + [] == t;
  }

  /** An empty or blank value is false. */
  lemma BlankIsFalse(value: string)
    requires AllWhitespace(value)
    ensures !IsTruthy(value)
  {
    TrimBlank(value);
  }

  /** Once the variable is set the default is never consulted. */
  lemma SetVariableIgnoresDefault<T>(env: map<string, string>, name: string, d1: Option<T>, d2: Option<T>)
    requires name in env
    ensures GetEnvBoolean(env, name, d1) == GetEnvBoolean(env, name, d2)
    ensures GetEnvInteger(env, name, d1) == GetEnvInteger(env, name, d2)
    ensures GetEnvString(env, name, d1) == GetEnvString(env, name, d2)
  {
  }

  /** An integer's numeral reads back as that integer. */
  lemma GetEnvIntegerOfNumeral<T>(env: map<string, string>, name: string, n: int, defaultValue: Option<T>)
    requires name in env && env[name] == IntToString(n)
    ensures GetEnvInteger(env, name, defaultValue) == Ok(FromEnv(n))
  {
    ParseIntOfNumeral(n);
  }

  /** Digits followed by anything else are read as far as the digits go
      (`'42abc'` gives 42). */
  lemma GetEnvIntegerIgnoresRest<T>(env: map<string, string>, name: string, digits: string, rest: string, defaultValue: Option<T>)
    requires digits != [] && AllDigits(digits)
    requires rest == [] || !IsDigit(rest[0])
    requires name in env && env[name] == digits + rest
    ensures GetEnvInteger(env, name, defaultValue) == Ok(FromEnv(DecimalValue(digits) as int))
  {
    var text := digits + rest;
    assert [] + [] + digits + rest == text;
    ParseIntOfParts([], [], digits, rest);
    var v := DecimalValue(digits);
    assert Signed([], v) == v;
    assert ParseInt(text) == Some(v as int);
  }

  /** A set variable with no digit after its white space and sign fails to
      parse, the empty string included. */
  lemma GetEnvIntegerNotANumber<T>(env: map<string, string>, name: string, ws: string, sign: string, rest: string, defaultValue: Option<T>)
    requires AllWhitespace(ws) && IsSign(sign)
    requires rest == [] || !IsDigit(rest[0])
    requires sign == [] && rest != [] ==> !IsWhitespace(rest[0]) && rest[0] != '+' && rest[0] != '-'
    requires name in env && env[name] == ws + sign + rest
    ensures GetEnvInteger(env, name, defaultValue) == Err(NotANumber(name))
  {
    ParseIntNoDigits(ws, sign, rest);
  }

  /** `getEnvString` returns a set variable as it is, even when empty. */
  lemma EmptyStringIsKept<T>(env: map<string, string>, name: string, defaultValue: Option<T>)
    ensures GetEnvString(env[name := ""], name, defaultValue) == Ok(FromEnv(""))
  {
  }
}
