/** `formatValue(value, options)` and `createFormatValue(defaultOptions)`
    (src/formatting/formatValue.ts): a number written with an optional
    order-of-magnitude abbreviation and an optional unit. The two
    `Intl.NumberFormat` objects are one parameter `render(locales,
    maximumFractionDigits, value)`; their output is not modelled. */
module ValueFormat {
  import opened Wrappers
  import opened JsTypes

  const NaNError: string := "Cannot format NaN value"

  /** An entry of `MAGNITUDES`. */
  datatype Magnitude = Magnitude(multiple: real, abbreviation: string)

  /** `MAGNITUDES`, largest first. */
  const Magnitudes: seq<Magnitude> := [
    Magnitude(1000000000000.0, "T"),
    Magnitude(1000000000.0, "B"),
    Magnitude(1000000.0, "M"),
    Magnitude(1000.0, "K")
  ]

  /** An option as an object spread and a destructuring default see it: a
      missing key, a key holding `undefined`, or a key holding a value. */
  datatype Setting<T> = Absent | Undefined | Given(value: T)

  /** `FormatValueOptions`; a `Given(None)` unit is `null`. */
  datatype Options = Options(
    locales: Setting<string>,
    abbreviate: Setting<bool>,
    unit: Setting<Option<string>>,
    maximumFractionDigits: Setting<int>)

  const NoOptions: Options := Options(Absent, Absent, Absent, Absent)

  /** The value a destructuring default gives: the default for a missing
      key and for `undefined`. */
  function OrDefault<T>(s: Setting<T>, default: T): T {
    if s.Given? then s.value else default
  }

  function LocalesOf(options: Options): string { OrDefault(options.locales, "en-US") }

  function AbbreviateOf(options: Options): bool { OrDefault(options.abbreviate, false) }

  function FractionDigitsOf(options: Options): int { OrDefault(options.maximumFractionDigits, 1) }

  /** The unit, `None` when it is `null` or `undefined`. */
  function UnitOf(options: Options): Option<string> { OrDefault(options.unit, None) }

  /** `/^%/.test(unit)` */
  predicate IsPercent(unit: string) { unit != [] && unit[0] == '%' }

  /** `MAGNITUDES.find(({ multiple }) => Math.abs(value / multiple) >= 1)`,
      searching from entry `i`: the index of the first entry that fits. */
  function FindMagnitude(x: real, i: nat): (j: Option<nat>)
    requires i <= |Magnitudes|
    ensures j.Some? ==> i <= j.value < |Magnitudes| && Abs(x / Magnitudes[j.value].multiple) >= 1.0
    ensures j.Some? ==> forall k :: i <= k < j.value ==> Abs(x / Magnitudes[k].multiple) < 1.0
    ensures j.None? ==> forall k :: i <= k < |Magnitudes| ==> Abs(x / Magnitudes[k].multiple) < 1.0
    decreases |Magnitudes| - i
  {
    if i == |Magnitudes| then None
    else if Abs(x / Magnitudes[i].multiple) >= 1.0 then Some(i)
    else FindMagnitude(x, i + 1)
  }

  /** The number before the unit: infinities in the integer format, then
      abbreviation, then the integer format for a `%` unit, and otherwise
      the decimal format. */
  function FormatNumber(render: (string, int, Num) -> string, v: Num, options: Options): string
    requires !v.IsNaN()
  {
    var locales := LocalesOf(options);
    var digits := FractionDigitsOf(options);
    var unit := UnitOf(options);
    if !v.IsFinite() then render(locales, 0, v)
    else if AbbreviateOf(options) then
      match FindMagnitude(v.r, 0)
      case Some(j) => render(locales, digits, Finite(v.r / Magnitudes[j].multiple)) + Magnitudes[j].abbreviation
      case None => render(locales, digits, v)
    else if unit.Some? && IsPercent(unit.value) then render(locales, 0, v)
    else render(locales, digits, v)
  }

  /** The number and its unit: nothing for no unit, the unit right after it
      when it starts with `%`, and one space before any other unit. */
  function WithUnit(formatted: string, unit: Option<string>): (r: string)
    ensures |r| >= |formatted| && r[..|formatted|] == formatted
    ensures unit.None? ==> r == formatted
    ensures unit.Some? && IsPercent(unit.value) ==> r[|formatted|..] == unit.value
    ensures unit.Some? && !IsPercent(unit.value) ==> r[|formatted|..] == " " + unit.value
  {
    match unit
    case None => formatted
    case Some(u) => if IsPercent(u) then formatted + u else formatted + " " + u
  }

  /** `formatValue(value, options)`: `null` for `null` whatever the
      options the formatter accepts, an error for NaN, and a string for
      every other number. */
  function FormatValue(render: (string, int, Num) -> string, value: Option<Num>, options: Options): (r: Result<Option<string>>)
    ensures value.None? ==> r == Ok(None)
    ensures value.Some? ==> (r.Err? <==> value.value.IsNaN())
    ensures r.Err? ==> r.message == NaNError
    ensures value.Some? && !value.value.IsNaN() ==> r.Ok? && r.value.Some?
  {
    match value
    case None => Ok(None)
    case Some(v) =>
      if v.IsNaN() then Err(NaNError)
      else Ok(Some(WithUnit(FormatNumber(render, v, options), UnitOf(options))))
  }

  /** The divisor and suffix an abbreviated value gets: the largest
      multiple of a thousand, up to 10^12, that its magnitude reaches. */
  function Scale(x: real): (real, string) {
    if Abs(x) >= 1000000000000.0 then (1000000000000.0, "T")
    else if Abs(x) >= 1000000000.0 then (1000000000.0, "B")
    else if Abs(x) >= 1000000.0 then (1000000.0, "M")
    else if Abs(x) >= 1000.0 then (1000.0, "K")
    else (1.0, "")
  }

  lemma ScaleAtLeast(a: real, m: real)
    requires m > 0.0
    ensures a >= 1.0 <==> a * m >= m
  {
    if a >= 1.0 {
      assert (a - 1.0) * m >= 0.0;
    } else {
      assert (1.0 - a) * m > 0.0;
    }
  }

  /** `Math.abs(x / m) >= 1` is `|x| >= m` for a positive `m`. */
  lemma AbsDivAtLeastOne(x: real, m: real)
    requires m > 0.0
    ensures Abs(x / m) >= 1.0 <==> Abs(x) >= m
  {
    var y := Abs(x);
    assert Abs(x / m) == y / m;
    assert (y / m) * m == y;
    ScaleAtLeast(y / m, m);
  }

  /** The `find` over `MAGNITUDES` picks the largest multiple the value
      reaches, and none below 1000. */
  lemma FindMagnitudeIsScale(x: real)
    ensures FindMagnitude(x, 0).None? <==> Abs(x) < 1000.0
    ensures FindMagnitude(x, 0).None? ==> Scale(x) == (1.0, "")
    ensures FindMagnitude(x, 0).Some? ==>
      var m := Magnitudes[FindMagnitude(x, 0).value];
      Scale(x) == (m.multiple, m.abbreviation)
  {
    AbsDivAtLeastOne(x, 1000000000000.0);
    AbsDivAtLeastOne(x, 1000000000.0);
    AbsDivAtLeastOne(x, 1000000.0);
    AbsDivAtLeastOne(x, 1000.0);
    var a := Abs(x);
    assert FindMagnitude(x, 4) == None;
    if a >= 1000000000000.0 {
      assert FindMagnitude(x, 0) == Some(0);
    } else if a >= 1000000000.0 {
      assert FindMagnitude(x, 1) == Some(1);
      assert FindMagnitude(x, 0) == FindMagnitude(x, 1);
    } else if a >= 1000000.0 {
      assert FindMagnitude(x, 2) == Some(2);
      assert FindMagnitude(x, 1) == FindMagnitude(x, 2);
      assert FindMagnitude(x, 0) == FindMagnitude(x, 1);
    } else {
      assert FindMagnitude(x, 3) == if a >= 1000.0 then Some(3) else None;
      assert FindMagnitude(x, 2) == FindMagnitude(x, 3);
      assert FindMagnitude(x, 1) == FindMagnitude(x, 2);
      assert FindMagnitude(x, 0) == FindMagnitude(x, 1);
    }
  }

  /** With `abbreviate`, a finite value is divided by the largest multiple
      of a thousand it reaches and gets that multiple's letter, whatever
      the unit; the magnitude is chosen before any rounding. */
  lemma AbbreviatedValue(render: (string, int, Num) -> string, x: real, options: Options)
    requires AbbreviateOf(options)
    ensures FormatValue(render, Some(Finite(x)), options) ==
      Ok(Some(WithUnit(render(LocalesOf(options), FractionDigitsOf(options), Finite(x / Scale(x).0)) + Scale(x).1, UnitOf(options))))
  {
    FindMagnitudeIsScale(x);
    if FindMagnitude(x, 0).None? {
      assert x / 1.0 == x;
      assert render(LocalesOf(options), FractionDigitsOf(options), Finite(x)) + "" ==
        render(LocalesOf(options), FractionDigitsOf(options), Finite(x));
    }
  }

  /** 999 999.99 is abbreviated as 999.99999 thousand, which a one-digit
      format rounds to 1,000K: the letter is chosen from the unrounded
      value. */
  lemma MagnitudeFromUnroundedValue(render: (string, int, Num) -> string, options: Options)
    requires AbbreviateOf(options) && UnitOf(options).None?
    ensures FormatValue(render, Some(Finite(999999.99)), options) ==
      Ok(Some(render(LocalesOf(options), FractionDigitsOf(options), Finite(999.99999)) + "K"))
  {
    AbbreviatedValue(render, 999999.99, options);
  }

  /** The infinities are written in the integer format and never
      abbreviated. */
  lemma InfinityUsesIntegerFormat(render: (string, int, Num) -> string, v: Num, options: Options)
    requires v.PosInf? || v.NegInf?
    ensures FormatValue(render, Some(v), options) ==
      Ok(Some(WithUnit(render(LocalesOf(options), 0, v), UnitOf(options))))
  {
  }

  /** Without `abbreviate`, a unit starting with `%` forces the integer
      format, so `maximumFractionDigits` has no effect. */
  lemma PercentUnitIgnoresFractionDigits(render: (string, int, Num) -> string, x: real, options: Options, digits: Setting<int>)
    requires !AbbreviateOf(options)
    requires UnitOf(options).Some? && IsPercent(UnitOf(options).value)
    ensures FormatValue(render, Some(Finite(x)), options) ==
      Ok(Some(render(LocalesOf(options), 0, Finite(x)) + UnitOf(options).value))
    ensures FormatValue(render, Some(Finite(x)), options) ==
      FormatValue(render, Some(Finite(x)), options.(maximumFractionDigits := digits))
  {
  }

  /** Without `abbreviate` and without a `%` unit, a finite value is
      written in the decimal format with `maximumFractionDigits`, then
      one space and the unit when there is one. */
  lemma PlainValue(render: (string, int, Num) -> string, x: real, options: Options)
    requires !AbbreviateOf(options)
    requires !(UnitOf(options).Some? && IsPercent(UnitOf(options).value))
    ensures FormatValue(render, Some(Finite(x)), options) ==
      Ok(Some(WithUnit(render(LocalesOf(options), FractionDigitsOf(options), Finite(x)), UnitOf(options))))
    ensures UnitOf(options).Some? ==>
      FormatValue(render, Some(Finite(x)), options) ==
        Ok(Some(render(LocalesOf(options), FractionDigitsOf(options), Finite(x)) + " " + UnitOf(options).value))
  {
  }

  /** With no options a finite value is written by the en-US format with at
      most one fraction digit and nothing after it. */
  lemma DefaultOptions(render: (string, int, Num) -> string, x: real)
    ensures FormatValue(render, Some(Finite(x)), NoOptions) == Ok(Some(render("en-US", 1, Finite(x))))
  {
  }

  /** `{ ...defaults, ...options }`: every key present in `options`, even
      with `undefined`, replaces the default. The option then in effect is
      the call's value, the built-in default for a call's `undefined`, and
      the creator's option for a key the call leaves out. */
  function Merge(defaults: Options, options: Options): (r: Options)
    ensures LocalesOf(r) == match options.locales
      case Given(l) => l
      case Undefined => "en-US"
      case Absent => LocalesOf(defaults)
    ensures AbbreviateOf(r) == match options.abbreviate
      case Given(a) => a
      case Undefined => false
      case Absent => AbbreviateOf(defaults)
    ensures UnitOf(r) == match options.unit
      case Given(u) => u
      case Undefined => None
      case Absent => UnitOf(defaults)
    ensures FractionDigitsOf(r) == match options.maximumFractionDigits
      case Given(d) => d
      case Undefined => 1
      case Absent => FractionDigitsOf(defaults)
  {
    Options(
      if options.locales.Absent? then defaults.locales else options.locales,
      if options.abbreviate.Absent? then defaults.abbreviate else options.abbreviate,
      if options.unit.Absent? then defaults.unit else options.unit,
      if options.maximumFractionDigits.Absent? then defaults.maximumFractionDigits else options.maximumFractionDigits)
  }

  /** Spreading no options changes nothing, on either side, and spreads
      nest either way. */
  lemma MergeLaws(a: Options, b: Options, c: Options)
    ensures Merge(a, NoOptions) == a && Merge(NoOptions, a) == a
    ensures Merge(Merge(a, b), c) == Merge(a, Merge(b, c))
  {
  }

  /** A per-call option given as `undefined` hides the factory's default
      and falls back to the built-in one. */
  lemma UndefinedHidesDefault(defaults: Options, options: Options)
    requires options.abbreviate.Undefined?
    ensures !AbbreviateOf(Merge(defaults, options))
  {
  }

  /** `createFormatValue(defaultOptions)`: a formatter whose options are
      the per-call options spread over the defaults. */
  function CreateFormatValue(render: (string, int, Num) -> string, defaults: Options): (f: (Option<Num>, Options) -> Result<Option<string>>)
    ensures forall value, options :: f(value, options) == FormatValue(render, value, Merge(defaults, options))
  {
    (value, options) => FormatValue(render, value, Merge(defaults, options))
  }
}
