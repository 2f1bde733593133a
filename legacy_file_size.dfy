/** The older `formatFileSize(size)` of src/transformation/formatFileSize.ts:
    the same thresholds as the formatting version, units spelled B, Kb, Mb
    and Gb, and only a negativity check, so NaN and +Infinity fall through
    every comparison to Gb. The number format is a parameter over
    JavaScript numbers. */
module LegacyFileSize {
  import opened Wrappers
  import opened JsTypes
  import FileSize

  const NegativeSizeError: string := "File size cannot be negative"

  const LegacyUnits: seq<string> := ["B", "Kb", "Mb", "Gb"]

  /** The unit of a size that passed the negativity check: NaN and
      +Infinity fail every `<` and get the last unit. */
  function LegacyUnitIndex(size: Num): (k: nat)
    requires !LessThan(size, 0.0)
    ensures k < |LegacyUnits|
    ensures size.Finite? ==> k == FileSize.UnitIndex(size.r)
    ensures !size.Finite? ==> k == |LegacyUnits| - 1
  {
    if size.Finite? then FileSize.UnitIndex(size.r) else 3
  }

  /** `formatFileSize(size)`: a negative size or -Infinity is refused;
      anything else is divided by its unit's divisor and followed by one
      space and the unit. */
  function FormatFileSize(format: Num -> string, size: Num): (r: Result<string>)
    ensures r.Err? <==> LessThan(size, 0.0)
    ensures r.Err? ==> r.message == NegativeSizeError
    ensures r.Ok? ==>
      var k := LegacyUnitIndex(size);
      r.value == format(DivBy(size, FileSize.Power(k))) + " " + LegacyUnits[k]
  {
    assert FileSize.Power(1) == 1000.0 && FileSize.Power(2) == 1000000.0;
    assert FileSize.Power(3) == 1000000000.0;
    assert size.Finite? ==> DivBy(size, FileSize.Power(0)) == size;
    if LessThan(size, 0.0) then Err(NegativeSizeError)
    else if LessThan(size, 1000.0) then Ok(format(size) + " B")
    else if LessThan(size, 1000000.0) then Ok(format(DivBy(size, 1000.0)) + " Kb")
    else if LessThan(size, 1000000000.0) then Ok(format(DivBy(size, 1000000.0)) + " Mb")
    else Ok(format(DivBy(size, 1000000000.0)) + " Gb")
  }

  /** With no finiteness check, NaN and +Infinity are written in Gb rather
      than refused. */
  lemma NotFiniteIsGb(format: Num -> string, size: Num)
    requires size.NaN? || size.PosInf?
    ensures FormatFileSize(format, size) == Ok(format(size) + " Gb")
  {
  }

  /** On a finite non-negative size the two versions write the same number
      and the same unit, up to the case of its final letter. */
  lemma AgreesWithFormatting(format: Num -> string, size: real)
    requires size >= 0.0
    ensures FormatFileSize(format, Finite(size)).Ok?
    ensures FileSize.FormatFileSize(x => format(Finite(x)), Finite(size)).Ok?
    ensures var a := FileSize.FormatFileSize(x => format(Finite(x)), Finite(size)).value;
      var b := FormatFileSize(format, Finite(size)).value;
      |a| == |b| && a[..|a| - 1] == b[..|b| - 1]
  {
    var k := FileSize.UnitIndex(size);
    var p := FileSize.Power(k);
    assert DivBy(Finite(size), p) == Finite(size / p);
    var text := format(Finite(size / p)) + " ";
    assert FileSize.FormatFileSize(x => format(Finite(x)), Finite(size)).value == text + FileSize.Units[k];
    assert FormatFileSize(format, Finite(size)).value == text + LegacyUnits[k];
    assert |FileSize.Units[k]| == |LegacyUnits[k]|;
    assert FileSize.Units[k][..|FileSize.Units[k]| - 1] == LegacyUnits[k][..|LegacyUnits[k]| - 1];
    assert (text + FileSize.Units[k])[..|text| + |FileSize.Units[k]| - 1] == text + FileSize.Units[k][..|FileSize.Units[k]| - 1];
    assert (text + LegacyUnits[k])[..|text| + |LegacyUnits[k]| - 1] == text + LegacyUnits[k][..|LegacyUnits[k]| - 1];
  }
}
