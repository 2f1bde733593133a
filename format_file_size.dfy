/** `formatFileSize(size)` (src/formatting/formatFileSize.ts): a size in
    bytes written with the largest decimal unit of B, KB, MB and GB it
    reaches. The `Intl.NumberFormat` with at most two fraction digits is a
    parameter. */
module FileSize {
  import opened Wrappers
  import opened JsTypes

  const FileSizeError: string := "File size must be a finite, non-negative number"

  /** The unit names, smallest first. */
  const Units: seq<string> := ["B", "KB", "MB", "GB"]

  /** `1000^k`: the divisor of unit `k`. */
  function Power(k: nat): (p: real)
    ensures p >= 1.0
  {
    if k == 0 then 1.0 else 1000.0 * Power(k - 1)
  }

  /** The unit a size is written in: the largest of the four whose divisor
      is at most the size, and B below 1000. */
  function UnitIndex(size: real): (k: nat)
    ensures k < |Units|
    ensures k == 0 || Power(k) <= size
    ensures k == |Units| - 1 || size < Power(k + 1)
  {
    assert Power(1) == 1000.0 && Power(2) == 1000000.0;
    assert Power(3) == 1000000000.0;
    if size < 1000.0 then 0
    else if size < 1000000.0 then 1
    else if size < 1000000000.0 then 2
    else 3
  }

  /** Only one unit meets both bounds. */
  lemma UnitIndexUnique(size: real, k: nat)
    requires k < |Units|
    requires k == 0 || Power(k) <= size
    requires k == |Units| - 1 || size < Power(k + 1)
    ensures k == UnitIndex(size)
  {
    assert Power(1) == 1000.0 && Power(2) == 1000000.0;
    assert Power(3) == 1000000000.0 && Power(4) == 1000000000000.0;
  }

  /** `formatFileSize(size)`: NaN, the infinities and negative sizes are
      refused; otherwise the size divided by its unit's divisor, one space,
      and the unit. */
  function FormatFileSize(format: real -> string, size: Num): (r: Result<string>)
    ensures r.Err? <==> !size.IsFinite() || size.r < 0.0
    ensures r.Err? ==> r.message == FileSizeError
    ensures r.Ok? ==>
      var k := UnitIndex(size.r);
      r.value == format(size.r / Power(k)) + " " + Units[k]
  {
    assert Power(1) == 1000.0 && Power(2) == 1000000.0;
    assert Power(3) == 1000000000.0;
    assert size.Finite? ==> size.r / Power(0) == size.r;
    if !size.IsFinite() || size.r < 0.0 then Err(FileSizeError)
    else if size.r < 1000.0 then Ok(format(size.r) + " B")
    else if size.r < 1000000.0 then Ok(format(size.r / 1000.0) + " KB")
    else if size.r < 1000000000.0 then Ok(format(size.r / 1000000.0) + " MB")
    else Ok(format(size.r / 1000000000.0) + " GB")
  }

  /** The unit comes from the unrounded size: 999 999 bytes is written in
      KB as 999.999, which the two-digit format rounds to 1,000. */
  lemma UnitFromUnroundedSize(format: real -> string)
    ensures FormatFileSize(format, Finite(999999.0)) == Ok(format(999.999) + " KB")
  {
  }

  /** There is no unit above GB. */
  lemma LargestUnitIsGB(format: real -> string, size: real)
    requires size >= 1000000000.0
    ensures FormatFileSize(format, Finite(size)) == Ok(format(size / 1000000000.0) + " GB")
  {
  }
}
