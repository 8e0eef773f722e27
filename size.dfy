/**
 * The unit selection of the package-size report: a byte count is divided by
 * 1024 until it is below 1024 or the largest unit is reached, and printed with
 * that unit. Sizes are exact reals, so dividing loses nothing.
 */
module Size {
  const Units: seq<string> := ["B", "KB", "MB", "GB"]

  /** The factor between two consecutive units. */
  const Base: real := 1024.0

  /** `Base` to the power `n`: the number of bytes in one unit `n`. */
  function Power(n: nat): (p: real)
    ensures p >= 1.0
  {
    if n == 0 then 1.0 else Base * Power(n - 1)
  }

  /**
   * The unit a byte count is shown in, chosen by thresholds: the largest unit
   * it holds at least one of, and bytes below one kilobyte (negative counts
   * included).
   */
  function UnitFor(bytes: real): (k: nat)
    ensures k < |Units|
    ensures k == 0 || Power(k) <= bytes
    ensures k == |Units| - 1 || bytes < Power(k + 1)
  {
    if bytes >= Power(3) then 3
    else if bytes >= Power(2) then 2
    else if bytes >= Power(1) then 1
    else 0
  }

  /** The conditions on `UnitFor` single out one unit. */
  lemma UnitIsDetermined(bytes: real, k: nat)
    requires k < |Units|
    requires k == 0 || Power(k) <= bytes
    requires k == |Units| - 1 || bytes < Power(k + 1)
    ensures k == UnitFor(bytes)
  {
  }

  /** A larger byte count never gets a smaller unit. */
  lemma UnitForMonotone(a: real, b: real)
    requires a <= b
    ensures UnitFor(a) <= UnitFor(b)
  {
  }

  /**
   * The loop of `formatSize`: the number shown and the index of its unit. The
   * number times the unit is the byte count, and the unit is the one
   * `UnitFor` chooses.
   */
  method SelectUnit(bytes: real) returns (size: real, unitIndex: nat)
    ensures unitIndex < |Units|
    ensures size * Power(unitIndex) == bytes
    ensures size < Base || unitIndex == |Units| - 1
    ensures unitIndex == UnitFor(bytes)
    ensures unitIndex > 0 ==> size >= 1.0
    ensures bytes < Base ==> unitIndex == 0 && size == bytes
  {
    size := bytes;
    unitIndex := 0;
    while size >= Base && unitIndex < |Units| - 1
      invariant unitIndex < |Units|
      invariant size * Power(unitIndex) == bytes
      invariant unitIndex == 0 || Power(unitIndex) <= bytes
      invariant unitIndex > 0 ==> size >= 1.0
      decreases |Units| - unitIndex
    {
      size := size / Base;
      unitIndex := unitIndex + 1;
    }
  }

  /**
   * `formatSize`: the number, rendered by `toFixed` (with two decimals), a
   * blank, and the unit label.
   */
  method FormatSize(bytes: real, toFixed: real -> string) returns (text: string)
    ensures text == toFixed(bytes / Power(UnitFor(bytes))) + " " + Units[UnitFor(bytes)]
    ensures bytes < Base ==> text == toFixed(bytes) + " B"
  {
    var size, unitIndex := SelectUnit(bytes);
    text := toFixed(size) + " " + Units[unitIndex];
  }
}
