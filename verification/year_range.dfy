/**
 * The fiscal-year range of the project set-up form: from the start and
 * end year fields the frontend derives the list of year strings a new
 * project is created with.
 */
module YearRange {
  import opened Wrappers
  import opened JsNumber

  /** The year strings from `a` up to `b`, ascending; empty when `a > b`. */
  function YearsFrom(a: int, b: int): (years: seq<string>)
    ensures |years| == if a <= b then b - a + 1 else 0
    ensures forall k :: 0 <= k < |years| ==> years[k] == IntToString(a + k)
  {
    if a > b then [] else seq(b - a + 1, k => IntToString(a + k))
  }

  /** Distinct years give distinct strings, so no entry repeats. */
  lemma YearsFromDistinct(a: int, b: int, k: nat, l: nat)
    requires k < l < |YearsFrom(a, b)|
    ensures YearsFrom(a, b)[k] != YearsFrom(a, b)[l]
  {
    var years := YearsFrom(a, b);
    assert years[k] == IntToString(a + k) && years[l] == IntToString(a + l);
    IntToStringInjective(a + k, a + l);
  }

  /** Every entry reads back, through `parseInt`, as its own year. */
  lemma YearsFromReadBack(a: int, b: int, k: nat)
    requires k < |YearsFrom(a, b)|
    ensures ParseInt(YearsFrom(a, b)[k]) == Some(a + k)
  {
    var years := YearsFrom(a, b);
    assert years[k] == IntToString(a + k);
    ParseIntOfString(a + k);
  }

  /**
   * The years a range selects once both fields have been through
   * `parseInt`: every year from start to end when both are numbers and
   * the start is not after the end, otherwise none.
   */
  function RangeYears(start: Option<int>, end: Option<int>): (years: seq<string>)
    ensures start.Some? && end.Some? && start.value <= end.value ==>
      && |years| == end.value - start.value + 1
      && (forall k :: 0 <= k < |years| ==> years[k] == IntToString(start.value + k))
    ensures !(start.Some? && end.Some? && start.value <= end.value) ==> years == []
  {
    if start.Some? && end.Some? && start.value <= end.value then YearsFrom(start.value, end.value) else []
  }

  /** The `selectedYears` the form computes from the start and end year fields. */
  function SelectedYears(startYear: string, endYear: string): seq<string> {
    RangeYears(ParseInt(startYear), ParseInt(endYear))
  }

  /** No year string is selected twice. */
  lemma RangeYearsDistinct(start: Option<int>, end: Option<int>, k: nat, l: nat)
    requires k < l < |RangeYears(start, end)|
    ensures RangeYears(start, end)[k] != RangeYears(start, end)[l]
  {
    YearsFromDistinct(start.value, end.value, k, l);
  }

  /**
   * Each selected year string reads back, through `parseInt`, as the
   * start year plus its position.
   */
  lemma RangeYearsReadBack(start: Option<int>, end: Option<int>, k: nat)
    requires k < |RangeYears(start, end)|
    ensures ParseInt(RangeYears(start, end)[k]) == Some(start.value + k)
  {
    assert RangeYears(start, end)[k] == YearsFrom(start.value, end.value)[k];
    YearsFromReadBack(start.value, end.value, k);
  }

  /** Consecutive selected years are exactly one year apart. */
  lemma RangeYearsConsecutive(start: Option<int>, end: Option<int>, k: nat)
    requires k + 1 < |RangeYears(start, end)|
    ensures ParseInt(RangeYears(start, end)[k + 1]) == Some(ParseInt(RangeYears(start, end)[k]).value + 1)
  {
    RangeYearsReadBack(start, end, k);
    RangeYearsReadBack(start, end, k + 1);
  }

  /** A non-empty range starts with `String(start)` and ends with `String(end)`. */
  lemma FirstAndLastYear(start: Option<int>, end: Option<int>)
    requires |RangeYears(start, end)| > 0
    ensures var years := RangeYears(start, end);
      && years[0] == IntToString(start.value)
      && years[|years| - 1] == IntToString(end.value)
  {
  }

  /** The loop that lists the years from `a` to `b`. */
  method ListYears(a: int, b: int) returns (years: seq<string>)
    ensures years == YearsFrom(a, b)
  {
    years := [];
    var i := a;
    while i <= b
      invariant a <= i <= if a <= b then b + 1 else a
      invariant |years| == i - a
      invariant forall k :: 0 <= k < |years| ==> years[k] == IntToString(a + k)
      decreases b - i
    {
      years := years + [IntToString(i)];
      i := i + 1;
    }
    assert forall k :: 0 <= k < |years| ==> years[k] == YearsFrom(a, b)[k];
  }

  /** The effect in the form that recomputes the selected years when either field changes. */
  method ComputeSelectedYears(startYear: string, endYear: string) returns (years: seq<string>)
    ensures years == SelectedYears(startYear, endYear)
  {
    var start := ParseInt(startYear);
    var end := ParseInt(endYear);
    if start.Some? && end.Some? && start.value <= end.value {
      years := ListYears(start.value, end.value);
    } else {
      years := [];
    }
  }
}
