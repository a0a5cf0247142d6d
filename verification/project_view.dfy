/**
 * What the frontend shows of a project: the files the backend reports for
 * each year, whether a year's Process button is enabled, and how a value
 * cell of an extracted statement is rendered.
 */
module ProjectView {
  import opened Wrappers
  import opened Upload

  // ---------------------------------------------------------------------
  // The per-year file map
  // ---------------------------------------------------------------------

  /**
   * The map `get_project_files` returns for a project with the given years:
   * each year's entry comes from the listing of its directory, and a year
   * without a directory (absent from `dirs`) has both slots empty.
   */
  function ProjectFiles(years: seq<string>, dirs: map<string, seq<string>>): (files: map<string, YearFiles>)
    ensures forall y :: y in files <==> y in years
    ensures forall y :: y in files && y !in dirs ==> files[y] == YearFiles(None, None)
    ensures forall y :: y in files && y in dirs ==>
      files[y] == YearFiles(SlotFile(FinancialStatementSlot, y, dirs[y]), SlotFile(TrialBalanceSlot, y, dirs[y]))
  {
    map y | y in years :: YearSlots(y, if y in dirs then dirs[y] else [])
  }

  /**
   * `projectFiles[year]?.["Financial Statement"]`: `undefined` when the map
   * has no entry for the year, `null` for an empty slot, the name otherwise.
   */
  function FinancialStatementField(files: map<string, YearFiles>, year: string): (v: JsValue)
    ensures v == Undefined <==> year !in files
    ensures v == Null <==> year in files && files[year].financialStatement.None?
    ensures v.Str? <==> year in files && files[year].financialStatement.Some?
    ensures v.Str? ==> v.s == files[year].financialStatement.value
  {
    if year !in files then Undefined
    else match files[year].financialStatement
      case None => Null
      case Some(name) => Str(name)
  }

  /**
   * The Process button of a year is enabled when
   * `!projectFiles[year]?.["Financial Statement"]` is false: the map has an
   * entry for the year whose Financial Statement name is set and non-empty.
   */
  function ProcessEnabled(files: map<string, YearFiles>, year: string): (enabled: bool)
    ensures enabled <==>
      year in files && files[year].financialStatement.Some? && files[year].financialStatement.value != ""
  {
    IsTruthy(FinancialStatementField(files, year))
  }

  /**
   * For a map built by `get_project_files`, Process is enabled exactly when
   * the year belongs to the project and its directory holds a name matching
   * `financial_report_{year}.*`.
   */
  lemma ProcessEnabledIff(years: seq<string>, dirs: map<string, seq<string>>, year: string)
    ensures ProcessEnabled(ProjectFiles(years, dirs), year) <==>
      year in years && year in dirs &&
      exists n :: n in dirs[year] && Matches(n, SlotPattern(FinancialStatementSlot, year))
  {
  }

  /**
   * Once a Financial Statement upload for a project year has been stored in
   * that year's directory, the year's Process button is enabled.
   */
  lemma UploadEnablesProcess(years: seq<string>, dirs: map<string, seq<string>>, year: string, filename: string)
    requires year in years && year in dirs
    requires UploadTarget(FinancialStatementType, year, filename).Success?
    requires UploadTarget(FinancialStatementType, year, filename).value.name in dirs[year]
    ensures ProcessEnabled(ProjectFiles(years, dirs), year)
  {
  }

  /**
   * A Trial Balance alone never enables Process: with no name matching the
   * Financial Statement pattern, the button stays disabled.
   */
  lemma TrialBalanceAloneDisabled(years: seq<string>, dirs: map<string, seq<string>>, year: string)
    requires year in dirs
    requires forall n :: n in dirs[year] ==> !Matches(n, SlotPattern(FinancialStatementSlot, year))
    ensures !ProcessEnabled(ProjectFiles(years, dirs), year)
  {
    ProcessEnabledIff(years, dirs, year);
  }

  // ---------------------------------------------------------------------
  // Value cells of an extracted statement
  // ---------------------------------------------------------------------

  /** The JavaScript values a row's `value` or `is_header` field can hold. */
  datatype JsValue =
    | Undefined
    | Null
    | Bool(b: bool)
    | Number(n: real)
    | Str(s: string)

  /** JavaScript truthiness (NaN is not modelled). */
  predicate IsTruthy(v: JsValue) {
    match v
    case Undefined => false
    case Null => false
    case Bool(b) => b
    case Number(n) => n != 0.0
    case Str(s) => s != ""
  }

  /**
   * The value the cell expression produces: the empty string, `undefined`
   * (from the optional chain on a missing value), or the locale formatting
   * of the value.
   */
  datatype CellOutput = EmptyText | UndefinedText | Formatted(value: JsValue)

  /**
   * React renders nothing for the empty string and for `undefined`; a
   * string value formats as itself, so an empty one renders nothing too.
   */
  predicate RendersSomething(o: CellOutput) {
    o.Formatted? && o.value != Str("")
  }

  /**
   * `row.value === 0 && row.is_header ? '' : row.value?.toLocaleString()`.
   * The cell shows nothing exactly when the value is a zero on a header row,
   * is missing or is the empty string; whatever it shows is the row's own
   * value.
   */
  function ValueCell(value: JsValue, isHeader: JsValue): (o: CellOutput)
    ensures !RendersSomething(o) <==>
      (value == Number(0.0) && IsTruthy(isHeader)) || value == Undefined || value == Null || value == Str("")
    ensures RendersSomething(o) ==> o.value == value
  {
    if value == Number(0.0) && IsTruthy(isHeader) then EmptyText
    else if value.Undefined? || value.Null? then UndefinedText
    else Formatted(value)
  }
}
