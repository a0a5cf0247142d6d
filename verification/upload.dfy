/**
 * The backend's handling of uploaded documents: which file names it
 * accepts, the name it stores an upload under, the glob pattern it deletes
 * and lists by, and the per-year file slots it reports to the frontend.
 */
module Upload {
  import opened Wrappers
  import opened Text

  /** The extensions an upload may carry, compared in lower case. */
  const AllowedExtensions: set<string> := {"pdf", "xlsx", "xls", "csv", "docx", "doc"}

  /** The two document types the frontend sends. */
  const FinancialStatementType: string := "Financial Statement"
  const TrialBalanceType: string := "Trial Balance"

  // ---------------------------------------------------------------------
  // Extension validation
  // ---------------------------------------------------------------------

  /** Index of the last '.' in `s`, if any. */
  function LastDot(s: string): (r: Option<nat>)
    ensures r.Some? ==> r.value < |s| && s[r.value] == '.'
    ensures r.Some? ==> forall k :: r.value < k < |s| ==> s[k] != '.'
    ensures r.None? ==> forall k :: 0 <= k < |s| ==> s[k] != '.'
  {
    if |s| == 0 then None
    else if s[|s| - 1] == '.' then Some(|s| - 1)
    else LastDot(s[..|s| - 1])
  }

  /**
   * `filename.rsplit('.', 1)[1]`: defined exactly when the name holds a dot,
   * and then the dot-free tail after the last one.
   */
  function Extension(filename: string): (r: Option<string>)
    ensures r.None? <==> forall k :: 0 <= k < |filename| ==> filename[k] != '.'
    ensures r.Some? ==> |r.value| < |filename| && filename[|filename| - |r.value| - 1] == '.'
    ensures r.Some? ==> r.value == filename[|filename| - |r.value|..]
    ensures r.Some? ==> forall k :: 0 <= k < |r.value| ==> r.value[k] != '.'
  {
    match LastDot(filename)
    case None => None
    case Some(k) => Some(filename[k + 1..])
  }

  /**
   * `allowed_file`: the name holds a dot and the text after its last dot,
   * lower-cased, is one of the allowed extensions.
   */
  function AllowedFile(filename: string): (ok: bool)
    ensures (forall k :: 0 <= k < |filename| ==> filename[k] != '.') ==> !ok
    ensures ok ==> exists k :: 0 <= k < |filename| && filename[k] == '.' && Lower(filename[k + 1..]) in AllowedExtensions
  {
    match Extension(filename)
    case None => false
    case Some(e) => Lower(e) in AllowedExtensions
  }

  /** The extension of `base.ext` is `ext` whenever `ext` holds no dot. */
  lemma ExtensionOfJoin(base: string, ext: string)
    requires forall k :: 0 <= k < |ext| ==> ext[k] != '.'
    ensures Extension(base + "." + ext) == Some(ext)
  {
    var s := base + "." + ext;
    assert s[|base|] == '.';
    assert forall k :: |base| < k < |s| ==> s[k] == ext[k - |base| - 1];
    assert LastDot(s) == Some(|base|);
    assert s[|base| + 1..] == ext;
  }

  /**
   * A name made of any base, a dot and a dot-free extension is accepted
   * exactly when that extension, lower-cased, is allowed.
   */
  lemma AllowedFileJoin(base: string, ext: string)
    requires forall k :: 0 <= k < |ext| ==> ext[k] != '.'
    ensures AllowedFile(base + "." + ext) <==> Lower(ext) in AllowedExtensions
  {
    ExtensionOfJoin(base, ext);
  }

  /** Lower-casing a character never creates or removes a dot. */
  lemma LowerKeepsDots(s: string)
    ensures forall k :: 0 <= k < |s| ==> (Lower(s)[k] == '.' <==> s[k] == '.')
  {
  }

  /** Two names of one length with their dots in the same places have the same last dot. */
  lemma LastDotSameDots(s: string, t: string)
    requires |s| == |t|
    requires forall k :: 0 <= k < |s| ==> (s[k] == '.' <==> t[k] == '.')
    ensures LastDot(s) == LastDot(t)
  {
  }

  /** `allowed_file` ignores case: a name and its lower-cased form are judged alike. */
  lemma AllowedFileIgnoresCase(filename: string)
    ensures AllowedFile(Lower(filename)) == AllowedFile(filename)
  {
    var l := Lower(filename);
    assert LastDot(l) == LastDot(filename) by {
      LowerKeepsDots(filename);
      LastDotSameDots(filename, l);
    }
    match LastDot(filename)
    case None =>
      assert Extension(l) == None && Extension(filename) == None;
    case Some(k) =>
      var e := filename[k + 1..];
      assert Extension(filename) == Some(e);
      assert Extension(l) == Some(Lower(e)) by {
        LowerSuffix(filename, k + 1);
      }
      LowerIdempotent(e);
  }

  // ---------------------------------------------------------------------
  // Stored names and glob patterns
  // ---------------------------------------------------------------------

  /** The two per-year file slots of a project. */
  datatype Slot = FinancialStatementSlot | TrialBalanceSlot

  function SlotPrefix(slot: Slot): string {
    match slot
    case FinancialStatementSlot => "financial_report_"
    case TrialBalanceSlot => "TB_"
  }

  /** The on-disk name of a `slot` upload for `year`: `financial_report_{year}.{ext}` or `TB_{year}.{ext}`. */
  function StoredName(slot: Slot, year: string, ext: string): string {
    SlotPrefix(slot) + year + "." + ext
  }

  /**
   * The glob `financial_report_{year}.*` or `TB_{year}.*`, represented by
   * the literal prefix a name must start with to match it.
   */
  function SlotPattern(slot: Slot, year: string): string {
    SlotPrefix(slot) + year + "."
  }

  /** `name` matches the glob `pattern*` (the year holds no glob metacharacters). */
  predicate Matches(name: string, pattern: string) {
    |pattern| <= |name| && name[..|pattern|] == pattern
  }

  /** Where an accepted upload is saved. */
  datatype SaveName =
    | Fixed(name: string)              // a slot name chosen by the backend
    | SecureOriginal(filename: string) // `secure_filename` of the client's name

  datatype UploadError = InvalidFile

  /**
   * The naming step of `upload_file`: a rejected name is an error; a
   * Financial Statement or Trial Balance is stored under its slot name with
   * the lower-cased extension; any other document type keeps its own
   * (sanitised) name.
   */
  function UploadTarget(docType: string, year: string, filename: string): (r: Result<SaveName, UploadError>)
    ensures r.Success? <==> AllowedFile(filename)
    ensures r.Success? && docType == FinancialStatementType ==>
      r.value.Fixed? && Matches(r.value.name, SlotPattern(FinancialStatementSlot, year))
    ensures r.Success? && docType == TrialBalanceType ==>
      r.value.Fixed? && Matches(r.value.name, SlotPattern(TrialBalanceSlot, year))
    ensures r.Success? && r.value.Fixed? ==>
      Extension(r.value.name) == Some(Lower(Extension(filename).value))
    ensures r.Success? && r.value.Fixed? ==>
      r.value.name == SlotPattern(if docType == FinancialStatementType then FinancialStatementSlot else TrialBalanceSlot, year)
                      + Lower(Extension(filename).value)
    ensures r.Success? && docType != FinancialStatementType && docType != TrialBalanceType ==>
      r.value == SecureOriginal(filename)
  {
    if !AllowedFile(filename) then Failure(InvalidFile)
    else
      var ext := Lower(Extension(filename).value);
      assert forall k :: 0 <= k < |ext| ==> ext[k] != '.';
      if docType == FinancialStatementType then
        ExtensionOfJoin(SlotPrefix(FinancialStatementSlot) + year, ext);
        Success(Fixed(StoredName(FinancialStatementSlot, year, ext)))
      else if docType == TrialBalanceType then
        ExtensionOfJoin(SlotPrefix(TrialBalanceSlot) + year, ext);
        Success(Fixed(StoredName(TrialBalanceSlot, year, ext)))
      else
        Success(SecureOriginal(filename))
  }

  /**
   * Uploading a stored file again, into the same slot and year, stores it
   * under the same name: the slot naming is a normal form.
   */
  lemma {:induction false} ReuploadKeepsName(docType: string, year: string, filename: string)
    requires docType == FinancialStatementType || docType == TrialBalanceType
    requires UploadTarget(docType, year, filename).Success?
    ensures UploadTarget(docType, year, UploadTarget(docType, year, filename).value.name)
         == UploadTarget(docType, year, filename)
  {
    var ext := Lower(Extension(filename).value);
    var slot := if docType == FinancialStatementType then FinancialStatementSlot else TrialBalanceSlot;
    var n := StoredName(slot, year, ext);
    assert UploadTarget(docType, year, filename).value.name == n;
    assert forall k :: 0 <= k < |ext| ==> ext[k] != '.';
    ExtensionOfJoin(SlotPrefix(slot) + year, ext);
    LowerIdempotent(Extension(filename).value);
    assert Extension(n) == Some(ext);
    assert AllowedFile(n);
  }

  /**
   * The slot `delete_file` removes from: a Financial Statement request
   * targets the financial report, and every other document type falls back
   * to the Trial Balance.
   */
  function DeleteSlot(docType: string): (slot: Slot)
    ensures slot == FinancialStatementSlot <==> docType == FinancialStatementType
  {
    if docType == FinancialStatementType then FinancialStatementSlot else TrialBalanceSlot
  }

  /** Index of the first name in `listing`, from `from` on, that matches `pattern`. */
  function FirstMatch(listing: seq<string>, pattern: string, from: nat): (r: Option<nat>)
    decreases |listing| - from
    ensures r.Some? ==> from <= r.value < |listing| && Matches(listing[r.value], pattern)
    ensures r.Some? ==> forall j :: from <= j < r.value ==> !Matches(listing[j], pattern)
    ensures r.None? ==> forall j :: from <= j < |listing| ==> !Matches(listing[j], pattern)
  {
    if from >= |listing| then None
    else if Matches(listing[from], pattern) then Some(from)
    else FirstMatch(listing, pattern, from + 1)
  }

  datatype DeleteError = NotFound

  /**
   * The file `delete_file` removes from a year directory whose names, in
   * glob order, are `listing`: the first that matches the slot's pattern
   * (`files[0]`).
   */
  function DeleteTarget(docType: string, year: string, listing: seq<string>): (r: Result<string, DeleteError>)
    ensures r.Success? ==> r.value in listing && Matches(r.value, SlotPattern(DeleteSlot(docType), year))
    ensures r.Success? ==> exists i :: (0 <= i < |listing| && r.value == listing[i] &&
      forall j :: 0 <= j < i ==> !Matches(listing[j], SlotPattern(DeleteSlot(docType), year)))
    ensures r.Failure? <==> forall n :: n in listing ==> !Matches(n, SlotPattern(DeleteSlot(docType), year))
  {
    match FirstMatch(listing, SlotPattern(DeleteSlot(docType), year), 0)
    case None => Failure(NotFound)
    case Some(i) => Success(listing[i])
  }

  /**
   * A Financial Statement or Trial Balance stored by an upload is found by
   * a later delete request of the same type and year.
   */
  lemma UploadThenDelete(docType: string, year: string, filename: string, listing: seq<string>)
    requires docType == FinancialStatementType || docType == TrialBalanceType
    requires UploadTarget(docType, year, filename).Success?
    requires UploadTarget(docType, year, filename).value.name in listing
    ensures DeleteTarget(docType, year, listing).Success?
  {
  }

  /** A file stored in one slot never matches the other slot's pattern, for any years. */
  lemma SlotsDoNotCross(slot: Slot, other: Slot, year: string, otherYear: string, ext: string)
    requires slot != other
    ensures !Matches(StoredName(slot, year, ext), SlotPattern(other, otherYear))
  {
    var n := StoredName(slot, year, ext);
    var p := SlotPattern(other, otherYear);
    assert n[0] == SlotPrefix(slot)[0] && p[0] == SlotPrefix(other)[0];
  }

  /** With dot-free years, a stored file matches only its own year's pattern. */
  lemma YearsDoNotCross(slot: Slot, year: string, otherYear: string, ext: string)
    requires forall k :: 0 <= k < |year| ==> year[k] != '.'
    requires forall k :: 0 <= k < |otherYear| ==> otherYear[k] != '.'
    requires Matches(StoredName(slot, year, ext), SlotPattern(slot, otherYear))
    ensures year == otherYear
  {
    var pre := SlotPrefix(slot);
    var n := StoredName(slot, year, ext);
    var p := SlotPattern(slot, otherYear);
    assert forall k :: 0 <= k < |year| ==> n[|pre| + k] == year[k];
    assert n[|pre| + |year|] == '.';
    assert forall k :: 0 <= k < |otherYear| ==> p[|pre| + k] == otherYear[k];
    assert p[|pre| + |otherYear|] == '.';
    assert forall k :: 0 <= k < |p| ==> n[k] == p[k];
    assert |year| == |otherYear|;
    assert forall k :: 0 <= k < |year| ==> year[k] == otherYear[k];
  }

  // ---------------------------------------------------------------------
  // Per-year file slots
  // ---------------------------------------------------------------------

  /** The file names `get_project_files` reports for one year; `None` is JSON `null`. */
  datatype YearFiles = YearFiles(financialStatement: Option<string>, trialBalance: Option<string>)

  /** The name in `listing` the first match of a slot's pattern picks, if any. */
  function SlotFile(slot: Slot, year: string, listing: seq<string>): (r: Option<string>)
    ensures r.Some? ==> r.value in listing && Matches(r.value, SlotPattern(slot, year))
    ensures r.Some? ==> exists i :: (0 <= i < |listing| && r.value == listing[i] &&
      forall j :: 0 <= j < i ==> !Matches(listing[j], SlotPattern(slot, year)))
    ensures r.None? <==> forall n :: n in listing ==> !Matches(n, SlotPattern(slot, year))
  {
    match FirstMatch(listing, SlotPattern(slot, year), 0)
    case None => None
    case Some(i) => Some(listing[i])
  }

  /** The entry `get_project_files` reports for a year whose directory lists `listing`. */
  function YearSlots(year: string, listing: seq<string>): YearFiles {
    YearFiles(SlotFile(FinancialStatementSlot, year, listing), SlotFile(TrialBalanceSlot, year, listing))
  }
}
