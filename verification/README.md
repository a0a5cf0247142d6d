# Financial statement extraction workbench: a Dafny model of its pure core

The system lets a user create a project for a company and a span of fiscal
years, upload a Financial Statement and a Trial Balance for each year, and
have a language model extract the statements from the report. This project
models the deterministic logic around those steps and proves properties of
it:

- **Reply cleaning** (`JsonFence`, with the string helpers in `Text`). The
  backend's `clean_json_string` cuts the JSON body out of the model's reply.
  It takes the first block tagged ```` ```json ````, else the first plain
  fence, else the whole reply, and strips the surrounding whitespace.
  Python's `split(sep)[0]` and `split(sep)[1]` are modelled for a
  non-empty separator, and `strip` with the exact `isspace` set.
- **Page selection** (`PageFilter`). Before extraction, `create_filtered_pdf`
  keeps the pages that carry a statement header and every page from the
  start of the notes on. A page without text is skipped. When nothing
  matches, every page is kept. The result is sorted. A PDF is given as the
  text of its pages; the empty string stands for a page without text.
- **Uploads and stored files** (`Upload`). This covers the extension test
  `allowed_file` and the name an upload is stored under. It also covers the
  glob pattern `delete_file` removes by, and the per-year slots
  `get_project_files` reports.
- **Fiscal-year range** (`YearRange`, with `JsNumber` for JavaScript's
  `parseInt` and `String`). The set-up form turns the start and end year
  fields into the list of year strings.
- **Project view** (`ProjectView`). This holds the file map the frontend
  receives, when a year's Process button is enabled, and how a value cell of
  an extracted statement renders.

`Wrappers` holds the `Option` and `Result` types.

## Model

| member | source | states |
|---|---|---|
| `Text.SplitFirst` | backend/app.py:42 | `split(sep)[0]` is the prefix before the first separator, or the whole text when there is none; it never contains the separator |
| `Text.SplitSecond` | backend/app.py:42 | `split(sep)[1]` starts right after the first separator and runs to the next separator or the end, with no separator inside |
| `Text.Strip` | backend/app.py:45 | `strip()` returns a contiguous slice of its input with no whitespace at either end, and everything it drops on either side is whitespace |
| `Text.Lower` | backend/app.py:38 | `lower()` keeps the length, maps each upper-case ASCII letter to its lower-case letter and keeps every other character |
| `Text.StripKeepsAbsent` | backend/app.py:45 | stripping never introduces a pattern its input lacked |
| `JsonFence.FencedText` | backend/app.py:41-44 | the text cut out between fences holds no fence whenever the reply has one; a reply without a fence is left as it is |
| `JsonFence.CleanJsonString` | backend/app.py:40-45 | the cleaned reply is trimmed; it is fence-free whenever the reply held a fence; a reply without a fence is only stripped |
| `JsonFence.CleanTaggedBlock` | backend/app.py:41-42 | for the first ```` ```json ```` at `i` and the next fence at `k` (or the end), the result is the stripped text between them, provided no further ```` ```json ```` starts one or two characters after `k` |
| `JsonFence.CleanPlainBlock` | backend/app.py:43-44 | with no tagged fence, the result is the stripped text between the first fence and the next one (or the end) |
| `JsonFence.CleanIdempotent` | backend/app.py:40-45 | cleaning a cleaned reply changes nothing |
| `JsonFence.LongClosingFenceAsWritten` | backend/app.py:41-42 | for every non-empty trimmed body without backticks, the reply ```` ```json{body}````json ```` cleans to the body plus a stray backtick |
| `JsonFence.CleanJsonStringIntended` | backend/app.py:40-45 | the corrected cleaning has the same three guarantees as the original |
| `JsonFence.IntendedTaggedBlock` | backend/app.py:41-42 | the corrected cleaning returns the stripped text between the first tag and the next fence, however that fence is followed |
| `JsonFence.LongClosingFenceIntended` | backend/app.py:41-42 | on the same replies the corrected cleaning returns exactly the body |
| `JsonFence.IntendedIdempotent` | backend/app.py:40-45 | the corrected cleaning is idempotent |
| `Upload.Extension` | backend/app.py:38 | `rsplit('.', 1)[1]` exists exactly when the name holds a dot, and is then the dot-free tail after the last dot |
| `Upload.AllowedFile` | backend/app.py:37-38 | a name without a dot is rejected; an accepted name has a dot followed by an allowed extension in lower case |
| `Upload.AllowedFileJoin` | backend/app.py:37-38 | `base.ext`, for a dot-free `ext`, is accepted exactly when `ext` in lower case is one of pdf, xlsx, xls, csv, docx, doc |
| `Upload.AllowedFileIgnoresCase` | backend/app.py:37-38 | a name and its lower-cased form get the same verdict |
| `Upload.UploadTarget` | backend/app.py:260-264 | an upload is accepted exactly when its name is allowed. A Financial Statement or Trial Balance is stored under exactly its slot's pattern for that year followed by the lower-cased extension. Any other type keeps its own name |
| `Upload.ReuploadKeepsName` | backend/app.py:261-263 | uploading a stored file again into the same slot and year stores it under the same name |
| `Upload.DeleteSlot` | backend/app.py:292 | the Financial Statement pattern is used exactly for Financial Statement requests; everything else falls back to the Trial Balance pattern |
| `Upload.DeleteTarget` | backend/app.py:291-297 | the removed file is the first listed name that matches the slot pattern; "not found" happens exactly when no listed name matches |
| `Upload.UploadThenDelete` | backend/app.py:260-297 | a Financial Statement or Trial Balance stored by an upload is found by a delete of the same type and year |
| `Upload.SlotsDoNotCross` | backend/app.py:262-263 | a file stored in one slot never matches the other slot's pattern |
| `Upload.YearsDoNotCross` | backend/app.py:262-263 | with dot-free years, a stored file matches only its own year's pattern |
| `Upload.SlotFile` | backend/app.py:280-284 | a reported slot file is the first listed name that matches the slot's pattern; the slot is empty exactly when none matches |
| `PageFilter.ScanNotesFlag` | backend/app.py:75-89 | after the loop has seen `n` pages, the notes flag is set exactly when some earlier page with text opened the notes |
| `PageFilter.ScanKeepsWanted` | backend/app.py:75-93 | the loop keeps a page exactly when it has text and the notes had started, or it opens the notes, or it carries a statement header |
| `PageFilter.AllPages` | backend/app.py:96-97 | the fallback set holds exactly the indices below the page count |
| `PageFilter.Ascending` | backend/app.py:100 | the sorted list holds exactly the chosen indices below `n`, strictly ascending; choosing all of them gives `0, 1, …, n-1` |
| `PageFilter.SelectPages` | backend/app.py:71-100 | the kept indices are in range and strictly ascending. When some page is wanted they are exactly the wanted pages; otherwise they are every page in order |
| `PageFilter.ScanPages` | backend/app.py:71-93 | the loop computes the same state as the page-by-page scan |
| `PageFilter.SortIndices` | backend/app.py:100 | walking the indices in order and collecting the kept ones gives the sorted list |
| `PageFilter.CreateFilteredPdf` | backend/app.py:71-100 | the method keeps the pages `SelectPages` describes, in the same order |
| `PageFilter.NotesTailKept` | backend/app.py:81-83 | once a page has opened the notes, every later page with text is kept, whatever it says |
| `PageFilter.EmptyPageDropped` | backend/app.py:77 | when anything is wanted, a page without text is dropped, even inside the notes |
| `PageFilter.BeforeNotesKeptIffHeader` | backend/app.py:86-93 | before the notes start, and when anything is wanted, a page is kept exactly when it has text and carries a notes or statement header |
| `JsNumber.ParseIntSpec` | frontend/src/App.jsx:287-288 | `parseInt` returns a number only if the text holds a decimal digit; the number is negative only after a leading minus; text whose first non-blank character is a digit outside a `0x` prefix always parses; an all-digit string parses to its decimal value |
| `JsNumber.IntToStringShape` | frontend/src/App.jsx:290 | `String(n)` starts with a minus sign exactly when `n` is negative, followed by decimal digits that start with `0` only for zero |
| `JsNumber.ParseIntOfString` | frontend/src/App.jsx:287-290 | `parseInt(String(n))` is `n` for every integer |
| `JsNumber.IntToStringInjective` | frontend/src/App.jsx:290 | distinct years have distinct strings |
| `YearRange.RangeYears` | frontend/src/App.jsx:285-293 | for parsed bounds with start ≤ end, the list has `end - start + 1` entries and entry `k` is `String(start + k)`; for a missing (NaN) bound or start > end it is empty |
| `YearRange.RangeYearsDistinct` | frontend/src/App.jsx:290 | no year string is selected twice |
| `YearRange.RangeYearsReadBack` | frontend/src/App.jsx:287-290 | entry `k` reads back through `parseInt` as start + `k` |
| `YearRange.RangeYearsConsecutive` | frontend/src/App.jsx:290 | consecutive entries read back as years exactly one apart |
| `YearRange.FirstAndLastYear` | frontend/src/App.jsx:290 | a non-empty list starts with `String(start)` and ends with `String(end)` |
| `YearRange.ListYears` | frontend/src/App.jsx:290 | the loop pushes `String(i)` for `i` from start to end |
| `YearRange.ComputeSelectedYears` | frontend/src/App.jsx:285-293 | the effect computes the selected years from the two fields as `RangeYears` of their parsed values |
| `ProjectView.ProjectFiles` | backend/app.py:276-284 | the map has an entry for exactly the project's years; a year without a directory has both slots empty; a year with one reports, for each slot, the first name in its listing that matches the slot's pattern |
| `ProjectView.FinancialStatementField` | frontend/src/App.jsx:502 | the optional chain gives `undefined` for a year the map lacks, `null` for an empty slot and the stored name otherwise |
| `ProjectView.ProcessEnabled` | frontend/src/App.jsx:502 | Process is enabled exactly when the map has the year and its Financial Statement name is set and non-empty |
| `ProjectView.ProcessEnabledIff` | frontend/src/App.jsx:502 | Process is enabled exactly when the year belongs to the project and its directory holds a name matching `financial_report_{year}.*` |
| `ProjectView.UploadEnablesProcess` | frontend/src/App.jsx:502 | a stored Financial Statement upload enables its year's Process button |
| `ProjectView.TrialBalanceAloneDisabled` | frontend/src/App.jsx:502 | without a Financial Statement file, Process stays disabled whatever else is stored |
| `ProjectView.ValueCell` | frontend/src/App.jsx:58 | a cell renders nothing exactly when its value is a zero on a header row, missing, or the empty string; otherwise it renders the row's own value |

## Left out

- PDF reading and writing (pypdf), the language-model call, Flask routing, JSON parsing, file-system access and React rendering are not modelled. Pages are given as their extracted text, and a directory as the list of its names.
- The order in which `glob` lists a directory is a parameter (`listing`). Glob metacharacters inside a year are not modelled: the pattern `X_{year}.*` is treated as "starts with `X_{year}.`".
- Lower-casing covers ASCII letters only. Python's full Unicode `lower()` is not modelled. No header or allowed extension contains a character whose full lower-casing differs from the ASCII one in a way that changes a verdict.
- `secure_filename` is not modelled. Other document types keep the client's name in the model (`SecureOriginal`).
- Missing form fields and exceptions in the routes (the 400 and 500 replies) are not modelled. The only error paths modelled are "Invalid file" on upload and "Not found" on delete.
- `parseInt` is modelled on mathematical integers. Precision loss above 2^53 and the exponent notation `String` uses for huge numbers are not modelled, and neither is `-0`.
- `toLocaleString` formatting is not modelled: a shown cell carries the value, not its formatted text. NaN values are not modelled.
- Project creation, listing and the extraction route (`initialize_project`, `get_projects`, `extract_data`) are not part of this model.
- `split` with an empty separator, which raises `ValueError` in Python, is not modelled: the code only splits on the non-empty fences, and `SplitFirst(s, "")` simply returns `""`.

## Findings

| source | as written | input that shows it | evidently intended | confidence | as-written member | corrected member |
|---|---|---|---|---|---|---|
| backend/app.py:41-42 | the body is cut at the next ```` ```json ```` and then at the first fence in that piece. A closing fence of four backticks running into `json` makes the next tag start one character into the fence, so the cut keeps one backtick | ```` ```json{a}````json ```` cleans to ```` {a}` ```` | the body between the opening tag and the next fence, `{a}` | low, not executed | `JsonFence.LongClosingFenceAsWritten` | `JsonFence.LongClosingFenceIntended` |
