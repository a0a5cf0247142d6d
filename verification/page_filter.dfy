/**
 * The page selection of `create_filtered_pdf`: before a report is sent for
 * extraction, the backend keeps only the pages that carry a financial
 * statement header, plus every page from the start of the notes on, and
 * falls back to the whole document when nothing matched. Pages are given
 * as their extracted text; the empty string stands for a page without text.
 */
module PageFilter {
  import opened Text

  /** Headers that mark a primary financial statement page. */
  const FinancialHeaders: seq<string> := [
    "statement of financial position", "balance sheet",
    "statement of profit or loss", "comprehensive income", "income statement",
    "statement of changes in equity",
    "statement of cash flows", "cash flows"
  ]

  /** Headers that mark the start of the notes. */
  const NotesHeaders: seq<string> := ["notes to the financial statements"]

  /** Python's `any(h in text for h in headers)`. */
  predicate AnyHeader(text: string, headers: seq<string>) {
    exists h :: h in headers && Contains(text, h)
  }

  predicate IsNotesStart(text: string) {
    AnyHeader(Lower(text), NotesHeaders)
  }

  predicate IsStatementPage(text: string) {
    AnyHeader(Lower(text), FinancialHeaders)
  }

  // ---------------------------------------------------------------------
  // The scan as a state machine
  // ---------------------------------------------------------------------

  /** The loop state: whether the notes have started, and the pages kept so far. */
  datatype ScanState = ScanState(inNotes: bool, kept: set<nat>)

  /** One iteration of the scan, over page `i` whose text is `text`. */
  function Step(st: ScanState, i: nat, text: string): ScanState {
    if text == "" then st
    else if st.inNotes then st.(kept := st.kept + {i})
    else if IsNotesStart(text) then ScanState(true, st.kept + {i})
    else if IsStatementPage(text) then st.(kept := st.kept + {i})
    else st
  }

  /** The state after scanning the first `n` pages. */
  function Scan(pages: seq<string>, n: nat): ScanState
    requires n <= |pages|
  {
    if n == 0 then ScanState(false, {}) else Step(Scan(pages, n - 1), n - 1, pages[n - 1])
  }

  // ---------------------------------------------------------------------
  // Which pages are wanted, stated page by page
  // ---------------------------------------------------------------------

  /** Some page before `i` has text and opens the notes. */
  predicate NotesBefore(pages: seq<string>, i: nat)
    requires i <= |pages|
  {
    exists j :: 0 <= j < i && pages[j] != "" && IsNotesStart(pages[j])
  }

  /**
   * Page `i` is wanted when it has text and either the notes have already
   * started, or it opens the notes, or it carries a statement header.
   */
  predicate Wanted(pages: seq<string>, i: nat)
    requires i < |pages|
  {
    pages[i] != "" && (NotesBefore(pages, i) || IsNotesStart(pages[i]) || IsStatementPage(pages[i]))
  }

  /** The scan's flag records whether some page so far has opened the notes. */
  lemma {:induction false} ScanNotesFlag(pages: seq<string>, n: nat)
    requires n <= |pages|
    ensures Scan(pages, n).inNotes == NotesBefore(pages, n)
  {
    if n > 0 {
      ScanNotesFlag(pages, n - 1);
      var i := n - 1;
      if pages[i] != "" && IsNotesStart(pages[i]) {
        assert NotesBefore(pages, n);
      }
      if NotesBefore(pages, n) {
        var j :| 0 <= j < n && pages[j] != "" && IsNotesStart(pages[j]);
        if j < i {
          assert NotesBefore(pages, i);
        }
      }
    }
  }

  /** The scan keeps exactly the wanted pages. */
  lemma {:induction false} ScanKeepsWanted(pages: seq<string>, n: nat)
    requires n <= |pages|
    ensures forall i: nat :: i in Scan(pages, n).kept <==> i < n && Wanted(pages, i)
  {
    if n > 0 {
      ScanKeepsWanted(pages, n - 1);
      ScanNotesFlag(pages, n - 1);
    }
  }

  /** Every page index below `n`: Python's `set(range(n))`. */
  function AllPages(n: nat): (r: set<nat>)
    ensures forall i: nat :: i in r <==> i < n
  {
    if n == 0 then {} else AllPages(n - 1) + {n - 1}
  }

  /** The indices below `n` that are in `chosen`, in ascending order: Python's `sorted`. */
  function Ascending(chosen: set<nat>, n: nat): (r: seq<nat>)
    ensures forall k :: 0 <= k < |r| ==> r[k] < n && r[k] in chosen
    ensures forall i: nat :: i < n && i in chosen ==> i in r
    ensures forall k, l :: 0 <= k < l < |r| ==> r[k] < r[l]
    ensures (forall i: nat :: i < n ==> i in chosen) ==> |r| == n && forall k :: 0 <= k < n ==> r[k] == k
  {
    if n == 0 then [] else Ascending(chosen, n - 1) + (if n - 1 in chosen then [n - 1] else [])
  }

  /**
   * The page indices `create_filtered_pdf` keeps, in ascending order: the
   * wanted pages, or every page when none is wanted.
   */
  function SelectPages(pages: seq<string>): (r: seq<nat>)
    ensures forall k :: 0 <= k < |r| ==> r[k] < |pages|
    ensures forall k, l :: 0 <= k < l < |r| ==> r[k] < r[l]
    ensures (exists i :: 0 <= i < |pages| && Wanted(pages, i)) ==>
      forall i: nat :: i < |pages| ==> (i in r <==> Wanted(pages, i))
    ensures (forall i :: 0 <= i < |pages| ==> !Wanted(pages, i)) ==>
      |r| == |pages| && forall k :: 0 <= k < |r| ==> r[k] == k
  {
    ScanKeepsWanted(pages, |pages|);
    var kept := Scan(pages, |pages|).kept;
    var chosen := if kept == {} then AllPages(|pages|) else kept;
    Ascending(chosen, |pages|)
  }

  /** The loop of `create_filtered_pdf` over the pages' text. */
  method ScanPages(pages: seq<string>) returns (foundNotesStart: bool, pagesToKeep: set<nat>)
    ensures ScanState(foundNotesStart, pagesToKeep) == Scan(pages, |pages|)
  {
    pagesToKeep := {};
    foundNotesStart := false;
    var i := 0;
    while i < |pages|
      invariant i <= |pages|
      invariant ScanState(foundNotesStart, pagesToKeep) == Scan(pages, i)
    {
      ghost var before := ScanState(foundNotesStart, pagesToKeep);
      var pageText := pages[i];
      if pageText != "" {
        var lowerText := Lower(pageText);
        if foundNotesStart {
          pagesToKeep := pagesToKeep + {i};
        } else if AnyHeader(lowerText, NotesHeaders) {
          foundNotesStart := true;
          pagesToKeep := pagesToKeep + {i};
        } else if AnyHeader(lowerText, FinancialHeaders) {
          pagesToKeep := pagesToKeep + {i};
        }
      }
      assert ScanState(foundNotesStart, pagesToKeep) == Step(before, i, pageText);
      i := i + 1;
    }
  }

  /**
   * `sorted(pages_to_keep)` for a set of indices below `n`: walking the
   * indices in order and picking the kept ones.
   */
  method SortIndices(chosen: set<nat>, n: nat) returns (sorted: seq<nat>)
    ensures sorted == Ascending(chosen, n)
  {
    sorted := [];
    var p := 0;
    while p < n
      invariant p <= n
      invariant sorted == Ascending(chosen, p)
    {
      if p in chosen {
        sorted := sorted + [p];
      }
      p := p + 1;
    }
  }

  /**
   * `create_filtered_pdf` without the PDF reading and writing: the same
   * loop over the pages, the same fallback and the same sort.
   */
  method CreateFilteredPdf(pages: seq<string>) returns (sortedPages: seq<nat>)
    ensures sortedPages == SelectPages(pages)
  {
    var foundNotesStart, pagesToKeep := ScanPages(pages);
    if pagesToKeep == {} {
      pagesToKeep := AllPages(|pages|);
    }
    sortedPages := SortIndices(pagesToKeep, |pages|);
  }

  // ---------------------------------------------------------------------
  // Consequences
  // ---------------------------------------------------------------------

  /**
   * Once a page with text has opened the notes, every later page with text
   * is kept, whatever it says.
   */
  lemma NotesTailKept(pages: seq<string>, j: nat, i: nat)
    requires j < i < |pages|
    requires pages[j] != "" && IsNotesStart(pages[j])
    requires pages[i] != ""
    ensures i in SelectPages(pages)
  {
  }

  /**
   * A page without text is dropped, even inside the notes, unless the
   * fallback keeps every page.
   */
  lemma EmptyPageDropped(pages: seq<string>, i: nat, w: nat)
    requires i < |pages| && w < |pages|
    requires pages[i] == ""
    requires Wanted(pages, w)
    ensures i !in SelectPages(pages)
  {
  }

  /**
   * Before the notes start, a page is kept exactly when it has text and
   * carries a statement or notes header (when anything is kept at all).
   */
  lemma BeforeNotesKeptIffHeader(pages: seq<string>, i: nat, w: nat)
    requires i < |pages| && w < |pages|
    requires !NotesBefore(pages, i)
    requires Wanted(pages, w)
    ensures i in SelectPages(pages) <==>
      pages[i] != "" && (IsNotesStart(pages[i]) || IsStatementPage(pages[i]))
  {
  }
}
