/** `raw_content_to_table`, from the parser's output on: clean every `td`
    text, build a frame padded to the widest row, drop duplicate rows, and
    label the columns with the first table's `th` texts. */
module Extraction {
  import opened Outcomes
  import opened CellText
  import opened Tables
  import opened Dedup

  /** What the HTML parser yields for a page: for every `table` element, in
      document order, the texts of its `th` elements; for every `tr` element
      of the whole document, in document order, the texts of its `td`
      elements (empty for a row of header cells). */
  datatype Page = Page(tableHeaders: seq<seq<string>>, rowCells: seq<seq<string>>)

  datatype ExtractError =
    | NoTable                                  // `findAll("table")[0]` on no table
    | LengthMismatch(width: nat, headers: nat) // `columns = headers` with the wrong count

  /** Number of columns pandas gives a frame built from these rows: the
      length of the longest row, 0 when there are none. */
  function Width(rows: seq<seq<string>>): (w: nat)
    ensures forall i :: 0 <= i < |rows| ==> |rows[i]| <= w
    ensures rows == [] ==> w == 0
    ensures rows != [] ==> exists i :: 0 <= i < |rows| && |rows[i]| == w
  {
    if rows == [] then 0
    else
      var rest := Width(rows[1..]);
      if |rows[0]| >= rest then |rows[0]|
      else
        var i :| 0 <= i < |rows[1..]| && |rows[1..][i]| == rest;
        assert |rows[i + 1]| == rest;
        rest
  }

  /** Every cell of one `tr`, cleaned. */
  function CleanRow(cells: seq<string>): (r: seq<string>)
    ensures |r| == |cells|
    ensures forall k :: 0 <= k < |cells| ==> r[k] == CleanCell(cells[k])
  {
    seq(|cells|, k requires 0 <= k < |cells| => CleanCell(cells[k]))
  }

  /** One row of `pd.DataFrame(row_data)`: the texts, then the missing value
      up to the frame's width. */
  function PadRow(cells: seq<string>, w: nat): (r: Row)
    requires |cells| <= w
    ensures |r| == w
    ensures forall k :: 0 <= k < w ==> r[k] == if k < |cells| then Text(cells[k]) else Missing
  {
    seq(w, k requires 0 <= k < w => if k < |cells| then Text(cells[k]) else Missing)
  }

  /** Padding never makes two different rows equal, nor two equal rows
      different: texts are never the missing value. */
  lemma PadInjective(a: seq<string>, b: seq<string>, w: nat)
    requires |a| <= w && |b| <= w
    ensures PadRow(a, w) == PadRow(b, w) <==> a == b
  {
    var pa, pb := PadRow(a, w), PadRow(b, w);
    if |a| < |b| {
      assert pa[|a|] != pb[|a|];
    } else if |b| < |a| {
      assert pa[|b|] != pb[|b|];
    } else if a != b {
      var k :| 0 <= k < |a| && a[k] != b[k];
      assert pa[k] != pb[k];
    }
  }

  /** The cleaned cells of every `tr`. */
  function CleanRows(page: Page): (rows: seq<seq<string>>)
    ensures |rows| == |page.rowCells|
    ensures forall i :: 0 <= i < |rows| ==> rows[i] == CleanRow(page.rowCells[i])
    ensures Width(rows) == Width(page.rowCells)
  {
    var rows := seq(|page.rowCells|, i requires 0 <= i < |page.rowCells| => CleanRow(page.rowCells[i]));
    WidthOfSameLengths(rows, page.rowCells);
    rows
  }

  lemma WidthOfSameLengths(a: seq<seq<string>>, b: seq<seq<string>>)
    requires |a| == |b| && forall i :: 0 <= i < |a| ==> |a[i]| == |b[i]|
    ensures Width(a) == Width(b)
  {
    if a != [] {
      var i :| 0 <= i < |a| && |a[i]| == Width(a);
      var j :| 0 <= j < |b| && |b[j]| == Width(b);
      assert |b[i]| <= Width(b) && |a[j]| <= Width(a);
    }
  }

  /** `pd.DataFrame(row_data)`: every cleaned row padded to the width. */
  function PaddedRows(rows: seq<seq<string>>): (frame: seq<Row>)
    ensures |frame| == |rows|
    ensures forall i :: 0 <= i < |rows| ==> frame[i] == PadRow(rows[i], Width(rows))
  {
    var w := Width(rows);
    seq(|rows|, i requires 0 <= i < |rows| => PadRow(rows[i], w))
  }

  /** The extraction. It fails when the page has no table, and when the
      first table's header count differs from the frame's width; otherwise
      the columns are the first table's `th` texts and no two rows are
      equal. */
  function RawContentToTable(page: Page): (r: Result<Table, ExtractError>)
    ensures r == Err(NoTable) <==> page.tableHeaders == []
    ensures r.Err? && r.error.LengthMismatch? <==>
              page.tableHeaders != [] && |page.tableHeaders[0]| != Width(page.rowCells)
    ensures r.Ok? ==> && r.value.columns == page.tableHeaders[0]
                      && WellFormed(r.value)
                      && Distinct(r.value.rows)
  {
    if page.tableHeaders == [] then Err(NoTable)
    else
      var headers := page.tableHeaders[0];
      var cleaned := CleanRows(page);
      var frame := DropDuplicates(PaddedRows(cleaned));
      DropDuplicatesSpec(PaddedRows(cleaned));
      if |headers| != Width(cleaned) then Err(LengthMismatch(Width(cleaned), |headers|))
      else Ok(Table(headers, frame))
  }

  /** Which rows the extracted table holds: the padded, cleaned cells of
      exactly those `tr`s whose cleaned cells did not occur in an earlier
      `tr`, in document order. */
  lemma ExtractedRows(page: Page)
    requires RawContentToTable(page).Ok?
    ensures var idx := FirstIndices(PaddedRows(CleanRows(page)), |page.rowCells|);
              && Increasing(idx) && (forall k :: 0 <= k < |idx| ==> idx[k] < |page.rowCells|)
              && RawContentToTable(page).value.rows == Select(PaddedRows(CleanRows(page)), idx)
              && forall i :: i in idx <==> 0 <= i < |page.rowCells| && IsFirstOccurrence(CleanRows(page), i)
  {
    var cleaned := CleanRows(page);
    var idx := FirstIndices(PaddedRows(cleaned), |cleaned|);
    ExtractedFrame(page);
    PaddedFirstIndices(cleaned);
  }

  /** A successful extraction holds the padded, cleaned rows with their
      duplicates dropped. */
  lemma ExtractedFrame(page: Page)
    requires RawContentToTable(page).Ok?
    ensures RawContentToTable(page).value.rows
         == Select(PaddedRows(CleanRows(page)), FirstIndices(PaddedRows(CleanRows(page)), |page.rowCells|))
  {
  }

  /** Padding every row to one width keeps the same first occurrences. */
  lemma PaddedFirstIndices(cleaned: seq<seq<string>>)
    ensures var idx := FirstIndices(PaddedRows(cleaned), |cleaned|);
            && Increasing(idx) && (forall k :: 0 <= k < |idx| ==> idx[k] < |cleaned|)
            && forall i :: i in idx <==> 0 <= i < |cleaned| && IsFirstOccurrence(cleaned, i)
  {
    var padded := PaddedRows(cleaned);
    FirstIndicesSpec(padded, |padded|);
    forall i | 0 <= i < |cleaned| ensures IsFirstOccurrence(padded, i) <==> IsFirstOccurrence(cleaned, i) {
      FirstOccurrenceUnderPadding(cleaned, i);
    }
  }

  lemma FirstOccurrenceUnderPadding(cleaned: seq<seq<string>>, i: nat)
    requires i < |cleaned|
    ensures IsFirstOccurrence(PaddedRows(cleaned), i) <==> IsFirstOccurrence(cleaned, i)
  {
    var padded := PaddedRows(cleaned);
    var w := Width(cleaned);
    if cleaned[i] in cleaned[..i] {
      var j :| 0 <= j < i && cleaned[..i][j] == cleaned[i];
      assert padded[..i][j] == padded[i];
    }
    if padded[i] in padded[..i] {
      var j :| 0 <= j < i && padded[..i][j] == padded[i];
      PadInjective(cleaned[j], cleaned[i], w);
      assert cleaned[..i][j] == cleaned[i];
    }
  }

  /** A `tr` without `td` cells, such as the header row itself, still
      yields a row: every cell missing. */
  lemma HeaderOnlyRowKept(page: Page, i: nat)
    requires RawContentToTable(page).Ok?
    requires i < |page.rowCells| && page.rowCells[i] == []
    ensures Constant(Missing, |page.tableHeaders[0]|) in RawContentToTable(page).value.rows
  {
    var cleaned := CleanRows(page);
    var padded := PaddedRows(cleaned);
    assert cleaned[i] == [];
    assert |page.tableHeaders[0]| == Width(cleaned);
    assert padded[i] == Constant(Missing, Width(cleaned));
    assert padded[i] in padded;
    ExtractedFrame(page);
    DropDuplicatesSpec(padded);
  }
}
