/**
 * Ajnala_sugar.py: the Ajnala sugar mill tender table `dataTables-example`,
 * one page; header cells (`th`) count as cells like data cells (`td`).
 */
module AjnalaSugar {
  import opened Html
  import opened Listing

  /** `len(cols) < 6` skips a row. */
  const MinCells: nat := 6

  datatype Tender = Tender(
    srNo: string, tenderName: string, tenderDescription: string,
    tenderPublishDate: string, tenderDueDate: string, documents: string)

  /**
   * One pass of the loop body: cells 0 to 4 give the text fields, and
   * `documents` is the raw href of cell 5's first anchor, never resolved.
   */
  function Extract(row: Row): (s: Step<Tender>)
    ensures s.Skip? <==> |row.cells| < MinCells
    ensures s.Raise? <==> |row.cells| >= MinCells && row.cells[5].anchors != [] && row.cells[5].anchors[0].href.None?
    ensures s.Raise? ==> s.error == KeyError("href")
    ensures s.Emit? ==>
      var cols := row.cells;
      && s.record.srNo == cols[0].text
      && s.record.tenderName == cols[1].text
      && s.record.tenderDescription == cols[2].text
      && s.record.tenderPublishDate == cols[3].text
      && s.record.tenderDueDate == cols[4].text
      && s.record.documents == (if cols[5].anchors == [] then "" else cols[5].anchors[0].href.value)
  {
    var cols := row.cells;
    if |cols| < MinCells then Skip
    else
      match HrefOrEmpty(cols[5])
      case Err(e) => Raise(e)
      case Ok(documents) =>
        Emit(Tender(cols[0].text, cols[1].text, cols[2].text, cols[3].text, cols[4].text, documents))
  }

  /**
   * `scrape_tenders()` after the fetch: no table gives `[]`; otherwise every
   * row after the first is walked.
   */
  method ScrapeTenders(table: Option<seq<Row>>) returns (r: Result<seq<Tender>>)
    ensures table.None? ==> r == Ok([])
    ensures table.Some? ==> r == Harvest(DropHeader(table.value), Extract)
    ensures table.Some? && r.Ok? ==> |r.value| <= |DropHeader(table.value)|
    ensures r.Err? ==> r.error == KeyError("href")
  {
    if table.None? {
      return Ok([]);
    }
    r := CollectRows(DropHeader(table.value), Extract);
    HarvestErrorFromRow(DropHeader(table.value), Extract);
  }

  /** A row whose cells are all `th` is handled exactly like one whose cells are all `td`. */
  lemma HeaderCellsCount(row: Row)
    ensures Extract(row) == Extract(Row(seq(|row.cells|, i requires 0 <= i < |row.cells| => row.cells[i].(tag := Td))))
    ensures Extract(row) == Extract(Row(seq(|row.cells|, i requires 0 <= i < |row.cells| => row.cells[i].(tag := Th))))
  {
  }
}
