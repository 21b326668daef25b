/**
 * ASCL_tender.py: the ASCL tender portlet, read from the page's first
 * `tbody`; every row is data, none is skipped as a header.
 */
module AsclTender {
  import opened Html
  import opened Listing

  /** `len(cols) < 3` skips a row. */
  const MinCells: nat := 3

  datatype Tender = Tender(title: string, size: string, pdfLink: string)

  /**
   * One pass of the loop body: `title` and `size` are cells 0 and 1, and
   * `pdf_link` is the href of cell 2's first anchor, or `""` without one.
   */
  function Extract(row: Row): (s: Step<Tender>)
    ensures s.Skip? <==> |Tds(row)| < MinCells
    ensures s.Raise? <==> |Tds(row)| >= MinCells && Tds(row)[2].anchors != [] && Tds(row)[2].anchors[0].href.None?
    ensures s.Raise? ==> s.error == KeyError("href")
    ensures s.Emit? ==>
      var cols := Tds(row);
      && s.record.title == cols[0].text
      && s.record.size == cols[1].text
      && s.record.pdfLink == (if cols[2].anchors == [] then "" else cols[2].anchors[0].href.value)
  {
    var cols := Tds(row);
    if |cols| < MinCells then Skip
    else
      match HrefOrEmpty(cols[2])
      case Err(e) => Raise(e)
      case Ok(pdfLink) => Emit(Tender(cols[0].text, cols[1].text, pdfLink))
  }

  /** `scrape_tenders()` after the fetch: no `tbody` gives `[]`; otherwise every row is walked. */
  method ScrapeTenders(tbody: Option<seq<Row>>) returns (r: Result<seq<Tender>>)
    ensures tbody.None? ==> r == Ok([])
    ensures tbody.Some? ==> r == Harvest(tbody.value, Extract)
    ensures tbody.Some? && r.Ok? ==> |r.value| <= |tbody.value|
    ensures r.Err? ==> r.error == KeyError("href")
  {
    if tbody.None? {
      return Ok([]);
    }
    r := CollectRows(tbody.value, Extract);
    HarvestErrorFromRow(tbody.value, Extract);
  }
}
