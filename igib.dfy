/**
 * IGIB.py: the IGIB tender table, the page's first `table`; the first row
 * is a header, and each row's work description keeps its line breaks.
 */
module Igib {
  import opened Html
  import opened PyStr
  import opened Listing

  const Url := "https://admin.igib.res.in/tender.html"

  /** `len(cols) < 2` skips a row. */
  const MinCells: nat := 2

  datatype Tender = Tender(work: string, date: string, document: Option<string>)

  /**
   * One pass of the loop body: `work` is cell 0's newline-joined text after
   * `strip()`, `date` is cell 1's text.
   */
  function Extract(resolve: Resolver, row: Row): (s: Step<Tender>)
    ensures !s.Raise?
    ensures s.Skip? <==> |Tds(row)| < MinCells
    ensures s.Emit? ==>
      && s.record.work == Strip(Tds(row)[0].joined)
      && NoOuterSpace(s.record.work)
      && s.record.date == Tds(row)[1].text
      && (s.record.document.None? <==> forall a :: a in Tds(row)[0].anchors ==> a.href.None?)
      && s.record.document == ResolvedLink(resolve, Url, Tds(row)[0])
  {
    var cols := Tds(row);
    if |cols| < MinCells then Skip
    else Emit(Tender(Strip(cols[0].joined), cols[1].text, ResolvedLink(resolve, Url, cols[0])))
  }

  function Extractor(resolve: Resolver): Row -> Step<Tender>
  {
    row => Extract(resolve, row)
  }

  /** `work` has no whitespace at either end, so stripping it again changes nothing. */
  predicate WorkIsStripped(t: Tender)
  {
    NoOuterSpace(t.work) && Strip(t.work) == t.work
  }

  /**
   * `igib()` after the fetch: no table gives `[]`; otherwise every row after
   * the first is walked, and no row can make it fail.
   */
  method Igib(table: Option<seq<Row>>, resolve: Resolver) returns (tenders: seq<Tender>)
    ensures table.None? ==> tenders == []
    ensures table.Some? ==> Harvest(DropHeader(table.value), Extractor(resolve)) == Ok(tenders)
    ensures table.Some? ==> |tenders| <= |DropHeader(table.value)|
    ensures forall t :: t in tenders ==> WorkIsStripped(t)
  {
    if table.None? {
      return [];
    }
    var rows := DropHeader(table.value);
    var step := Extractor(resolve);
    forall row: Row
      ensures !step(row).Raise?
      ensures step(row).Emit? ==> WorkIsStripped(step(row).record)
    {
      if step(row).Emit? {
        StripIdempotent(Tds(row)[0].joined);
      }
    }
    HarvestTotal(rows, step);
    HarvestKeeps(rows, step, WorkIsStripped);
    var r := CollectRows(rows, step);
    tenders := r.value;
  }
}
