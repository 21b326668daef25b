/**
 * Assam_petro_che_ltd.py: the Assam Petro-Chemicals tender table
 * `TextMain`; every row is data, and each title keeps its line breaks.
 */
module AssamPetroChe {
  import opened Html
  import opened PyStr
  import opened Listing

  const Url := "https://assampetrochemicals.co.in/tenders.php"

  /** `len(cols) < 2` skips a row, although only cell 0 is read. */
  const MinCells: nat := 2

  datatype Tender = Tender(title: string, linkUrl: Option<string>)

  /** One pass of the loop body: `title` is cell 0's newline-joined text after `strip()`. */
  function Extract(resolve: Resolver, row: Row): (s: Step<Tender>)
    ensures !s.Raise?
    ensures s.Skip? <==> |Tds(row)| < MinCells
    ensures s.Emit? ==>
      && s.record.title == Strip(Tds(row)[0].joined)
      && NoOuterSpace(s.record.title)
      && (s.record.linkUrl.None? <==> forall a :: a in Tds(row)[0].anchors ==> a.href.None?)
      && s.record.linkUrl == ResolvedLink(resolve, Url, Tds(row)[0])
  {
    var cols := Tds(row);
    if |cols| < MinCells then Skip
    else Emit(Tender(Strip(cols[0].joined), ResolvedLink(resolve, Url, cols[0])))
  }

  function Extractor(resolve: Resolver): Row -> Step<Tender>
  {
    row => Extract(resolve, row)
  }

  /** Cell 1 is never read: rows that differ from cell 1 on give the same outcome. */
  lemma SecondCellIgnored(resolve: Resolver, a: Row, b: Row)
    requires |Tds(a)| >= MinCells && |Tds(b)| >= MinCells
    requires Tds(a)[0] == Tds(b)[0]
    ensures Extract(resolve, a) == Extract(resolve, b)
  {
  }

  predicate TitleIsStripped(t: Tender)
  {
    NoOuterSpace(t.title) && Strip(t.title) == t.title
  }

  /**
   * `APL()` after the fetch: no table gives `[]`; otherwise every row is
   * walked, and no row can make it fail.
   */
  method Apl(table: Option<seq<Row>>, resolve: Resolver) returns (tenders: seq<Tender>)
    ensures table.None? ==> tenders == []
    ensures table.Some? ==> Harvest(table.value, Extractor(resolve)) == Ok(tenders)
    ensures table.Some? ==> |tenders| <= |table.value|
    ensures forall t :: t in tenders ==> TitleIsStripped(t)
  {
    if table.None? {
      return [];
    }
    var step := Extractor(resolve);
    forall row: Row
      ensures !step(row).Raise?
      ensures step(row).Emit? ==> TitleIsStripped(step(row).record)
    {
      if step(row).Emit? {
        StripIdempotent(Tds(row)[0].joined);
      }
    }
    HarvestTotal(table.value, step);
    HarvestKeeps(table.value, step, TitleIsStripped);
    var r := CollectRows(table.value, step);
    tenders := r.value;
  }
}
