/**
 * ALHW_tender.py: the Andaman Lakshadweep Harbour Works tender table, one
 * page, one 32-field record per data row of the `col-md-12` container.
 */
module AlhwTender {
  import opened Html
  import opened Listing

  /** The cell count the script's guard demands (`len(cols) < 32` skips). */
  const GuardAsWritten: nat := 32
  /** The cell count the row mapping needs: it reads `cols[32]`. */
  const GuardFixed: nat := 33

  datatype Tender = Tender(
    invitingOfficer: string, sector: string, state: string, currency: string,
    perQual: string, pincode: string, id: string, prebidDate: string,
    refNo: string, tenderTitle: string, description: string, location: string,
    invitingOffAddress: string, fee: string, value: string, emd: string,
    publicDate: string, docStartDate: string, docEndDate: string,
    bidsubStartDate: string, bidsubEndDate: string, bidOpenDate: string,
    formContract: string, prodCat: string, prodSubCat: string,
    tenderType: string, tenderCategory: string, linkTag: string,
    remark: string, column31: string, column32: string, column33: string)

  /** The record built from a row whose link cells all resolve: cell k gives field k, cell 0 unused. */
  function Build(cols: seq<Cell>, linkTag: string, column31: string, column33: string): (t: Tender)
    requires |cols| >= 32
    ensures t.invitingOfficer == cols[1].text && t.sector == cols[2].text && t.state == cols[3].text
    ensures t.currency == cols[4].text && t.perQual == cols[5].text && t.pincode == cols[6].text
    ensures t.id == cols[7].text && t.prebidDate == cols[8].text && t.refNo == cols[9].text
    ensures t.tenderTitle == cols[10].text && t.description == cols[11].text && t.location == cols[12].text
    ensures t.invitingOffAddress == cols[13].text && t.fee == cols[14].text && t.value == cols[15].text
    ensures t.emd == cols[16].text && t.publicDate == cols[17].text && t.docStartDate == cols[18].text
    ensures t.docEndDate == cols[19].text && t.bidsubStartDate == cols[20].text
    ensures t.bidsubEndDate == cols[21].text && t.bidOpenDate == cols[22].text
    ensures t.formContract == cols[23].text && t.prodCat == cols[24].text && t.prodSubCat == cols[25].text
    ensures t.tenderType == cols[26].text && t.tenderCategory == cols[27].text
    ensures t.linkTag == linkTag && t.remark == cols[29].text && t.column31 == column31
    ensures t.column32 == cols[31].text && t.column33 == column33
  {
    Tender(
      cols[1].text, cols[2].text, cols[3].text, cols[4].text, cols[5].text,
      cols[6].text, cols[7].text, cols[8].text, cols[9].text, cols[10].text,
      cols[11].text, cols[12].text, cols[13].text, cols[14].text, cols[15].text,
      cols[16].text, cols[17].text, cols[18].text, cols[19].text, cols[20].text,
      cols[21].text, cols[22].text, cols[23].text, cols[24].text, cols[25].text,
      cols[26].text, cols[27].text, linkTag, cols[29].text, column31,
      cols[31].text, column33)
  }

  /** A link cell of the row: its first anchor lacks an href, so `tag["href"]` raises. */
  predicate BadLink(c: Cell)
  {
    c.anchors != [] && c.anchors[0].href.None?
  }

  /**
   * One pass of the loop body with the guard `len(cols) < minCells`. The
   * reads happen in the script's order: the anchor of cell 28, that of
   * cell 30, then `cols[32]`.
   */
  function ExtractWithGuard(minCells: nat, row: Row): (s: Step<Tender>)
    requires GuardAsWritten <= minCells
    ensures s.Skip? <==> |Tds(row)| < minCells
    ensures s == Raise(KeyError("href")) <==>
      var cols := Tds(row);
      |cols| >= minCells && (BadLink(cols[28]) || BadLink(cols[30]) || (|cols| > 32 && BadLink(cols[32])))
    ensures s == Raise(IndexError) <==>
      var cols := Tds(row);
      |cols| >= minCells && |cols| == 32 && !BadLink(cols[28]) && !BadLink(cols[30])
    ensures s.Raise? ==> s.error == IndexError || s.error == KeyError("href")
    ensures s.Emit? <==>
      var cols := Tds(row);
      |cols| >= minCells && |cols| >= GuardFixed && !BadLink(cols[28]) && !BadLink(cols[30]) && !BadLink(cols[32])
    ensures s.Emit? ==>
      var cols := Tds(row);
      s.record == Build(cols, HrefOrEmpty(cols[28]).value, HrefOrEmpty(cols[30]).value, HrefOrEmpty(cols[32]).value)
  {
    var cols := Tds(row);
    if |cols| < minCells then Skip
    else
      match HrefOrEmpty(cols[28])
      case Err(e) => Raise(e)
      case Ok(linkTag) =>
        match HrefOrEmpty(cols[30])
        case Err(e) => Raise(e)
        case Ok(column31) =>
          if |cols| <= 32 then Raise(IndexError)
          else
            match HrefOrEmpty(cols[32])
            case Err(e) => Raise(e)
            case Ok(column33) => Emit(Build(cols, linkTag, column31, column33))
  }

  /** The loop body as ALHW_tender.py writes it. */
  function ExtractAsWritten(row: Row): Step<Tender>
  {
    ExtractWithGuard(GuardAsWritten, row)
  }

  /** The loop body with the guard the row mapping needs. */
  function Extract(row: Row): Step<Tender>
  {
    ExtractWithGuard(GuardFixed, row)
  }

  /**
   * `scrape_tenders()` as written, after the fetch: no container gives `[]`;
   * otherwise the rows after the header are walked with the 32-cell guard.
   */
  method ScrapeTenders(container: Option<seq<Row>>) returns (r: Result<seq<Tender>>)
    ensures container.None? ==> r == Ok([])
    ensures container.Some? ==> r == Harvest(DropHeader(container.value), ExtractAsWritten)
    ensures container.Some? && r.Ok? ==> |r.value| <= |DropHeader(container.value)|
    ensures r.Err? ==> r.error == IndexError || r.error == KeyError("href")
  {
    if container.None? {
      return Ok([]);
    }
    r := CollectRows(DropHeader(container.value), ExtractAsWritten);
    HarvestErrorFromRow(DropHeader(container.value), ExtractAsWritten);
  }

  /** `scrape_tenders()` with the guard raised to 33 cells; it never indexes past a row. */
  method ScrapeTendersFixed(container: Option<seq<Row>>) returns (r: Result<seq<Tender>>)
    ensures container.None? ==> r == Ok([])
    ensures container.Some? ==> r == Harvest(DropHeader(container.value), Extract)
    ensures container.Some? && r.Ok? ==> |r.value| <= |DropHeader(container.value)|
    ensures r.Err? ==> r.error == KeyError("href")
  {
    if container.None? {
      return Ok([]);
    }
    r := CollectRows(DropHeader(container.value), Extract);
    HarvestErrorFromRow(DropHeader(container.value), Extract);
  }

  /** Rows under 32 cells are skipped by both guards; neither raises for them. */
  lemma ShortRowsSkipped(row: Row)
    requires |Tds(row)| < GuardAsWritten
    ensures ExtractAsWritten(row) == Skip && Extract(row) == Skip
  {
  }

  /** The two guards differ only on rows of exactly 32 cells. */
  lemma FixOnlyTouchesThirtyTwoCellRows(row: Row)
    requires |Tds(row)| != 32
    ensures ExtractAsWritten(row) == Extract(row)
  {
  }

  /** Cell 0 is never read: rows that differ only there give the same outcome. */
  lemma FirstCellIgnored(a: Row, b: Row, minCells: nat)
    requires GuardAsWritten <= minCells
    requires |Tds(a)| == |Tds(b)| && |Tds(a)| > 0
    requires Tds(a)[1..] == Tds(b)[1..]
    ensures ExtractWithGuard(minCells, a) == ExtractWithGuard(minCells, b)
  {
    var ca, cb := Tds(a), Tds(b);
    forall k | 1 <= k < |ca|
      ensures ca[k] == cb[k]
    {
      assert ca[k] == ca[1..][k - 1] && cb[k] == cb[1..][k - 1];
    }
    if |ca| > 32 {
      var l, c31, c33 := HrefOrEmpty(ca[28]), HrefOrEmpty(ca[30]), HrefOrEmpty(ca[32]);
      if l.Ok? && c31.Ok? && c33.Ok? {
        BuildSkipsFirst(ca, cb, l.value, c31.value, c33.value);
      }
    }
  }

  lemma BuildSkipsFirst(ca: seq<Cell>, cb: seq<Cell>, linkTag: string, column31: string, column33: string)
    requires |ca| == |cb| >= 32
    requires forall k :: 1 <= k < |ca| ==> ca[k] == cb[k]
    ensures Build(ca, linkTag, column31, column33) == Build(cb, linkTag, column31, column33)
  {
  }

  /** A row of `n` plain data cells, none holding a link. */
  function PlainRow(n: nat): (row: Row)
    ensures |Tds(row)| == n
  {
    Row(seq(n, _ => Cell(Td, "", "", "", [])))
  }

  /**
   * The guard at ALHW_tender.py:81 admits a 32-cell row, and `cols[32]` at
   * line 121 then raises: one such row after the header aborts the scrape.
   * With the 33-cell guard the same page yields no record and no error.
   */
  lemma ThirtyTwoCellRowAborts()
    ensures Harvest(DropHeader([PlainRow(1), PlainRow(32)]), ExtractAsWritten) == Err(IndexError)
    ensures Harvest(DropHeader([PlainRow(1), PlainRow(32)]), Extract) == Ok([])
  {
    var rows := DropHeader([PlainRow(1), PlainRow(32)]);
    assert rows == [PlainRow(32)];
    var cols := Tds(PlainRow(32));
    assert cols[28].anchors == [] && cols[30].anchors == [];
    assert rows[..0] == [];
  }

  /** With the 33-cell guard no page ever fails with `IndexError`. */
  lemma FixedNeverIndexError(rows: seq<Row>)
    ensures Harvest(rows, Extract) != Err(IndexError)
  {
    HarvestErrorFromRow(rows, Extract);
  }
}
