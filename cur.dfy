/**
 * CUR.py: the Central University of Rajasthan tender list, a sequence of
 * `views-row` blocks inside the `innerpage` container. This script catches
 * a failed request itself.
 */
module Cur {
  import opened Html
  import opened Listing

  const BaseUrl := "http://14.139.244.219/"

  /** A `views-row` block: the stripped text of its first `h2`, if any, and its anchors in order. */
  datatype ViewsRow = ViewsRow(h2: Option<string>, anchors: seq<Anchor>)

  /**
   * What the request yields: `RequestFailed` when `session.get` or
   * `raise_for_status` raises; otherwise the `views-row` blocks of the
   * `innerpage` container, if there is one.
   */
  datatype Response = RequestFailed | Received(innerpage: Option<seq<ViewsRow>>)

  datatype Tender = Tender(title: Option<string>, docTitle: Option<string>, pdfUrl: Option<string>)

  /**
   * One pass of the loop body: `title` from the `h2`, `doc_title` and the
   * resolved `pdf_url` from the first anchor with an href; the record is kept
   * when any of the three is truthy.
   */
  function Extract(resolve: Resolver, row: ViewsRow): (s: Step<Tender>)
    ensures !s.Raise?
    ensures s.Emit? ==> s.record.title == row.h2
    ensures s.Emit? ==> (s.record.docTitle.None? <==> s.record.pdfUrl.None?)
    ensures s.Emit? && FindLinked(row.anchors).None? ==> s.record.docTitle.None?
    ensures s.Emit? && FindLinked(row.anchors).Some? ==>
      var a := FindLinked(row.anchors).value;
      s.record.docTitle == Some(a.text) && s.record.pdfUrl == Some(resolve(BaseUrl, a.href.value))
    ensures s.Emit? ==> HasContent(s.record)
    ensures s.Emit? <==>
      || Truthy(row.h2)
      || (FindLinked(row.anchors).Some?
          && (FindLinked(row.anchors).value.text != ""
              || resolve(BaseUrl, FindLinked(row.anchors).value.href.value) != ""))
  {
    var title := row.h2;
    var link := FindLinked(row.anchors);
    var docTitle := if link.Some? then Some(link.value.text) else None;
    var pdfUrl := if link.Some? then Some(resolve(BaseUrl, link.value.href.value)) else None;
    if Truthy(title) || Truthy(docTitle) || Truthy(pdfUrl) then Emit(Tender(title, docTitle, pdfUrl))
    else Skip
  }

  function Extractor(resolve: Resolver): ViewsRow -> Step<Tender>
  {
    row => Extract(resolve, row)
  }

  /** Every record the scrape keeps has at least one truthy field. */
  predicate HasContent(t: Tender)
  {
    Truthy(t.title) || Truthy(t.docTitle) || Truthy(t.pdfUrl)
  }

  /**
   * `cur()`: a failed request or a missing `innerpage` gives `[]`; otherwise
   * every `views-row` is walked, at most one record each, and no row can make
   * it fail.
   */
  method Cur(page: Response, resolve: Resolver) returns (tenders: seq<Tender>)
    ensures page.RequestFailed? ==> tenders == []
    ensures page.Received? && page.innerpage.None? ==> tenders == []
    ensures page.Received? && page.innerpage.Some? ==>
      Harvest(page.innerpage.value, Extractor(resolve)) == Ok(tenders)
    ensures page.Received? && page.innerpage.Some? ==> |tenders| <= |page.innerpage.value|
    ensures forall t :: t in tenders ==> HasContent(t)
  {
    if page.RequestFailed? {
      return [];
    }
    if page.innerpage.None? {
      return [];
    }
    var rows := page.innerpage.value;
    var step := Extractor(resolve);
    forall row: ViewsRow
      ensures !step(row).Raise?
      ensures step(row).Emit? ==> HasContent(step(row).record)
    {
    }
    HarvestTotal(rows, step);
    HarvestKeeps(rows, step, HasContent);
    var r := CollectRows(rows, step);
    tenders := r.value;
  }
}
