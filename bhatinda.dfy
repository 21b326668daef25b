/**
 * Bhatinda_DA.py: the Bathinda Development Authority tender listing, which
 * spans several pages linked by a "next" pager link. The crawl follows those
 * links until a request fails, a page has no table or no next link, or the
 * next link leads to a page already seen.
 */
module BhatindaDa {
  import opened Html
  import opened Listing

  const Url := "https://bdabathinda.in/en/tenders"

  /** `len(cols) < 4` skips a row. */
  const MinCells: nat := 4

  datatype Tender = Tender(srNo: string, description: string, documents: Option<string>, lastDateOfSubmission: string)

  /**
   * What requesting one URL yields: `Failed` when the request raises (the
   * script catches every exception there), otherwise the rows of the
   * `views-table`, if the page has one, and the anchor of its pager's
   * "next" item, if it has one.
   */
  datatype Fetch = Failed | Fetched(table: Option<seq<Row>>, next: Option<Anchor>)

  /** The site as the crawl sees it: a URL that is not a key cannot be fetched. */
  type Site = map<string, Fetch>

  function Get(site: Site, url: string): (f: Fetch)
    ensures f.Fetched? ==> url in site
    ensures url in site ==> f == site[url]
    ensures url !in site ==> f == Failed
  {
    if url in site then site[url] else Failed
  }

  /**
   * One pass of the inner loop body: `documents` resolves the href of cell
   * 2's first anchor against `URL`; a first anchor without an href raises.
   */
  function Extract(resolve: Resolver, row: Row): (s: Step<Tender>)
    ensures s.Skip? <==> |Tds(row)| < MinCells
    ensures s.Raise? <==> |Tds(row)| >= MinCells && AnchorHref(Tds(row)[2]).Err?
    ensures s.Raise? ==> s.error == KeyError("href")
    ensures s.Emit? ==>
      var cols := Tds(row);
      && s.record.srNo == cols[0].text
      && s.record.description == cols[1].spaced
      && s.record.lastDateOfSubmission == cols[3].text
      && (s.record.documents.None? <==> cols[2].anchors == [])
      && (s.record.documents.Some? ==> s.record.documents.value == resolve(Url, cols[2].anchors[0].href.value))
  {
    var cols := Tds(row);
    if |cols| < MinCells then Skip
    else
      match AnchorHref(cols[2])
      case Err(e) => Raise(e)
      case Ok(link) =>
        var documents := if link.Some? then Some(resolve(Url, link.value)) else None;
        Emit(Tender(cols[0].text, cols[1].spaced, documents, cols[3].text))
  }

  function Extractor(resolve: Resolver): Row -> Step<Tender>
  {
    row => Extract(resolve, row)
  }

  /** Why the crawl stopped. */
  datatype Halt =
    | NoUrl          // `while next_url` met an empty URL
    | RequestFailed  // the request raised
    | NoTable        // the page has no `views-table`
    | LastPage       // the page has no "next" link
    | LoopDetected   // the "next" link leads to a URL already in `visited_urls`

  /** The outcome of a crawl: the records in order, the URLs requested in order, and why it stopped. */
  datatype Trace = Trace(tenders: seq<Tender>, requested: seq<string>, halt: Halt)

  /**
   * What one pass of the `while` body decides about the page at `next_url`:
   * stop with an outcome, or keep the page's records and go on to the URL
   * its "next" link leads to.
   */
  datatype Visit = Stop(outcome: Result<Trace>) | Follow(tenders: seq<Tender>, candidate: string)

  /** The URL the "next" link of a fetched page with a table leads to, resolved against `URL`. */
  function NextOf(site: Site, resolve: Resolver, url: string): (r: Option<string>)
    ensures r.Some? <==>
      (url in site && site[url].Fetched? && site[url].table.Some? && site[url].next.Some? && site[url].next.value.href.Some?)
    ensures r.Some? ==> r.value == resolve(Url, site[url].next.value.href.value)
  {
    match Get(site, url)
    case Failed => None
    case Fetched(table, next) =>
      if table.Some? && next.Some? && next.value.href.Some? then Some(resolve(Url, next.value.href.value)) else None
  }

  /**
   * One pass of the `while` body for a non-empty `next_url`, with `visited`
   * the set `visited_urls` holds at that point. The "next" link is resolved
   * against the start URL, not against the page it was found on.
   */
  function VisitPage(site: Site, resolve: Resolver, step: Row -> Step<Tender>, url: string, visited: set<string>): (v: Visit)
    ensures v.Follow? ==> url in site && v.candidate !in visited && NextOf(site, resolve, url) == Some(v.candidate)
    ensures v.Follow? ==> Get(site, url).table.Some? && Harvest(Get(site, url).table.value, step) == Ok(v.tenders)
    ensures v.Stop? && v.outcome.Ok? ==> v.outcome.value.requested == [url] && v.outcome.value.halt != NoUrl
    ensures Get(site, url).Failed? ==> v == Stop(Ok(Trace([], [url], RequestFailed)))
    ensures Get(site, url).Fetched? && Get(site, url).table.None? ==> v == Stop(Ok(Trace([], [url], NoTable)))
    ensures Get(site, url).Fetched? && Get(site, url).table.Some? && Get(site, url).next.None?
            && Harvest(Get(site, url).table.value, step).Ok?
            ==> v == Stop(Ok(Trace(Harvest(Get(site, url).table.value, step).value, [url], LastPage)))
  {
    match Get(site, url)
    case Failed => Stop(Ok(Trace([], [url], RequestFailed)))
    case Fetched(table, next) =>
      if table.None? then Stop(Ok(Trace([], [url], NoTable)))
      else
        match Harvest(table.value, step)
        case Err(e) => Stop(Err(e))
        case Ok(ts) =>
          if next.None? then Stop(Ok(Trace(ts, [url], LastPage)))
          else if next.value.href.None? then Stop(Err(KeyError("href")))
          else
            var candidate := resolve(Url, next.value.href.value);
            if candidate in visited then Stop(Ok(Trace(ts, [url], LoopDetected)))
            else Follow(ts, candidate)
  }

  /**
   * Where one pass of the loop body stops, it keeps the page's records and
   * names the page's state: the request failed, there is no table, there is
   * no "next" link, or that link leads to a URL already seen.
   */
  lemma VisitPageStops(site: Site, resolve: Resolver, step: Row -> Step<Tender>, url: string, visited: set<string>)
    requires url != "" && VisitPage(site, resolve, step, url, visited).Stop?
    ensures var v := VisitPage(site, resolve, step, url, visited);
      v.outcome.Ok? ==>
        var t, page := v.outcome.value, Get(site, url);
        && Harvest(PageRows(site, url), step) == Ok(t.tenders)
        && (t.halt == RequestFailed <==> page.Failed?)
        && (t.halt == NoTable <==> page.Fetched? && page.table.None?)
        && (t.halt == LastPage <==> page.Fetched? && page.table.Some? && page.next.None?)
        && (t.halt == LoopDetected ==> NextOf(site, resolve, url).Some? && NextOf(site, resolve, url).value in visited)
  {
    var v, page := VisitPage(site, resolve, step, url, visited), Get(site, url);
    if page.Failed? {
      assert v == Stop(Ok(Trace([], [url], RequestFailed)));
      assert PageRows(site, url) == [];
    } else if page.table.None? {
      assert v == Stop(Ok(Trace([], [url], NoTable)));
      assert PageRows(site, url) == [];
    } else {
      assert PageRows(site, url) == page.table.value;
      var h := Harvest(page.table.value, step);
      if h.Ok? && page.next.None? {
        assert v == Stop(Ok(Trace(h.value, [url], LastPage)));
      } else if h.Ok? && page.next.value.href.Some? {
        assert v.outcome == Ok(Trace(h.value, [url], LoopDetected));
      }
    }
  }

  /** The record and request logs of one page put in front of those of the pages after it. */
  function Prepend(tenders: seq<Tender>, requested: seq<string>, rest: Result<Trace>): Result<Trace>
  {
    match rest
    case Err(e) => Err(e)
    case Ok(t) => Ok(Trace(tenders + t.tenders, requested + t.requested, t.halt))
  }

  lemma PrependNothing(rest: Result<Trace>)
    ensures Prepend([], [], rest) == rest
  {
    if rest.Ok? {
      assert [] + rest.value.tenders == rest.value.tenders;
      assert [] + rest.value.requested == rest.value.requested;
    }
  }

  /** Putting two pages' logs in front of a crawl, one at a time or together, is the same. */
  lemma PrependTwice(ts: seq<Tender>, rq: seq<string>, us: seq<Tender>, sq: seq<string>, rest: Result<Trace>)
    ensures Prepend(ts, rq, Prepend(us, sq, rest)) == Prepend(ts + us, rq + sq, rest)
  {
    if rest.Ok? {
      assert ts + (us + rest.value.tenders) == (ts + us) + rest.value.tenders;
      assert rq + (sq + rest.value.requested) == (rq + sq) + rest.value.requested;
    }
  }

  /** Marking a new URL as seen leaves fewer unseen pages, or as many when the URL is not on the site. */
  lemma VisitShrinks(keys: set<string>, visited: set<string>, c: string)
    requires c !in visited
    ensures c in keys ==> |keys - (visited + {c})| < |keys - visited|
    ensures c !in keys ==> keys - (visited + {c}) == keys - visited
  {
    if c in keys {
      assert keys - visited == (keys - (visited + {c})) + {c};
    }
  }

  /**
   * The crawl from `url` on, with `visited` the set `visited_urls` holds
   * when `url` is about to be requested.
   */
  function Crawl(site: Site, resolve: Resolver, step: Row -> Step<Tender>, url: string, visited: set<string>): (r: Result<Trace>)
    ensures r.Ok? && url == "" ==> r.value.requested == [] && r.value.halt == NoUrl
    ensures r.Ok? && url != "" ==> |r.value.requested| >= 1 && r.value.requested[0] == url
    decreases |site.Keys - visited|, if url in site then 1 else 0
  {
    if url == "" then Ok(Trace([], [], NoUrl))
    else
      match VisitPage(site, resolve, step, url, visited)
      case Stop(outcome) => outcome
      case Follow(ts, candidate) =>
        VisitShrinks(site.Keys, visited, candidate);
        Prepend(ts, [url], Crawl(site, resolve, step, candidate, visited + {candidate}))
  }

  /** The crawl from a non-empty URL is that page's outcome, or that page's records and request put in front of the rest. */
  lemma CrawlUnfolds(site: Site, resolve: Resolver, step: Row -> Step<Tender>, url: string, visited: set<string>)
    requires url != ""
    ensures var v := VisitPage(site, resolve, step, url, visited);
      && (v.Stop? ==> Crawl(site, resolve, step, url, visited) == v.outcome)
      && (v.Follow? ==> Crawl(site, resolve, step, url, visited)
                        == Prepend(v.tenders, [url], Crawl(site, resolve, step, v.candidate, visited + {v.candidate})))
  {
  }

  /**
   * Every request after the first is of a URL not seen before, so a crawl
   * makes at most two requests more than the site has unseen pages: the
   * loop always ends.
   */
  lemma {:induction false} CrawlRequestsBounded(site: Site, resolve: Resolver, step: Row -> Step<Tender>, url: string, visited: set<string>)
    ensures var r := Crawl(site, resolve, step, url, visited);
      r.Ok? ==> |r.value.requested| <= |site.Keys - visited| + 2
    decreases |site.Keys - visited|, if url in site then 1 else 0
  {
    if url != "" && VisitPage(site, resolve, step, url, visited).Follow? {
      var v := VisitPage(site, resolve, step, url, visited);
      CrawlUnfolds(site, resolve, step, url, visited);
      VisitShrinks(site.Keys, visited, v.candidate);
      CrawlRequestsBounded(site, resolve, step, v.candidate, visited + {v.candidate});
    }
  }

  /**
   * The `while` loop of `BDA()`, starting at `URL` with `visited_urls` set
   * to `visited0`. It returns the records, and the URLs it requested, as
   * `Crawl` describes them.
   */
  method Paginate(site: Site, resolve: Resolver, step: Row -> Step<Tender>, visited0: set<string>) returns (r: Result<Trace>)
    ensures r == Crawl(site, resolve, step, Url, visited0)
  {
    var allTenders: seq<Tender> := [];
    var requested: seq<string> := [];
    var visited := visited0;
    var nextUrl := Url;
    PrependNothing(Crawl(site, resolve, step, Url, visited0));
    while nextUrl != ""
      invariant Crawl(site, resolve, step, Url, visited0) == Prepend(allTenders, requested, Crawl(site, resolve, step, nextUrl, visited))
      decreases |site.Keys - visited|, if nextUrl in site then 1 else 0
    {
      var page := Get(site, nextUrl);
      ghost var before, requestedBefore := allTenders, requested;
      requested := requested + [nextUrl];
      if page.Failed? {
        assert allTenders + [] == allTenders;
        return Ok(Trace(allTenders, requested, RequestFailed));
      }
      if page.table.None? {
        assert allTenders + [] == allTenders;
        return Ok(Trace(allTenders, requested, NoTable));
      }
      var rows := CollectRows(page.table.value, step);
      if rows.Err? {
        return Err(rows.error);
      }
      allTenders := allTenders + rows.value;
      if page.next.None? {
        return Ok(Trace(allTenders, requested, LastPage));
      }
      if page.next.value.href.None? {
        return Err(KeyError("href"));
      }
      var candidate := resolve(Url, page.next.value.href.value);
      if candidate in visited {
        return Ok(Trace(allTenders, requested, LoopDetected));
      }
      assert VisitPage(site, resolve, step, nextUrl, visited) == Follow(rows.value, candidate);
      VisitShrinks(site.Keys, visited, candidate);
      PrependTwice(before, requestedBefore, rows.value, [nextUrl], Crawl(site, resolve, step, candidate, visited + {candidate}));
      visited := visited + {candidate};
      nextUrl := candidate;
    }
    return Prepend(allTenders, requested, Ok(Trace([], [], NoUrl)));
  }

  /** The records of a crawl, or the exception that aborted it. */
  function TendersOf(r: Result<Trace>): (ts: Result<seq<Tender>>)
    ensures ts.Ok? <==> r.Ok?
    ensures ts.Ok? ==> ts.value == r.value.tenders
    ensures ts.Err? ==> ts.error == r.error
  {
    match r
    case Err(e) => Err(e)
    case Ok(t) => Ok(t.tenders)
  }

  /**
   * `BDA()` as written: `visited_urls` starts empty, so the start URL is not
   * marked as seen.
   */
  method Bda(site: Site, resolve: Resolver) returns (r: Result<seq<Tender>>)
    ensures r == TendersOf(Crawl(site, resolve, Extractor(resolve), Url, {}))
    ensures r.Err? ==> r.error == KeyError("href")
    ensures CleanSite(site, Extractor(resolve)) ==> r.Ok?
  {
    var trace := Paginate(site, resolve, Extractor(resolve), {});
    ExtractRaisesOnlyKeyError(resolve);
    CrawlErrors(site, resolve, Extractor(resolve), Url, {});
    if CleanSite(site, Extractor(resolve)) {
      CrawlSucceeds(site, resolve, Extractor(resolve), Url, {});
    }
    r := TendersOf(trace);
  }

  /** `BDA()` with the start URL marked as seen before the first request. */
  method BdaFixed(site: Site, resolve: Resolver) returns (r: Result<seq<Tender>>)
    ensures r == TendersOf(Crawl(site, resolve, Extractor(resolve), Url, {Url}))
    ensures r.Err? ==> r.error == KeyError("href")
    ensures CleanSite(site, Extractor(resolve)) ==> r.Ok?
  {
    var trace := Paginate(site, resolve, Extractor(resolve), {Url});
    ExtractRaisesOnlyKeyError(resolve);
    CrawlErrors(site, resolve, Extractor(resolve), Url, {Url});
    if CleanSite(site, Extractor(resolve)) {
      CrawlSucceeds(site, resolve, Extractor(resolve), Url, {Url});
    }
    r := TendersOf(trace);
  }

  /**
   * A site on which nothing can raise: no row of a fetched page's table
   * raises, and every "next" anchor of a page with a table has an href.
   */
  ghost predicate CleanSite(site: Site, step: Row -> Step<Tender>)
  {
    forall u :: u in site && site[u].Fetched? && site[u].table.Some? ==>
      && !Raises(site[u].table.value, step)
      && (site[u].next.Some? ==> site[u].next.value.href.Some?)
  }

  /**
   * On a site where nothing raises, the crawl succeeds: a failed request, a
   * missing table, a missing "next" link and a loop all end it with the
   * records gathered so far.
   */
  lemma {:induction false} CrawlSucceeds(site: Site, resolve: Resolver, step: Row -> Step<Tender>, url: string, visited: set<string>)
    requires CleanSite(site, step)
    ensures Crawl(site, resolve, step, url, visited).Ok?
    decreases |site.Keys - visited|, if url in site then 1 else 0
  {
    if url != "" {
      var v, page := VisitPage(site, resolve, step, url, visited), Get(site, url);
      CrawlUnfolds(site, resolve, step, url, visited);
      if page.Fetched? && page.table.Some? {
        HarvestFailsIffRaises(page.table.value, step);
      }
      if v.Follow? {
        VisitShrinks(site.Keys, visited, v.candidate);
        CrawlSucceeds(site, resolve, step, v.candidate, visited + {v.candidate});
      }
    }
  }

  /** A row step whose only exception is the `KeyError` of an anchor without an href. */
  ghost predicate OnlyKeyErrors(step: Row -> Step<Tender>)
  {
    forall row :: step(row).Raise? ==> step(row).error == KeyError("href")
  }

  lemma ExtractRaisesOnlyKeyError(resolve: Resolver)
    ensures OnlyKeyErrors(Extractor(resolve))
  {
    forall row | Extractor(resolve)(row).Raise?
      ensures Extractor(resolve)(row).error == KeyError("href")
    {
      assert Extractor(resolve)(row) == Extract(resolve, row);
    }
  }

  /**
   * When no row raises anything but the `KeyError` of an anchor without an
   * href, that is the only exception a crawl lets escape: the "next" link
   * raises the same one.
   */
  lemma {:induction false} CrawlErrors(site: Site, resolve: Resolver, step: Row -> Step<Tender>, url: string, visited: set<string>)
    requires OnlyKeyErrors(step)
    ensures Crawl(site, resolve, step, url, visited).Err? ==> Crawl(site, resolve, step, url, visited).error == KeyError("href")
    decreases |site.Keys - visited|, if url in site then 1 else 0
  {
    if url != "" {
      var v := VisitPage(site, resolve, step, url, visited);
      CrawlUnfolds(site, resolve, step, url, visited);
      if Get(site, url).Fetched? && Get(site, url).table.Some? {
        HarvestErrorFromRow(Get(site, url).table.value, step);
      }
      if v.Follow? {
        VisitShrinks(site.Keys, visited, v.candidate);
        CrawlErrors(site, resolve, step, v.candidate, visited + {v.candidate});
      }
    }
  }

  /** The rows a requested page contributes: none unless it was fetched and has a table. */
  function PageRows(site: Site, url: string): seq<Row>
  {
    match Get(site, url)
    case Failed => []
    case Fetched(table, _) => if table.Some? then table.value else []
  }

  /** The records of the pages `urls`, walked one after another. */
  function Yields(site: Site, step: Row -> Step<Tender>, urls: seq<string>): Result<seq<Tender>>
  {
    if urls == [] then Ok([])
    else Join(Harvest(PageRows(site, urls[0]), step), Yields(site, step, urls[1..]))
  }

  /**
   * A crawl's records are exactly the rows of the pages it requested, in
   * request order: a page requested twice contributes its records twice.
   */
  lemma {:induction false} CrawlConcatenatesPages(site: Site, resolve: Resolver, step: Row -> Step<Tender>, url: string, visited: set<string>)
    ensures var r := Crawl(site, resolve, step, url, visited);
      r.Ok? ==> Yields(site, step, r.value.requested) == Ok(r.value.tenders)
    decreases |site.Keys - visited|, if url in site then 1 else 0
  {
    var r := Crawl(site, resolve, step, url, visited);
    if r.Ok? && url != "" {
      var v := VisitPage(site, resolve, step, url, visited);
      CrawlUnfolds(site, resolve, step, url, visited);
      if v.Stop? {
        VisitPageStops(site, resolve, step, url, visited);
        assert r.value.requested == [url] && r.value.requested[1..] == [];
        assert Yields(site, step, [url]) == Join(Harvest(PageRows(site, url), step), Ok([]));
        assert r.value.tenders + [] == r.value.tenders;
      } else {
        VisitShrinks(site.Keys, visited, v.candidate);
        CrawlConcatenatesPages(site, resolve, step, v.candidate, visited + {v.candidate});
        var t := Crawl(site, resolve, step, v.candidate, visited + {v.candidate}).value;
        assert r.value.requested == [url] + t.requested;
        assert r.value.requested[1..] == t.requested;
        assert PageRows(site, url) == Get(site, url).table.value;
      }
    }
  }

  /**
   * Each URL requested after the first is the one the previous page's
   * "next" link leads to, and none of them was in `visited_urls` when the
   * crawl began; the start URL is requested again only if it was not.
   */
  lemma {:induction false} CrawlFollowsNextLinks(site: Site, resolve: Resolver, step: Row -> Step<Tender>, url: string, visited: set<string>)
    ensures var r := Crawl(site, resolve, step, url, visited);
      r.Ok? ==>
        var rq := r.value.requested;
        && (forall i :: 0 <= i < |rq| - 1 ==> NextOf(site, resolve, rq[i]) == Some(rq[i + 1]))
        && (forall i :: 1 <= i < |rq| ==> rq[i] !in visited)
    decreases |site.Keys - visited|, if url in site then 1 else 0
  {
    var r := Crawl(site, resolve, step, url, visited);
    if url != "" && VisitPage(site, resolve, step, url, visited).Follow? {
      var v := VisitPage(site, resolve, step, url, visited);
      CrawlUnfolds(site, resolve, step, url, visited);
      VisitShrinks(site.Keys, visited, v.candidate);
      CrawlFollowsNextLinks(site, resolve, step, v.candidate, visited + {v.candidate});
      var rest := Crawl(site, resolve, step, v.candidate, visited + {v.candidate});
      if rest.Ok? {
        var t, rq := rest.value, r.value.requested;
        assert rq == [url] + t.requested;
        forall i | 0 <= i < |rq| - 1
          ensures NextOf(site, resolve, rq[i]) == Some(rq[i + 1])
        {
          if i > 0 {
            assert rq[i] == t.requested[i - 1] && rq[i + 1] == t.requested[i];
          }
        }
        forall i | 1 <= i < |rq|
          ensures rq[i] !in visited
        {
          assert rq[i] == t.requested[i - 1];
        }
      }
    }
  }

  /** The URLs marked as seen once the crawl has requested `requested`, starting from `visited`. */
  function SeenAfter(visited: set<string>, requested: seq<string>): set<string>
  {
    visited + (set i | 1 <= i < |requested| :: requested[i])
  }

  /** Requesting `url` and then `rest` marks as seen what requesting `rest`, with its first URL marked, does. */
  lemma SeenAfterStep(visited: set<string>, url: string, rest: seq<string>)
    requires rest != []
    ensures SeenAfter(visited + {rest[0]}, rest) == SeenAfter(visited, [url] + rest)
  {
    var rq := [url] + rest;
    forall x | x in SeenAfter(visited + {rest[0]}, rest)
      ensures x in SeenAfter(visited, rq)
    {
      if x !in visited && x != rest[0] {
        var i :| 1 <= i < |rest| && rest[i] == x;
        assert rq[i + 1] == x;
      } else if x == rest[0] {
        assert rq[1] == x;
      }
    }
    forall x | x in SeenAfter(visited, rq)
      ensures x in SeenAfter(visited + {rest[0]}, rest)
    {
      if x !in visited {
        var i :| 1 <= i < |rq| && rq[i] == x;
        assert rest[i - 1] == x;
      }
    }
  }

  /**
   * A crawl stops at the last page it requested, for the reason it reports:
   * that request failed, the page has no table, or it has no "next" link.
   */
  lemma {:induction false} CrawlStopsWhereItSays(site: Site, resolve: Resolver, step: Row -> Step<Tender>, url: string, visited: set<string>)
    ensures var r := Crawl(site, resolve, step, url, visited);
      r.Ok? && r.value.requested != [] ==>
        var last := Get(site, r.value.requested[|r.value.requested| - 1]);
        && (r.value.halt == RequestFailed <==> last.Failed?)
        && (r.value.halt == NoTable <==> last.Fetched? && last.table.None?)
        && (r.value.halt == LastPage <==> last.Fetched? && last.table.Some? && last.next.None?)
    decreases |site.Keys - visited|, if url in site then 1 else 0
  {
    var r := Crawl(site, resolve, step, url, visited);
    if url != "" {
      var v := VisitPage(site, resolve, step, url, visited);
      CrawlUnfolds(site, resolve, step, url, visited);
      if v.Stop? {
        VisitPageStops(site, resolve, step, url, visited);
      } else {
        VisitShrinks(site.Keys, visited, v.candidate);
        CrawlStopsWhereItSays(site, resolve, step, v.candidate, visited + {v.candidate});
        var rest := Crawl(site, resolve, step, v.candidate, visited + {v.candidate});
        if rest.Ok? {
          var t, rq := rest.value, r.value.requested;
          assert rq == [url] + t.requested;
          if t.requested != [] {
            assert rq[|rq| - 1] == t.requested[|t.requested| - 1];
          }
        }
      }
    }
  }

  /**
   * Every page a crawl requested before its last one was fetched and had a
   * table: the crawl went on past it, keeping its rows.
   */
  lemma {:induction false} CrawlPassedOnlyFullPages(site: Site, resolve: Resolver, step: Row -> Step<Tender>, url: string, visited: set<string>)
    ensures var r := Crawl(site, resolve, step, url, visited);
      r.Ok? ==>
        var rq := r.value.requested;
        forall i :: 0 <= i < |rq| - 1 ==> Get(site, rq[i]).Fetched? && Get(site, rq[i]).table.Some?
    decreases |site.Keys - visited|, if url in site then 1 else 0
  {
    var r := Crawl(site, resolve, step, url, visited);
    if url != "" && VisitPage(site, resolve, step, url, visited).Follow? {
      var v := VisitPage(site, resolve, step, url, visited);
      CrawlUnfolds(site, resolve, step, url, visited);
      VisitShrinks(site.Keys, visited, v.candidate);
      CrawlPassedOnlyFullPages(site, resolve, step, v.candidate, visited + {v.candidate});
      var rest := Crawl(site, resolve, step, v.candidate, visited + {v.candidate});
      if rest.Ok? {
        var t, rq := rest.value, r.value.requested;
        assert rq == [url] + t.requested;
        forall i | 0 <= i < |rq| - 1
          ensures Get(site, rq[i]).Fetched? && Get(site, rq[i]).table.Some?
        {
          if i > 0 {
            assert rq[i] == t.requested[i - 1];
          }
        }
      }
    }
  }

  /** A crawl that reports a loop stopped on a link to a URL it had already marked as seen. */
  lemma {:induction false} CrawlLoopIsReal(site: Site, resolve: Resolver, step: Row -> Step<Tender>, url: string, visited: set<string>)
    ensures var r := Crawl(site, resolve, step, url, visited);
      r.Ok? && r.value.halt == LoopDetected ==>
        var rq := r.value.requested;
        && rq != []
        && NextOf(site, resolve, rq[|rq| - 1]).Some?
        && NextOf(site, resolve, rq[|rq| - 1]).value in SeenAfter(visited, rq)
    decreases |site.Keys - visited|, if url in site then 1 else 0
  {
    var r := Crawl(site, resolve, step, url, visited);
    if url != "" {
      var v := VisitPage(site, resolve, step, url, visited);
      CrawlUnfolds(site, resolve, step, url, visited);
      if v.Stop? {
        VisitPageStops(site, resolve, step, url, visited);
      } else {
        VisitShrinks(site.Keys, visited, v.candidate);
        CrawlLoopIsReal(site, resolve, step, v.candidate, visited + {v.candidate});
        var rest := Crawl(site, resolve, step, v.candidate, visited + {v.candidate});
        if rest.Ok? && rest.value.halt == LoopDetected {
          var t, rq := rest.value, r.value.requested;
          assert rq == [url] + t.requested;
          assert rq[|rq| - 1] == t.requested[|t.requested| - 1];
          SeenAfterStep(visited, url, t.requested);
        }
      }
    }
  }

  /**
   * A crawl that reports an empty URL either started from one or stopped on
   * a page whose "next" link resolves to the empty string.
   */
  lemma {:induction false} CrawlEndsOnEmptyLink(site: Site, resolve: Resolver, step: Row -> Step<Tender>, url: string, visited: set<string>)
    ensures var r := Crawl(site, resolve, step, url, visited);
      r.Ok? && r.value.halt == NoUrl ==>
        var rq := r.value.requested;
        (rq == [] <==> url == "") && (rq != [] ==> NextOf(site, resolve, rq[|rq| - 1]) == Some(""))
    decreases |site.Keys - visited|, if url in site then 1 else 0
  {
    var r := Crawl(site, resolve, step, url, visited);
    if url != "" && VisitPage(site, resolve, step, url, visited).Follow? {
      var v := VisitPage(site, resolve, step, url, visited);
      CrawlUnfolds(site, resolve, step, url, visited);
      VisitShrinks(site.Keys, visited, v.candidate);
      CrawlEndsOnEmptyLink(site, resolve, step, v.candidate, visited + {v.candidate});
      var rest := Crawl(site, resolve, step, v.candidate, visited + {v.candidate});
      if rest.Ok? && rest.value.halt == NoUrl {
        var t, rq := rest.value, r.value.requested;
        assert rq == [url] + t.requested;
        if t.requested != [] {
          assert rq[|rq| - 1] == t.requested[|t.requested| - 1];
        }
      }
    }
  }

  /**
   * When the start URL is already marked as seen, no URL is requested twice;
   * `BdaFixed` therefore requests each page at most once.
   */
  lemma FixedRequestsEachUrlOnce(site: Site, resolve: Resolver)
    ensures var r := Crawl(site, resolve, Extractor(resolve), Url, {Url});
      r.Ok? ==> Distinct(r.value.requested)
  {
    CrawlDistinct(site, resolve, Extractor(resolve), Url, {Url});
  }

  lemma {:induction false} CrawlDistinct(site: Site, resolve: Resolver, step: Row -> Step<Tender>, url: string, visited: set<string>)
    requires url in visited
    ensures var r := Crawl(site, resolve, step, url, visited);
      r.Ok? ==> Distinct(r.value.requested)
    decreases |site.Keys - visited|, if url in site then 1 else 0
  {
    var r := Crawl(site, resolve, step, url, visited);
    if url != "" && VisitPage(site, resolve, step, url, visited).Follow? {
      var v := VisitPage(site, resolve, step, url, visited);
      CrawlUnfolds(site, resolve, step, url, visited);
      VisitShrinks(site.Keys, visited, v.candidate);
      CrawlDistinct(site, resolve, step, v.candidate, visited + {v.candidate});
      CrawlFollowsNextLinks(site, resolve, step, url, visited);
      var rest := Crawl(site, resolve, step, v.candidate, visited + {v.candidate});
      if rest.Ok? {
        var t, rq := rest.value, r.value.requested;
        assert rq == [url] + t.requested;
        forall j, k | 0 <= j < k < |rq|
          ensures rq[j] != rq[k]
        {
          if j > 0 {
            assert rq[j] == t.requested[j - 1] && rq[k] == t.requested[k - 1];
          }
        }
      }
    }
  }

  /** A page of one data row whose cells hold `srNo` and no links, and a "next" link to `next`. */
  function OneRowPage(srNo: string, next: string): Fetch
  {
    Fetched(Some([Row([Cell(Td, srNo, srNo, srNo, []), Cell(Td, "", "", "", []),
                       Cell(Td, "", "", "", []), Cell(Td, "", "", "", [])])]),
            Some(Anchor("Next", Some(next))))
  }

  /** The record of the one row of a `OneRowPage`. */
  function Record(srNo: string): Tender
  {
    Tender(srNo, "", None, "")
  }

  lemma OneRowPageRecords(srNo: string, next: string)
    ensures Harvest(OneRowPage(srNo, next).table.value, Extractor(KeepRef)) == Ok([Record(srNo)])
  {
    var rows := OneRowPage(srNo, next).table.value;
    assert rows[..0] == [];
    assert Tds(rows[0]) == rows[0].cells;
    assert AnchorHref(rows[0].cells[2]) == Ok(None);
    assert Extractor(KeepRef)(rows[0]) == Emit(Tender(srNo, "", None, ""));
    assert Harvest(rows[..0], Extractor(KeepRef)) == Ok([]);
    assert [] + [Tender(srNo, "", None, "")] == [Tender(srNo, "", None, "")];
  }

  /** A resolver that keeps the reference as it is, as `urljoin` does for an absolute one. */
  function KeepRef(base: string, ref: string): string
  {
    ref
  }

  /** A page whose "next" link leads to a URL not yet seen hands the crawl on to that URL. */
  lemma CrawlMovesOn(site: Site, resolve: Resolver, step: Row -> Step<Tender>, url: string, visited: set<string>, ts: seq<Tender>, href: string,
                     seen: set<string>, rest: Trace)
    requires url != "" && Get(site, url).Fetched? && Get(site, url).table.Some?
    requires Harvest(Get(site, url).table.value, step) == Ok(ts)
    requires Get(site, url).next.Some? && Get(site, url).next.value.href == Some(href)
    requires resolve(Url, href) !in visited && seen == visited + {resolve(Url, href)}
    requires Crawl(site, resolve, step, resolve(Url, href), seen) == Ok(rest)
    ensures Crawl(site, resolve, step, url, visited) == Ok(Trace(ts + rest.tenders, [url] + rest.requested, rest.halt))
  {
    assert VisitPage(site, resolve, step, url, visited) == Follow(ts, resolve(Url, href));
  }

  /** A page whose "next" link leads to a URL already seen ends the crawl there. */
  lemma CrawlStopsOnSeen(site: Site, resolve: Resolver, step: Row -> Step<Tender>, url: string, visited: set<string>, ts: seq<Tender>, href: string)
    requires url != "" && Get(site, url).Fetched? && Get(site, url).table.Some?
    requires Harvest(Get(site, url).table.value, step) == Ok(ts)
    requires Get(site, url).next.Some? && Get(site, url).next.value.href == Some(href)
    requires resolve(Url, href) in visited
    ensures Crawl(site, resolve, step, url, visited) == Ok(Trace(ts, [url], LoopDetected))
  {
  }

  /** Three pages, `URL`, `p2` and `p3`, whose "next" links go round from the last back to the first. */
  function LoopSite(p2: string, p3: string): Site
  {
    map[Url := OneRowPage("1", p2), p2 := OneRowPage("2", p3), p3 := OneRowPage("3", Url)]
  }

  lemma LoopSitePages(p2: string, p3: string)
    requires p2 != p3 && p2 != Url && p3 != Url
    ensures Get(LoopSite(p2, p3), Url) == OneRowPage("1", p2)
    ensures Get(LoopSite(p2, p3), p2) == OneRowPage("2", p3)
    ensures Get(LoopSite(p2, p3), p3) == OneRowPage("3", Url)
  {
  }

  lemma ConsTwo<T>(a: T, b: T)
    ensures [a] + [b] == [a, b]
  {
  }

  lemma ConsThree<T>(a: T, b: T, c: T)
    ensures [a] + [b, c] == [a, b, c]
  {
  }

  lemma ConsFour<T>(a: T, b: T, c: T, d: T)
    ensures [a] + [b, c, d] == [a, b, c, d]
  {
  }

  /**
   * The facts the looping example relies on: `site` has the three pages of
   * `LoopSite`, and `step` maps the row of page `n` to `Record(n)`.
   */
  ghost predicate LoopPages(site: Site, step: Row -> Step<Tender>, p2: string, p3: string)
  {
    && p2 != "" && p3 != "" && p2 != p3 && p2 != Url && p3 != Url
    && Get(site, Url) == OneRowPage("1", p2)
    && Get(site, p2) == OneRowPage("2", p3)
    && Get(site, p3) == OneRowPage("3", Url)
    && Harvest(OneRowPage("1", p2).table.value, step) == Ok([Record("1")])
    && Harvest(OneRowPage("2", p3).table.value, step) == Ok([Record("2")])
    && Harvest(OneRowPage("3", Url).table.value, step) == Ok([Record("3")])
  }

  lemma LoopSiteLoops(p2: string, p3: string)
    requires p2 != "" && p3 != "" && p2 != p3 && p2 != Url && p3 != Url
    ensures LoopPages(LoopSite(p2, p3), Extractor(KeepRef), p2, p3)
  {
    LoopSitePages(p2, p3);
    OneRowPageRecords("1", p2);
    OneRowPageRecords("2", p3);
    OneRowPageRecords("3", Url);
  }

  /** As written, the crawl that reaches `p3` goes back to the first page and stops there. */
  lemma LoopBackFromThirdPage(site: Site, step: Row -> Step<Tender>, p2: string, p3: string)
    requires LoopPages(site, step, p2, p3)
    ensures Crawl(site, KeepRef, step, p3, {p2, p3})
         == Ok(Trace([Record("3"), Record("1")], [p3, Url], LoopDetected))
  {
    ConsTwo(Record("3"), Record("1"));
    ConsTwo(p3, Url);
    CrawlStopsOnSeen(site, KeepRef, step, Url, {p2, p3, Url}, [Record("1")], p2);
    CrawlMovesOn(site, KeepRef, step, p3, {p2, p3}, [Record("3")], Url, {p2, p3, Url}, Trace([Record("1")], [Url], LoopDetected));
  }

  /** As written, the crawl that reaches `p2` goes on to `p3` and back to the first page. */
  lemma LoopBackFromSecondPage(site: Site, step: Row -> Step<Tender>, p2: string, p3: string)
    requires LoopPages(site, step, p2, p3)
    ensures Crawl(site, KeepRef, step, p2, {p2})
         == Ok(Trace([Record("2"), Record("3"), Record("1")], [p2, p3, Url], LoopDetected))
  {
    LoopBackFromThirdPage(site, step, p2, p3);
    ConsThree(Record("2"), Record("3"), Record("1"));
    ConsThree(p2, p3, Url);
    CrawlMovesOn(site, KeepRef, step, p2, {p2}, [Record("2")], p3, {p2, p3}, Trace([Record("3"), Record("1")], [p3, Url], LoopDetected));
  }

  /**
   * On the looping site, `BDA()` as written requests the first page a second
   * time, when the link from `p3` leads back to it, and returns its record
   * twice; only the link from the first page to `p2`, seen by then, stops it.
   */
  lemma LoopBackRefetchesStart(p2: string, p3: string)
    requires p2 != "" && p3 != "" && p2 != p3 && p2 != Url && p3 != Url
    ensures Crawl(LoopSite(p2, p3), KeepRef, Extractor(KeepRef), Url, {})
         == Ok(Trace([Record("1"), Record("2"), Record("3"), Record("1")], [Url, p2, p3, Url], LoopDetected))
  {
    LoopSiteLoops(p2, p3);
    LoopBackFromStart(LoopSite(p2, p3), Extractor(KeepRef), p2, p3);
  }

  lemma LoopBackFromStart(site: Site, step: Row -> Step<Tender>, p2: string, p3: string)
    requires LoopPages(site, step, p2, p3)
    ensures Crawl(site, KeepRef, step, Url, {})
         == Ok(Trace([Record("1"), Record("2"), Record("3"), Record("1")], [Url, p2, p3, Url], LoopDetected))
  {
    var t1, t2, t3 := Record("1"), Record("2"), Record("3");
    LoopBackFromSecondPage(site, step, p2, p3);
    ConsFour(t1, t2, t3, t1);
    ConsFour(Url, p2, p3, Url);
    CrawlMovesOn(site, KeepRef, step, Url, {}, [t1], p2, {p2}, Trace([t2, t3, t1], [p2, p3, Url], LoopDetected));
  }

  /** With the start URL marked as seen, the crawl that reaches `p2` stops after `p3`. */
  lemma LoopBackFixedFromSecondPage(site: Site, step: Row -> Step<Tender>, p2: string, p3: string)
    requires LoopPages(site, step, p2, p3)
    ensures Crawl(site, KeepRef, step, p2, {Url, p2})
         == Ok(Trace([Record("2"), Record("3")], [p2, p3], LoopDetected))
  {
    ConsTwo(Record("2"), Record("3"));
    ConsTwo(p2, p3);
    CrawlStopsOnSeen(site, KeepRef, step, p3, {Url, p2, p3}, [Record("3")], Url);
    CrawlMovesOn(site, KeepRef, step, p2, {Url, p2}, [Record("2")], p3, {Url, p2, p3}, Trace([Record("3")], [p3], LoopDetected));
  }

  /** On the same site, with the start URL marked as seen, each page is requested once. */
  lemma LoopBackFixed(p2: string, p3: string)
    requires p2 != "" && p3 != "" && p2 != p3 && p2 != Url && p3 != Url
    ensures Crawl(LoopSite(p2, p3), KeepRef, Extractor(KeepRef), Url, {Url})
         == Ok(Trace([Record("1"), Record("2"), Record("3")], [Url, p2, p3], LoopDetected))
  {
    LoopSiteLoops(p2, p3);
    LoopBackFixedFromStart(LoopSite(p2, p3), Extractor(KeepRef), p2, p3);
  }

  lemma LoopBackFixedFromStart(site: Site, step: Row -> Step<Tender>, p2: string, p3: string)
    requires LoopPages(site, step, p2, p3)
    ensures Crawl(site, KeepRef, step, Url, {Url})
         == Ok(Trace([Record("1"), Record("2"), Record("3")], [Url, p2, p3], LoopDetected))
  {
    LoopBackFixedFromSecondPage(site, step, p2, p3);
    ConsThree(Record("1"), Record("2"), Record("3"));
    ConsThree(Url, p2, p3);
    CrawlMovesOn(site, KeepRef, step, Url, {Url}, [Record("1")], p2, {Url, p2}, Trace([Record("2"), Record("3")], [p2, p3], LoopDetected));
  }
}
