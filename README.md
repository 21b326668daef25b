# Tender scrapers

Nine Python scripts each scrape one public tender listing and replace a
MongoDB collection with what they found. Each script follows the same
steps:

1. Locate a listing container in the fetched page.
2. Walk its rows, skipping a row whose cell count is below a threshold.
3. Map cell positions to the fields of a record.
4. Hand the records to `store_in_mongo`. It ignores an empty batch, and
   otherwise deletes every document and inserts the new batch.

Two scripts do more:

- `Bhatinda_DA.py` follows the listing's "next" pager link from page to
  page, keeping a set of visited URLs to stop on a loop.
- `Ayurveda.py` keeps only the first link for each `(title, url)` pair.

The model is a set of Dafny modules:

- **`Html`** is the parsed page as the scripts read it. A located container
  is an `Option` of its rows. A cell carries its text already extracted
  (`get_text(strip=True)`, `get_text(" ", strip=True)`,
  `get_text(separator="\n")`) and its anchors. It also has the lookups
  `find_all("td")`, `find("a")`, `find("a", href=True)` and
  `tag["href"] if tag else …`.
- **`PyStr`** is Python's `str.strip()`.
- **`Listing`** is the row loop every script runs.
  - `Harvest` is its specification: the records of the accepted rows, in
    row order, or the first exception a row raises.
  - `CollectRows` is the loop itself, proved equal to `Harvest`.
- **`Store`** is a MongoDB collection: a class whose field is the sequence
  of its documents. `StoreInMongo` models `store_in_mongo`. That function
  behaves identically in all nine scripts: ALHW_tender.py:164-176,
  Bhatinda_DA.py:120-132, CUR.py:109-121, Ajnala_sugar.py:103-115,
  CMRF.py:102-114, ASCL_tender.py:98-110, IGIB.py:84-96, Ayurveda.py:86-98
  and Assam_petro_che_ltd.py:81-93.
- **One module per script** supplies its per-row step and its scrape
  method: `AlhwTender`, `BhatindaDa`, `Cur`, `AjnalaSugar`, `Cmrf`,
  `AsclTender`, `Igib`, `Ayurveda`, `AssamPetroChe`.

In `BhatindaDa`, the site is a finite map from URL to what requesting it
yields. A URL that is not in the map is a failed request.
- `Crawl` specifies the `while next_url` loop.
- `VisitPage` specifies one pass of its body.
- `Paginate` is the loop, proved equal to `Crawl`.
- `Bda` runs `Paginate` as the script does.
- `BdaFixed` runs it with the start URL already marked as seen.

An exception the source does not catch is an `Err` result:
- `IndexError` is an index past the end of a row;
- `KeyError("href")` is `tag["href"]` on an anchor without an href.

`urljoin` (section 5.2 of RFC 3986) is a `Resolver` function parameter.
The model leaves it uninterpreted.

Three points about the code that are easy to miss:
- `BDA()` never marks its start URL as visited. When the "next" links lead
  back to page 1, it fetches that page a second time and adds its rows
  again. See Findings.
- The `while next_url` loop has no iteration cap. On a site with finitely
  many pages it still ends, because every page it moves on to is one not
  visited before (`CrawlRequestsBounded`).
- `BDA()` and `cur()` catch a failed request and return the records
  gathered so far, possibly none.

## Model

| member | source | states |
|---|---|---|
| `Html.Tds` | Bhatinda_DA.py:89 | `find_all("td")` returns no more cells than the row has; a cell is in the result exactly when it is one of the row's data cells; a row with only data cells comes back whole |
| `Html.TdPositions` | Bhatinda_DA.py:89 | the positions of a row's `td` cells: strictly increasing, and holding exactly the positions whose cell is a `td` |
| `Html.DataCellsAppend` | Bhatinda_DA.py:89 | selecting the `td` cells of two runs of cells one after the other gives the first run's selection followed by the second's |
| `Html.TdsInOrder` | Bhatinda_DA.py:89 | `find_all("td")` keeps document order: the k-th data cell is the row's cell at the k-th `td` position |
| `Html.FindAnchor` | Bhatinda_DA.py:96 | `find("a")` gives nothing exactly when the cell has no anchor, and otherwise the cell's first anchor, with or without an href |
| `Html.FindLinked` | IGIB.py:66 | `find("a", href=True)` gives nothing exactly when no anchor has an href; otherwise it gives the first anchor that has one, every anchor before it having none |
| `Html.AnchorHref` | Bhatinda_DA.py:96 | `tag["href"] if tag else None` with `tag = find("a")`: no anchor gives no link; it raises `KeyError` exactly when the first anchor has no href; otherwise it gives that anchor's href |
| `Html.HrefOrEmpty` | ALHW_tender.py:111-112 | `tag["href"] if tag else ""` with `tag = find("a")`: no anchor gives `""`; it raises `KeyError("href")` exactly when the first anchor has no href; otherwise it gives that anchor's href |
| `Html.ResolvedLink` | IGIB.py:66-71 | the first anchor with an href, its href resolved against the script's URL; nothing exactly when no anchor has an href |
| `PyStr.StripStart` | IGIB.py:69 | the kept part is never longer than the input and does not start with whitespace |
| `PyStr.StripEnd` | IGIB.py:69 | the kept part is never longer than the input and does not end with whitespace |
| `PyStr.StripStartSplits` | IGIB.py:69 | `lstrip` keeps a suffix of its input and drops only whitespace before it |
| `PyStr.StripEndSplits` | IGIB.py:69 | `rstrip` keeps a prefix of its input and drops only whitespace after it |
| `PyStr.Strip` | IGIB.py:69 | `strip()` gives a string no longer than its input with no whitespace at either end |
| `PyStr.StripKeepsMiddle` | Assam_petro_che_ltd.py:68 | `strip()` keeps one contiguous slice of its input, and everything before and after that slice is whitespace |
| `PyStr.StripUnique` | Assam_petro_che_ltd.py:68 | for whitespace, then a middle with no outer whitespace, then whitespace, `strip()` returns that middle |
| `PyStr.StripIdempotent` | IGIB.py:69 | stripping a stripped string changes nothing |
| `PyStr.IsSpace` | IGIB.py:69 | the characters `str.isspace()` accepts, which are the ones `strip()` removes |
| `Listing.DropHeader` | ALHW_tender.py:78 | `rows[1:]` has one row fewer than a non-empty input (none for an empty one), and its i-th row is the input's (i+1)-th |
| `Listing.Harvest` | ALHW_tender.py:74-161 | the loop's outcome never has more records than rows |
| `Listing.HarvestAppend` | Bhatinda_DA.py:63-101 | walking two row lists one after the other gives the first list's records followed by the second's; the first error wins |
| `Listing.HarvestFailsIffRaises` | ALHW_tender.py:78-159 | the loop fails exactly when some row raises; skipped rows never cause a failure |
| `Listing.HarvestErrorFromRow` | ALHW_tender.py:78-159 | the error the loop returns is the one raised by the first raising row; no row before it raises |
| `Listing.HarvestTotal` | IGIB.py:61-79 | a row step that never raises gives a loop that never fails |
| `Listing.EmitIndices` | ALHW_tender.py:78-159 | the positions of the accepted rows are strictly increasing; they hold exactly the rows whose step emits a record |
| `Listing.HarvestInRowOrder` | ALHW_tender.py:78-159 | there is one record per accepted row, and the k-th record is the one the k-th accepted row emits |
| `Listing.HarvestKeeps` | Assam_petro_che_ltd.py:60-76 | a property every emitted record has holds of every record the loop returns |
| `Listing.CollectRows` | ALHW_tender.py:74-161 | the `for row in rows … continue … append` loop returns exactly `Harvest` of its rows |
| `Store.AfterStore` | ALHW_tender.py:164-176 | an empty batch leaves the old contents; a non-empty batch leaves exactly the batch; the result is empty only if both were |
| `Store.AfterStoreIdempotent` | ALHW_tender.py:164-176 | storing the same batch twice leaves what storing it once left |
| `Store.AfterStoreForgetsOld` | ALHW_tender.py:173-174 | after a non-empty store, the old contents do not affect the result |
| `Store.Collection.DeleteMany` | ALHW_tender.py:173 | `delete_many({})` leaves the collection empty |
| `Store.Collection.InsertMany` | ALHW_tender.py:174 | `insert_many(data)` appends the batch to the collection |
| `Store.Collection.StoreInMongo` | ALHW_tender.py:164-176 | an empty batch leaves the collection unchanged; otherwise the collection holds exactly the batch, with every old document gone |
| `AlhwTender.ExtractWithGuard` | ALHW_tender.py:81-122 | a row is skipped exactly when it is below the guard; it raises `KeyError` exactly when the first anchor of cell 28 or 30 (or of cell 32, when the row has one) lacks an href; it raises `IndexError` exactly when it has 32 cells and cells 28 and 30 resolve; otherwise, with 33 cells or more, it gives `Build` of the row with the three hrefs or `""` |
| `AlhwTender.Build` | ALHW_tender.py:84-122 | field by field, cell k's stripped text gives the k-th field for cells 1 to 27, 29 and 31; the three link fields come from cells 28, 30 and 32; cell 0 is not read |
| `AlhwTender.ScrapeTenders` | ALHW_tender.py:63-161 | as written: no container gives `[]`; otherwise the outcome is `Harvest` of the rows after the header with the 32-cell guard; it has at most one record per row, and any error is `IndexError` or `KeyError` |
| `AlhwTender.ScrapeTendersFixed` | ALHW_tender.py:63-161 | the same scrape with the 33-cell guard; its only possible error is `KeyError` |
| `AlhwTender.ShortRowsSkipped` | ALHW_tender.py:81-82 | rows below 32 cells are skipped by both guards and never raise |
| `AlhwTender.FixOnlyTouchesThirtyTwoCellRows` | ALHW_tender.py:81-122 | the two guards give the same outcome on every row that does not have exactly 32 cells |
| `AlhwTender.FirstCellIgnored` | ALHW_tender.py:84-122 | cell 0 is never read: rows that differ only there give the same outcome |
| `AlhwTender.ThirtyTwoCellRowAborts` | ALHW_tender.py:81-122 | a page whose data row has 32 plain cells fails with `IndexError` as written, and yields `[]` with no error under the 33-cell guard |
| `AlhwTender.FixedNeverIndexError` | ALHW_tender.py:81-122 | under the 33-cell guard no page fails with `IndexError` |
| `BhatindaDa.Get` | Bhatinda_DA.py:71-76 | a URL in the site yields its entry; any other URL is a failed request |
| `BhatindaDa.Extract` | Bhatinda_DA.py:89-97 | rows under 4 cells are skipped; a row raises `KeyError` exactly when cell 2's first anchor has no href; `documents` is that href resolved against `URL`, or `None` without an anchor; the other fields come from cells 0, 1 and 3 |
| `BhatindaDa.NextOf` | Bhatinda_DA.py:104-109 | a "next" URL exists exactly when the page was fetched, has a table, and has a "next" anchor with an href; it is that href resolved against `URL` |
| `BhatindaDa.ExtractRaisesOnlyKeyError` | Bhatinda_DA.py:96 | the only exception a row can raise is `KeyError("href")` |
| `BhatindaDa.VisitPage` | Bhatinda_DA.py:68-115 | one pass either stops with a one-request trace or moves on; it moves on only to an unseen URL, the one the page's "next" link resolves to against `URL`, and then keeps the page's records; a failed request, a page without a table, and a page whose rows all pass and that has no "next" link each stop successfully with that page's records and the matching reason |
| `BhatindaDa.VisitPageStops` | Bhatinda_DA.py:71-113 | a pass that stops keeps the page's records; it reports a failed request, a missing table or a missing "next" link exactly when the page is in that state; a loop stop means the link leads to a URL already seen |
| `BhatindaDa.Crawl` | Bhatinda_DA.py:61-118 | an empty URL makes no request; otherwise the first request is of that URL |
| `BhatindaDa.CrawlUnfolds` | Bhatinda_DA.py:68-115 | the crawl from a URL is that page's stop outcome, or its records and request put in front of the crawl from the next URL |
| `BhatindaDa.CrawlRequestsBounded` | Bhatinda_DA.py:111-115 | a crawl makes at most two requests more than the site has unseen pages, so the loop ends on a site with finitely many pages |
| `BhatindaDa.Paginate` | Bhatinda_DA.py:61-118 | the `while next_url` loop with its `visited_urls` set returns exactly what `Crawl` describes |
| `BhatindaDa.Bda` | Bhatinda_DA.py:61-118 | `BDA()` as written returns the records of the crawl from `URL` with nothing marked as seen; its only possible error is `KeyError("href")`, and it succeeds on every site where no row of a fetched table raises and every "next" anchor has an href |
| `BhatindaDa.BdaFixed` | Bhatinda_DA.py:61-118 | the same crawl with `URL` marked as seen from the start; it too fails only with `KeyError("href")` and succeeds on every site where nothing raises |
| `BhatindaDa.CrawlSucceeds` | Bhatinda_DA.py:68-115 | on a site where no row of a fetched table raises and every "next" anchor has an href, the crawl returns its records rather than an exception |
| `BhatindaDa.CrawlErrors` | Bhatinda_DA.py:96-109 | when rows raise only `KeyError("href")`, that is the only exception the crawl lets escape |
| `BhatindaDa.CrawlConcatenatesPages` | Bhatinda_DA.py:63-101 | the crawl's records are the accepted rows of every requested page, concatenated in request order |
| `BhatindaDa.CrawlFollowsNextLinks` | Bhatinda_DA.py:104-115 | each request after the first is of the URL the previous page's "next" link resolves to against `URL`, and none of them was seen when the crawl began |
| `BhatindaDa.CrawlStopsWhereItSays` | Bhatinda_DA.py:71-107 | the crawl reports a failed request, a missing table or a missing "next" link exactly when its last page is in that state |
| `BhatindaDa.CrawlPassedOnlyFullPages` | Bhatinda_DA.py:71-101 | every page before the last was fetched and had a table |
| `BhatindaDa.CrawlLoopIsReal` | Bhatinda_DA.py:111-113 | a crawl that reports a loop stopped on a "next" link to a URL it had already marked as seen |
| `BhatindaDa.CrawlEndsOnEmptyLink` | Bhatinda_DA.py:68-109 | a crawl that stops on an empty URL either started from one or followed a "next" link that resolves to `""` |
| `BhatindaDa.FixedRequestsEachUrlOnce` | Bhatinda_DA.py:64-115 | with `URL` marked as seen from the start, no URL is requested twice |
| `BhatindaDa.CrawlDistinct` | Bhatinda_DA.py:111-115 | a crawl whose start URL is already marked as seen never requests a URL twice |
| `BhatindaDa.CrawlMovesOn` | Bhatinda_DA.py:104-115 | a page whose "next" link leads to an unseen URL hands the crawl on to that URL, keeping its own records and request in front |
| `BhatindaDa.CrawlStopsOnSeen` | Bhatinda_DA.py:111-113 | a page whose "next" link leads to a seen URL ends the crawl with its records and a loop stop |
| `BhatindaDa.LoopBackRefetchesStart` | Bhatinda_DA.py:64-115 | as written, three pages linked in a cycle back to `URL` are requested as `URL, p2, p3, URL`, and page 1's record comes out twice |
| `BhatindaDa.LoopBackFixed` | Bhatinda_DA.py:64-115 | with `URL` marked as seen, the same site is requested as `URL, p2, p3`, and each record comes out once |
| `Cur.Extract` | CUR.py:80-104 | a row never raises; `title` is the `h2` text; `doc_title` and `pdf_url` both come from the first anchor with an href (`pdf_url` resolved against `BASE_URL`), or are both `None`; a record is kept exactly when the `h2` text, that anchor's text or its resolved href is non-empty, and every kept record has a truthy field |
| `Cur.Cur` | CUR.py:60-106 | a failed request or a missing `innerpage` gives `[]`; otherwise the records are `Harvest` of the `views-row` blocks, at most one per block, each with a truthy field |
| `AjnalaSugar.Extract` | Ajnala_sugar.py:75-98 | rows under 6 cells (`td` or `th`) are skipped; fields come from cells 0 to 4; `documents` is cell 5's raw href, or `""`; a `KeyError` happens exactly when that anchor has no href |
| `AjnalaSugar.ScrapeTenders` | Ajnala_sugar.py:59-100 | no table gives `[]`; otherwise the outcome is `Harvest` of the rows after the header, at most one record per row; any error is `KeyError` |
| `AjnalaSugar.HeaderCellsCount` | Ajnala_sugar.py:75 | a row handles `th` cells exactly like `td` cells |
| `Cmrf.Extract` | CMRF.py:77-97 | rows under 5 data cells are skipped; fields come from cells 0 to 3; `pdf_link` is cell 4's href, or `""`; a `KeyError` happens exactly when that anchor has no href |
| `Cmrf.ScrapeTenders` | CMRF.py:61-99 | no `tbody` gives `[]`; otherwise every row is walked, with no header skip, at most one record per row; any error is `KeyError` |
| `AsclTender.Extract` | ASCL_tender.py:77-93 | rows under 3 data cells are skipped; `title` and `size` come from cells 0 and 1; `pdf_link` is cell 2's href, or `""`; a `KeyError` happens exactly when that anchor has no href |
| `AsclTender.ScrapeTenders` | ASCL_tender.py:61-95 | no `tbody` gives `[]`; otherwise every row is walked, with no header skip, at most one record per row; any error is `KeyError` |
| `Igib.Extract` | IGIB.py:62-79 | rows under 2 cells are skipped and no row raises; `work` is cell 0's newline-joined text stripped, with no outer whitespace; `document` is `ResolvedLink` of cell 0 against `URL`; `date` is cell 1's text |
| `Igib.Igib` | IGIB.py:45-81 | no table gives `[]`; otherwise the records are `Harvest` of the rows after the header, at most one per row, and every `work` is already stripped |
| `Ayurveda.Accepted` | Ayurveda.py:60-67 | the records of the admitted links, duplicates included: no more records than links, every title non-empty, and a record is present exactly when some admitted link gives it |
| `Ayurveda.Admits` | Ayurveda.py:64-65 | `if not title or not href: continue`: a link passes exactly when its title and href are both non-empty |
| `Ayurveda.AcceptedIsHarvest` | Ayurveda.py:60-67 | the filter is the row loop with the step that emits an admitted link's record and skips the rest |
| `Ayurveda.AcceptedInLinkOrder` | Ayurveda.py:60-67 | link order is kept: the k-th record is the one the k-th admitted link gives, the admitted links taken in order |
| `Ayurveda.FirstOccurrences` | Ayurveda.py:68-79 | keeping the first occurrence of each key gives a duplicate-free sequence with the same elements, no longer than its input |
| `Ayurveda.FirstOccurrencesOfDistinct` | Ayurveda.py:68-79 | a sequence without duplicates is left as it is |
| `Ayurveda.FirstOccurrencesIdempotent` | Ayurveda.py:68-79 | removing duplicates twice removes nothing more |
| `Ayurveda.FirstOccurrencesKeepOrder` | Ayurveda.py:60-79 | records come out in the order their first occurrences come in |
| `Ayurveda.Ayurved` | Ayurveda.py:45-82 | the loop with its `seen` set returns the first occurrences of the admitted links' keys: no key twice, every admitted key present, and at most one record per link |
| `AssamPetroChe.Extract` | Assam_petro_che_ltd.py:60-76 | rows under 2 cells are skipped and no row raises; `title` is cell 0's newline-joined text stripped, with no outer whitespace; `link_url` is `ResolvedLink` of cell 0 against `URL` |
| `AssamPetroChe.SecondCellIgnored` | Assam_petro_che_ltd.py:62-70 | cell 1 is counted by the guard but never read |
| `AssamPetroChe.Apl` | Assam_petro_che_ltd.py:44-78 | no table gives `[]`; otherwise every row is walked, with no header skip, at most one record per row, and every title is already stripped |

## Left out

- **Network requests** are not modelled: `requests.get`, `session.get`, the retry policy and the legacy TLS adapter. A page is given as an `Option` of its rows. In `Bhatinda_DA.py` it is an entry of the site map.
- **`raise_for_status`** is an uncaught exception outside the row loop in the scripts that do not catch it: ALHW_tender.py:65, Ajnala_sugar.py:61, CMRF.py:63, ASCL_tender.py:63, IGIB.py:48, Ayurveda.py:48 and Assam_petro_che_ltd.py:47. The model starts after a successful fetch.
- **HTML parsing with BeautifulSoup** is not modelled. A cell's texts and anchors are given already extracted.
- **`urljoin`** is an uninterpreted `Resolver` parameter.
- **The `scraped_at` field** is dropped because it reads the clock.
- **The MongoDB connection, `dotenv`, `print` logging and `main()`** are left out. So is the `_id` field that `insert_many` adds to each inserted dict.
- **The site in `BhatindaDa`** is a fixed map, read once per request. A page that changes between two requests of the same URL is not modelled.
- **`BhatindaDa.CrawlStopsWhereItSays`** does not characterise the empty-URL stop. `BhatindaDa.CrawlEndsOnEmptyLink` states that case.
- **`Ayurveda.Ayurved`** takes the selected links as its input. The CSS selector `div.bs-docs-example table.table tbody tr td a[href]` is not modelled.
- Store.Collection.StoreInMongo: database errors are not modelled. Both calls are assumed to succeed. If `insert_many` raised after `delete_many` succeeded, the script would leave the collection empty or partly filled, and ALHW_tender.py:173-174 does nothing about that.
- BhatindaDa.CrawlRequestsBounded: a site that keeps producing new "next" URLs (say `?page=N` always linking to `?page=N+1`) makes `BDA()` loop forever, since the code has no iteration cap; the model's site is a finite map, which excludes that case.

## Findings

| source | as written | input that shows it | evidently intended | confidence | as-written member | corrected member |
|---|---|---|---|---|---|---|
| ALHW_tender.py:81 | the guard `len(cols) < 32` lets a 32-cell row through; `cols[32]` at line 121 then raises `IndexError`, which aborts the whole scrape | a container whose second row has 32 `td` cells and no anchors | the guard skips rows under 33 cells, so a 32-cell row is passed over like any short row | not executed | `AlhwTender.ThirtyTwoCellRowAborts` | `AlhwTender.FixedNeverIndexError` |
| Bhatinda_DA.py:64 | `visited_urls` starts empty and the start URL is never added, so a "next" chain back to it requests page 1 again and appends its rows a second time | three pages `URL`, `p2`, `p3` whose "next" links go `URL → p2 → p3 → URL` | the start URL counts as visited, so each page is requested once | not executed | `BhatindaDa.LoopBackRefetchesStart` | `BhatindaDa.FixedRequestsEachUrlOnce` |
