/**
 * The parsed-HTML view every scraper walks. The HTML parser itself is not
 * modelled: a located container is an `Option` of its rows, and each cell
 * carries, already extracted, the texts and anchors the scripts read from it.
 */
module Html {

  datatype Option<T> = None | Some(value: T)

  /** The Python exceptions a scraper can raise while it maps a row. */
  datatype ScrapeError =
    | IndexError            // `cols[k]` with `k >= len(cols)`
    | KeyError(key: string) // `tag["href"]` on a tag without that attribute

  datatype Result<T> = Ok(value: T) | Err(error: ScrapeError)

  /**
   * `urljoin(base, ref)`: reference resolution as section 5.2 of RFC 3986
   * describes it. It is kept abstract and passed to the scrapers that use it.
   */
  type Resolver = (string, string) -> string

  /** An `<a>` element: its stripped text and its `href` attribute, if it has one. */
  datatype Anchor = Anchor(text: string, href: Option<string>)

  datatype CellTag = Td | Th

  /**
   * A table cell. `text` is `get_text(strip=True)`, `spaced` is
   * `get_text(" ", strip=True)`, `joined` is `get_text(separator="\n")`
   * (not stripped), and `anchors` are the cell's `<a>` elements in document order.
   */
  datatype Cell = Cell(tag: CellTag, text: string, spaced: string, joined: string, anchors: seq<Anchor>)

  /** A `<tr>`: its `<td>` and `<th>` cells in document order. */
  datatype Row = Row(cells: seq<Cell>)

  /**
   * `row.find_all("td")`: the data cells of a row, in document order: the
   * k-th result is the row's cell at the k-th data-cell position.
   */
  function Tds(row: Row): (cols: seq<Cell>)
    ensures |cols| <= |row.cells|
    ensures forall c :: c in cols <==> c in row.cells && c.tag == Td
    ensures (forall i :: 0 <= i < |row.cells| ==> row.cells[i].tag == Td) ==> cols == row.cells
  {
    DataCells(row.cells)
  }

  function DataCells(cells: seq<Cell>): (cols: seq<Cell>)
    ensures |cols| <= |cells|
    ensures forall c :: c in cols <==> c in cells && c.tag == Td
    ensures (forall i :: 0 <= i < |cells| ==> cells[i].tag == Td) ==> cols == cells
  {
    if cells == [] then []
    else (if cells[0].tag == Td then [cells[0]] else []) + DataCells(cells[1..])
  }

  /**
   * The positions of a row's data cells: strictly increasing, and holding
   * exactly the positions whose cell is a `td`.
   */
  function TdPositions(cells: seq<Cell>): (idx: seq<nat>)
    ensures forall k :: 0 <= k < |idx| ==> idx[k] < |cells| && cells[idx[k]].tag == Td
    ensures forall k, l :: 0 <= k < l < |idx| ==> idx[k] < idx[l]
    ensures forall i :: 0 <= i < |cells| && cells[i].tag == Td ==> i in idx
    decreases |cells|
  {
    if cells == [] then []
    else
      var init := cells[..|cells| - 1];
      var before := TdPositions(init);
      assert forall k :: 0 <= k < |before| ==> cells[before[k]] == init[before[k]];
      assert forall i :: 0 <= i < |init| ==> cells[i] == init[i];
      if cells[|cells| - 1].tag == Td then before + [|cells| - 1] else before
  }

  /** Selecting the data cells of two runs of cells one after the other. */
  lemma {:induction false} DataCellsAppend(a: seq<Cell>, b: seq<Cell>)
    ensures DataCells(a + b) == DataCells(a) + DataCells(b)
    decreases |a|
  {
    if a == [] {
      assert a + b == b;
    } else {
      assert (a + b)[1..] == a[1..] + b;
      DataCellsAppend(a[1..], b);
    }
  }

  /** `find_all` keeps document order: the k-th data cell is the cell at the k-th `td` position. */
  lemma {:induction false} TdsInOrder(cells: seq<Cell>)
    ensures |DataCells(cells)| == |TdPositions(cells)|
    ensures forall k :: 0 <= k < |TdPositions(cells)| ==> DataCells(cells)[k] == cells[TdPositions(cells)[k]]
    decreases |cells|
  {
    if cells != [] {
      var init, last := cells[..|cells| - 1], cells[|cells| - 1];
      TdsInOrder(init);
      DataCellsSnoc(cells);
      var before := TdPositions(init);
      var idx := TdPositions(cells);
      assert idx == if last.tag == Td then before + [|cells| - 1] else before;
      forall k | 0 <= k < |idx|
        ensures DataCells(cells)[k] == cells[idx[k]]
      {
        if k < |before| {
          assert idx[k] == before[k] && cells[before[k]] == init[before[k]];
        }
      }
    }
  }

  /** The data cells of a non-empty run: those of all but the last cell, then the last if it is a `td`. */
  lemma DataCellsSnoc(cells: seq<Cell>)
    requires cells != []
    ensures var last := cells[|cells| - 1];
      DataCells(cells) == DataCells(cells[..|cells| - 1]) + (if last.tag == Td then [last] else [])
  {
    var init, last := cells[..|cells| - 1], cells[|cells| - 1];
    assert cells == init + [last];
    DataCellsAppend(init, [last]);
    assert [last][1..] == [];
    assert DataCells([last]) == (if last.tag == Td then [last] else []) + DataCells([]);
  }

  /** `cell.find("a")`: the first anchor of a cell, whether or not it has an href. */
  function FindAnchor(c: Cell): (r: Option<Anchor>)
    ensures r.None? <==> c.anchors == []
    ensures r.Some? ==> r.value in c.anchors && r.value == c.anchors[0]
  {
    if c.anchors == [] then None else Some(c.anchors[0])
  }

  /** `find("a", href=True)`: the first anchor that carries an href. */
  function FindLinked(anchors: seq<Anchor>): (r: Option<Anchor>)
    ensures r.Some? ==> r.value in anchors && r.value.href.Some?
    ensures r.None? <==> forall a :: a in anchors ==> a.href.None?
    ensures r.Some? ==>
      exists i :: 0 <= i < |anchors| && anchors[i] == r.value && forall j :: 0 <= j < i ==> anchors[j].href.None?
  {
    if anchors == [] then None
    else if anchors[0].href.Some? then Some(anchors[0])
    else
      var r := FindLinked(anchors[1..]);
      assert forall j :: 1 <= j < |anchors| ==> anchors[j] == anchors[1..][j - 1];
      if r.Some? then FirstLinkedPastHead(anchors, r.value); r else r
  }

  /** An anchor first among the tail's linked ones is first in the whole list when the head has no href. */
  lemma FirstLinkedPastHead(anchors: seq<Anchor>, a: Anchor)
    requires anchors != [] && anchors[0].href.None?
    requires exists i :: 0 <= i < |anchors[1..]| && anchors[1..][i] == a && (forall j :: 0 <= j < i ==> anchors[1..][j].href.None?)
    ensures exists i :: 0 <= i < |anchors| && anchors[i] == a && forall j :: 0 <= j < i ==> anchors[j].href.None?
  {
    var i :| 0 <= i < |anchors[1..]| && anchors[1..][i] == a && (forall j :: 0 <= j < i ==> anchors[1..][j].href.None?);
    assert forall j :: 1 <= j < i + 1 ==> anchors[j] == anchors[1..][j - 1];
    assert anchors[i + 1] == a;
  }

  /**
   * `tag["href"] if tag else None` with `tag = cell.find("a")`: no anchor
   * gives no link, and a first anchor without an href raises `KeyError`.
   */
  function AnchorHref(c: Cell): (r: Result<Option<string>>)
    ensures r.Err? <==> c.anchors != [] && c.anchors[0].href.None?
    ensures r == Ok(None) <==> c.anchors == []
    ensures r.Ok? && r.value.Some? ==> c.anchors != [] && c.anchors[0].href == r.value
  {
    match FindAnchor(c)
    case None => Ok(None)
    case Some(a) => if a.href.Some? then Ok(a.href) else Err(KeyError("href"))
  }

  /** `tag["href"] if tag else ""` with `tag = cell.find("a")`. */
  function HrefOrEmpty(c: Cell): (r: Result<string>)
    ensures r.Err? <==> c.anchors != [] && c.anchors[0].href.None?
    ensures r.Err? ==> r.error == KeyError("href")
    ensures c.anchors == [] ==> r == Ok("")
    ensures r.Ok? && c.anchors != [] ==> c.anchors[0].href == Some(r.value)
  {
    match AnchorHref(c)
    case Err(e) => Err(e)
    case Ok(None) => Ok("")
    case Ok(Some(h)) => Ok(h)
  }

  /**
   * `cell.find("a", href=True)` turned into a link: the first anchor with an
   * href, its href resolved against `base`; `None` when no anchor has one.
   */
  function ResolvedLink(resolve: Resolver, base: string, c: Cell): (r: Option<string>)
    ensures r.None? <==> forall a :: a in c.anchors ==> a.href.None?
    ensures r.Some? ==>
      exists i :: 0 <= i < |c.anchors| && c.anchors[i].href.Some?
        && r.value == resolve(base, c.anchors[i].href.value)
        && (forall j :: 0 <= j < i ==> c.anchors[j].href.None?)
  {
    match FindLinked(c.anchors)
    case None => None
    case Some(a) => Some(resolve(base, a.href.value))
  }

  /** Python truthiness of an optional string: neither `None` nor `""`. */
  predicate Truthy(s: Option<string>)
  {
    s.Some? && s.value != ""
  }
}
