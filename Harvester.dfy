/**
 * scrape_libgen: the search result pages fromPage .. toPage are fetched in order; a page
 * whose status is not 200 is reported and skipped; on every other page the third table's
 * rows after the header are read, and the hrefs of the anchors in each row's third cell that
 * start with `book` are appended to the result. A page without that table, a row with fewer
 * than three cells or an anchor without href raises, and the whole harvest fails.
 */
module Harvester {
  import opened Wrappers
  import opened Html

  /** The anchors of one table cell. */
  type Cell = seq<Anchor>

  /** The cells of one table row. */
  type Row = seq<Cell>

  /** One fetched result page: its status code and, once parsed, the rows of its third table
      (None when the page has fewer than three tables). */
  datatype ListingPage = ListingPage(status: int, table: Option<seq<Row>>)

  /** The prefix that marks a link to a detail page. */
  const BookPrefix: string := "book"

  /** Append two partial results; a failure on either side is a failure. */
  function Then(a: Option<seq<string>>, b: Option<seq<string>>): Option<seq<string>> {
    if a.Some? && b.Some? then Some(a.value + b.value) else None
  }

  /** What one anchor contributes: its href when that starts with `book`, nothing otherwise;
      None when it has no href. */
  function AnchorLink(a: Anchor): Option<seq<string>> {
    match a.href
    case None => None
    case Some(h) => if StartsWith(h, BookPrefix) then Some([h]) else Some([])
  }

  /** The detail links among the anchors of a cell, in order; None if an anchor has no href. */
  function CellLinks(cell: Cell): Option<seq<string>>
    decreases |cell|
  {
    if cell == [] then Some([])
    else Then(CellLinks(cell[..|cell| - 1]), AnchorLink(cell[|cell| - 1]))
  }

  /** The links a row contributes, from its third cell; None if it has no third cell. */
  function RowLinks(row: Row): Option<seq<string>> {
    if |row| < 3 then None else CellLinks(row[2])
  }

  /** The links of a sequence of rows, in order. */
  function RowsLinks(rows: seq<Row>): Option<seq<string>>
    decreases |rows|
  {
    if rows == [] then Some([])
    else Then(RowsLinks(rows[..|rows| - 1]), RowLinks(rows[|rows| - 1]))
  }

  /** The links of one page: nothing for a status other than 200, else those of every row
      after the header row. */
  function PageLinks(page: ListingPage): Option<seq<string>> {
    if page.status != 200 then Some([])
    else match page.table
      case None => None
      case Some(rows) => if |rows| == 0 then Some([]) else RowsLinks(rows[1..])
  }

  /** The links of pages fromPage .. toPage, in page order; empty when fromPage > toPage. */
  function Harvest(fetch: int -> ListingPage, fromPage: int, toPage: int): Option<seq<string>>
    decreases toPage - fromPage
  {
    if toPage < fromPage then Some([])
    else Then(Harvest(fetch, fromPage, toPage - 1), PageLinks(fetch(toPage)))
  }

  /** Every link of a successful result starts with `book`. */
  ghost predicate AllBook(r: Option<seq<string>>) {
    r.Some? ==> forall i :: 0 <= i < |r.value| ==> StartsWith(r.value[i], BookPrefix)
  }

  lemma ThenAllBook(a: Option<seq<string>>, b: Option<seq<string>>)
    requires AllBook(a) && AllBook(b)
    ensures AllBook(Then(a, b))
  {
    if a.Some? && b.Some? {
      var s := a.value + b.value;
      forall i | 0 <= i < |s| ensures StartsWith(s[i], BookPrefix) {
        if i >= |a.value| {
          assert s[i] == b.value[i - |a.value|];
        }
      }
    }
  }

  /** Every link a cell contributes starts with `book`. */
  lemma {:induction false} CellLinksAreBook(cell: Cell)
    ensures AllBook(CellLinks(cell))
    decreases |cell|
  {
    if cell != [] {
      CellLinksAreBook(cell[..|cell| - 1]);
      ThenAllBook(CellLinks(cell[..|cell| - 1]), AnchorLink(cell[|cell| - 1]));
    }
  }

  lemma {:induction false} RowsLinksAreBook(rows: seq<Row>)
    ensures AllBook(RowsLinks(rows))
    decreases |rows|
  {
    if rows != [] {
      RowsLinksAreBook(rows[..|rows| - 1]);
      var row := rows[|rows| - 1];
      if |row| >= 3 {
        CellLinksAreBook(row[2]);
      }
      ThenAllBook(RowsLinks(rows[..|rows| - 1]), RowLinks(row));
    }
  }

  /** Every link scrape_libgen returns starts with `book`. */
  lemma {:induction false} HarvestLinksAreBook(fetch: int -> ListingPage, fromPage: int, toPage: int)
    ensures AllBook(Harvest(fetch, fromPage, toPage))
    decreases toPage - fromPage
  {
    if toPage >= fromPage {
      HarvestLinksAreBook(fetch, fromPage, toPage - 1);
      var page := fetch(toPage);
      if page.status == 200 && page.table.Some? && |page.table.value| > 0 {
        RowsLinksAreBook(page.table.value[1..]);
      }
      ThenAllBook(Harvest(fetch, fromPage, toPage - 1), PageLinks(page));
    }
  }

  /** A link is in a cell's result exactly when some anchor of the cell carries it as href and
      it starts with `book`: no link is lost and none is made up. */
  lemma {:induction false} CellLinksMembership(cell: Cell, l: string)
    requires CellLinks(cell).Some?
    ensures l in CellLinks(cell).value
            <==> StartsWith(l, BookPrefix) && exists i :: 0 <= i < |cell| && cell[i].href == Some(l)
    decreases |cell|
  {
    if cell != [] {
      var init := cell[..|cell| - 1];
      var a := cell[|cell| - 1];
      assert CellLinks(init).Some? && AnchorLink(a).Some?;
      CellLinksMembership(init, l);
      assert CellLinks(cell).value == CellLinks(init).value + AnchorLink(a).value;
      if exists i :: 0 <= i < |cell| && cell[i].href == Some(l) {
        var i :| 0 <= i < |cell| && cell[i].href == Some(l);
        if i < |init| {
          assert init[i] == cell[i];
        }
      }
      if exists i :: 0 <= i < |init| && init[i].href == Some(l) {
        var i :| 0 <= i < |init| && init[i].href == Some(l);
        assert cell[i] == init[i];
      }
    }
  }

  /** Duplicates are kept: two anchors with the same detail link give it twice, in order. */
  lemma DuplicatesKept(cell: Cell, a: Anchor)
    requires CellLinks(cell).Some? && a.href.Some? && StartsWith(a.href.value, BookPrefix)
    ensures CellLinks(cell + [a, a]) == Some(CellLinks(cell).value + [a.href.value, a.href.value])
  {
    var c1, c2 := cell + [a], cell + [a, a];
    var h := a.href.value;
    assert c1[..|c1| - 1] == cell && c1[|c1| - 1] == a;
    assert CellLinks(c1) == Some(CellLinks(cell).value + [h]);
    assert c2[..|c2| - 1] == c1 && c2[|c2| - 1] == a;
    assert CellLinks(cell).value + [h] + [h] == CellLinks(cell).value + [h, h];
  }

  /** A page that is not answered with 200 adds nothing and never makes the harvest fail. */
  lemma SkippedPage(fetch: int -> ListingPage, fromPage: int, toPage: int)
    requires fromPage <= toPage && fetch(toPage).status != 200
    ensures Harvest(fetch, fromPage, toPage) == Harvest(fetch, fromPage, toPage - 1)
  {
    var h := Harvest(fetch, fromPage, toPage - 1);
    if h.Some? {
      assert h.value + [] == h.value;
    }
  }

  /** When no page is answered with 200 the harvest is empty. */
  lemma {:induction false} NothingAnswered(fetch: int -> ListingPage, fromPage: int, toPage: int)
    requires forall p :: fromPage <= p <= toPage ==> fetch(p).status != 200
    ensures Harvest(fetch, fromPage, toPage) == Some([])
    decreases toPage - fromPage
  {
    if fromPage <= toPage {
      NothingAnswered(fetch, fromPage, toPage - 1);
      SkippedPage(fetch, fromPage, toPage);
    }
  }

  lemma ThenAssoc(a: Option<seq<string>>, b: Option<seq<string>>, c: Option<seq<string>>)
    ensures Then(Then(a, b), c) == Then(a, Then(b, c))
  {
    if a.Some? && b.Some? && c.Some? {
      assert (a.value + b.value) + c.value == a.value + (b.value + c.value);
    }
  }

  /** Scraping a range is scraping its two halves one after the other. */
  lemma {:induction false} HarvestSplit(fetch: int -> ListingPage, fromPage: int, mid: int, toPage: int)
    requires fromPage - 1 <= mid <= toPage
    ensures Harvest(fetch, fromPage, toPage)
            == Then(Harvest(fetch, fromPage, mid), Harvest(fetch, mid + 1, toPage))
    decreases toPage - mid
  {
    if mid == toPage {
      var h := Harvest(fetch, fromPage, mid);
      if h.Some? {
        assert h.value + [] == h.value;
      }
    } else {
      HarvestSplit(fetch, fromPage, mid, toPage - 1);
      ThenAssoc(Harvest(fetch, fromPage, mid), Harvest(fetch, mid + 1, toPage - 1),
                PageLinks(fetch(toPage)));
    }
  }

  /** Once a cell prefix fails, the whole cell fails. */
  lemma {:induction false} CellFailureSticks(cell: Cell, n: nat)
    requires n <= |cell| && CellLinks(cell[..n]) == None
    ensures CellLinks(cell) == None
    decreases |cell| - n
  {
    if n < |cell| {
      assert cell[..n + 1][..n] == cell[..n];
      CellFailureSticks(cell, n + 1);
    } else {
      assert cell[..n] == cell;
    }
  }

  /** Once a prefix of the rows fails, all of them fail. */
  lemma {:induction false} RowsFailureSticks(rows: seq<Row>, n: nat)
    requires n <= |rows| && RowsLinks(rows[..n]) == None
    ensures RowsLinks(rows) == None
    decreases |rows| - n
  {
    if n < |rows| {
      assert rows[..n + 1][..n] == rows[..n];
      RowsFailureSticks(rows, n + 1);
    } else {
      assert rows[..n] == rows;
    }
  }

  /** A page that raises makes every harvest whose range contains it raise. */
  lemma {:induction false} PageFailureSticks(fetch: int -> ListingPage, fromPage: int, page: int, toPage: int)
    requires fromPage <= page <= toPage && PageLinks(fetch(page)) == None
    ensures Harvest(fetch, fromPage, toPage) == None
    decreases toPage - page
  {
    if page < toPage {
      PageFailureSticks(fetch, fromPage, page, toPage - 1);
    }
  }

  /** scrape_libgen. `fetch` gives the page the search endpoint returns for a page number;
      None stands for the exception the source lets escape. */
  method ScrapeLibgen(fetch: int -> ListingPage, fromPage: int, toPage: int)
    returns (links: Option<seq<string>>)
    ensures links == Harvest(fetch, fromPage, toPage)
  {
    var acc: seq<string> := [];
    var page := fromPage;
    while page <= toPage
      invariant fromPage <= page && (page <= toPage + 1 || page == fromPage)
      invariant Harvest(fetch, fromPage, page - 1) == Some(acc)
      decreases toPage - page
    {
      var response := fetch(page);
      ghost var before := acc;
      if response.status == 200 {
        if response.table.None? {
          PageFailureSticks(fetch, fromPage, page, toPage);
          return None;
        }
        var rows: seq<Row> := response.table.value;
        if |rows| > 0 {
          var body := rows[1..];
          assert body[..0] == [] && acc + [] == acc;
          for j := 0 to |body|
            invariant Then(Some(before), RowsLinks(body[..j])) == Some(acc)
          {
            var tds: Row := body[j];
            assert body[..j + 1][..j] == body[..j];
            if |tds| < 3 {
              RowsFailureSticks(body, j + 1);
              PageFailureSticks(fetch, fromPage, page, toPage);
              return None;
            }
            var anchors: Cell := tds[2];
            ghost var rowStart := acc;
            assert anchors[..0] == [] && acc + [] == acc;
            for n := 0 to |anchors|
              invariant Then(Some(rowStart), CellLinks(anchors[..n])) == Some(acc)
            {
              var href: Option<string> := anchors[n].href;
              assert anchors[..n + 1][..n] == anchors[..n];
              if href.None? {
                CellFailureSticks(anchors, n + 1);
                RowsFailureSticks(body, j + 1);
                PageFailureSticks(fetch, fromPage, page, toPage);
                return None;
              }
              ThenAssoc(Some(rowStart), CellLinks(anchors[..n]), AnchorLink(anchors[n]));
              if StartsWith(href.value, BookPrefix) {
                acc := acc + [href.value];
              } else {
                assert acc + [] == acc;
              }
            }
            assert anchors[..|anchors|] == anchors;
            ThenAssoc(Some(before), RowsLinks(body[..j]), RowLinks(tds));
          }
          assert body[..|body|] == body;
        } else {
          assert acc + [] == acc;
        }
      } else {
        SkippedPage(fetch, fromPage, page);
      }
      page := page + 1;
    }
    return Some(acc);
  }
}
