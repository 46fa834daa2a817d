/**
 * find_file_link: the mirror page is fetched and parsed, the first anchor of its
 * `div#download` section is taken, and its href is accepted only if it ends in `.pdf`.
 * Every failure on the way (the fetch, a missing section, no anchor, no href) is caught
 * and gives None.
 */
module Resolver {
  import opened Wrappers
  import opened Html

  /** A mirror page as the scraper sees it: the fetch failed, or the page was parsed and has
      a `div#download` section (with its anchors, in document order) or not. The status code
      is not looked at. */
  datatype MirrorPage = FetchFailed | Parsed(download: Option<seq<Anchor>>)

  /** The href of the first anchor of the download section, if every step reaches it. */
  function FirstDownloadHref(page: MirrorPage): Option<string> {
    match page
    case FetchFailed => None
    case Parsed(None) => None
    case Parsed(Some(anchors)) => if |anchors| == 0 then None else anchors[0].href
  }

  /** find_file_link: the first download href when it is a `.pdf` link, None otherwise. */
  function FindFileLink(page: MirrorPage): (r: Option<string>)
    ensures r.Some? ==> EndsWith(r.value, ".pdf")
    ensures r.Some? <==> FirstDownloadHref(page).Some? && EndsWith(FirstDownloadHref(page).value, ".pdf")
    ensures r.Some? ==> r == FirstDownloadHref(page)
  {
    match page
    case FetchFailed => None
    case Parsed(None) => None
    case Parsed(Some(anchors)) =>
      if |anchors| == 0 then None
      else match anchors[0].href
        case None => None
        case Some(link) => if EndsWith(link, ".pdf") then Some(link) else None
  }

  /** Only the first anchor is looked at: a `.pdf` link further down the section never
      rescues a page whose first link is something else. */
  lemma {:induction false} OnlyFirstAnchorCounts(first: Anchor, rest: seq<Anchor>)
    ensures FindFileLink(Parsed(Some([first] + rest))) == FindFileLink(Parsed(Some([first])))
    ensures first.href.Some? && !EndsWith(first.href.value, ".pdf")
            ==> FindFileLink(Parsed(Some([first] + rest))) == None
  {
    assert ([first] + rest)[0] == first;
  }

  /** The suffix test is on the whole href: "book.pdf" is taken, "book.pdf.zip" and
      "book.PDF" are not. */
  lemma SuffixIsExact()
    ensures FindFileLink(Parsed(Some([Anchor(Some("book.pdf"))]))) == Some("book.pdf")
    ensures FindFileLink(Parsed(Some([Anchor(Some("book.pdf.zip"))]))) == None
    ensures FindFileLink(Parsed(Some([Anchor(Some("book.PDF"))]))) == None
  {
    assert "book.pdf"[4..] == ".pdf";
    assert "book.pdf.zip"[8..] != ".pdf" by { assert "book.pdf.zip"[8] == '.' && "book.pdf.zip"[9] == 'z'; }
    assert "book.PDF"[4..] != ".pdf" by { assert "book.PDF"[5] == 'P'; }
  }
}
