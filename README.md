# Libgen scraper core, modelled in Dafny

The scraper searches Library Genesis for a keyword, collects the detail-page links from a
range of result pages, scrapes each book, downloads its cover and file, and stores the books
in a PostgreSQL catalog. This project models the deterministic logic inside that plumbing
and proves what it guarantees:

- `Normalizer` models three things:
  - `sanitize_filename`, a filter over the allowed characters (`isalnum` is a parameter);
  - `remove_strings_in_parentheses`, one left-to-right `re.sub(r'\([^()]*\)', '', s)` pass
    followed by `str.strip()`, with the list rewritten in place as an `array`;
  - the `pages` field split (the text before the first backslash).
- `Downloader` models the naming half of `download_and_save_file`:
  - the extension chosen from the category;
  - the base path `<folder_path>/<folder_name>/<sanitized title>.<ext>`;
  - the `_1`, `_2`, … collision loop against a finite set of existing paths;
  - an `OutputArea` class whose set of files grows by the chosen path.
- `Resolver` models the `.pdf` acceptance of `find_file_link`.
- `Harvester` models `scrape_libgen`:
  - nested loops over pages, rows and anchors, proved against a functional specification;
  - a raised exception is `None`.
- `Tables` models a table with a SERIAL id and `INSERT … ON CONFLICT DO NOTHING` on a whole-row
  unique key. The id sequence advances even when the insert is ignored, as PostgreSQL's
  `nextval` does.
- `Catalog` models `save_to_database` and `book_exists`:
  - the seven tables as fields of a `Store` class;
  - its methods are proved against the functions `Save` and `SaveAll`;
  - lemmas state what a batch does to the tables.

A title already in Book skips the whole block at `main.py:331`, so searching it under another
keyword writes no SearchResult row; `Catalog.Save` and `Catalog.RepeatSearch` state this.

## Model

| member | source | states |
|---|---|---|
| Normalizer.Sanitize | main.py:171-175 | the result is no longer than the input and holds only alphanumerics, space, `.`, `_` and `-` |
| Normalizer.SanitizeConcat | main.py:175 | sanitizing is a per-character filter: it distributes over concatenation, so the kept characters stay in input order |
| Normalizer.SanitizeCounts | main.py:175 | every allowed character keeps its number of occurrences; no disallowed character survives |
| Normalizer.SanitizeFixpoint | main.py:175 | a name is returned unchanged exactly when all its characters are allowed |
| Normalizer.SanitizeIdempotent | main.py:175 | sanitizing twice equals sanitizing once |
| Normalizer.Trim | main.py:102 | `str.strip()` leaves no whitespace (Python's `isspace` set) at either end and never lengthens |
| Normalizer.TrimSlice | main.py:102 | `strip()` returns one contiguous slice of its input, and only whitespace lies outside it |
| Normalizer.TrimFixpoint | main.py:102 | `strip()` leaves a string unchanged iff it has no edge whitespace; `strip()` is idempotent |
| Normalizer.MatchEnd | main.py:97 | the pattern matches at the start exactly when the first parenthesis after the `(` is a `)`, and the match ends there |
| Normalizer.RemoveParensUnchangedIff | main.py:97-102 | the substitution leaves a string unchanged exactly when the pattern matches nowhere in it |
| Normalizer.MatchShrinks | main.py:97-102 | if the pattern matches anywhere, the result is strictly shorter |
| Normalizer.RemoveParensBalanced | main.py:97-102 | the pass removes as many `(` as `)`: each removed span holds one of each |
| Normalizer.RemoveOneSpan | main.py:97-102 | a single parenthesised span with no inner parentheses, after text without `(`, is removed and the rest is processed on |
| Normalizer.Normalize | main.py:102 | every stored author name has no edge whitespace and is no longer than the scraped one |
| Normalizer.NoOpenOnlyTrimmed | main.py:97-102 | a name without `(` is only stripped |
| Normalizer.CreditRemoved | main.py:97-102 | `"Jane Doe (Translator)"`-shaped input gives the bare name |
| Normalizer.NestedSpanHalfRemoved | main.py:97-102 | one pass turns `((m))` into `()`: parentheses can remain |
| Normalizer.UnclosedSurvives | main.py:97-102 | an opening parenthesis that is never closed survives unchanged |
| Normalizer.RemoveStringsInParentheses | main.py:95-104 | the same list is returned; each element is replaced in place by its normalized form and has no edge whitespace |
| Normalizer.BeforeBackslash | main.py:74 | `split('\\')[0]`: the longest prefix without a backslash, stopped by a backslash when shorter than the input |
| Normalizer.PagesField | main.py:74 | the pages field never holds a backslash, and is the stripped text when that has none |
| Downloader.Extension | main.py:123-130 | `jpg` for `image`; otherwise the category itself (`html` for `html`) |
| Downloader.JoinPath | main.py:119-147 | `os.path.join` (POSIX): an absolute second part is the whole result; otherwise the result is the first part, then exactly one `/` unless the first part is empty or already ends in `/`, then the second part |
| Downloader.Decimal | main.py:146 | `str(i)` is a non-empty string of decimal digits without a leading zero, one digit exactly when i < 10 |
| Downloader.DecimalValue | main.py:146 | the digits of `str(i)` denote i |
| Downloader.DecimalInjective | main.py:146 | different counters give different decimal strings |
| Downloader.CandidateInjective | main.py:136-147 | different counters give different candidate paths |
| Downloader.TriedContents | main.py:139-148 | after k attempts exactly candidates 0 … k-1 were tried, and k distinct paths, which bounds the loop by the number of existing files |
| Downloader.FirstFreeUnique | main.py:139-148 | there is only one first free candidate |
| Downloader.ChooseFilePath | main.py:136-148 | the chosen path does not exist; it is the base name when that is free, else `<stem>_i.<ext>` for the smallest free i ≥ 1 |
| Downloader.NextSaveMovesOn | main.py:139-148 | saving the same title again picks a later candidate, the very next one when that is free |
| Downloader.FirstNames | main.py:136-147 | the first three names tried are `<stem>.<ext>`, `<stem>_1.<ext>` and `<stem>_2.<ext>` |
| Downloader.FirstSuffixes | main.py:139-148 | with the base name taken `<dir>/<stem>_1.<ext>` is chosen; with that also taken `<dir>/<stem>_2.<ext>` |
| Downloader.OutputArea.DownloadAndSaveFile | main.py:107-168 | on success exactly the chosen fresh path is added and returned, and no existing file is overwritten; on failure nothing changes and None is returned |
| Resolver.FindFileLink | main.py:178-196 | a link is returned iff the first anchor of the download section has an href ending in `.pdf`, and it is that href |
| Resolver.OnlyFirstAnchorCounts | main.py:190 | anchors after the first never matter; a non-pdf first href gives None |
| Resolver.SuffixIsExact | main.py:192 | the suffix test is exact and case-sensitive: `book.pdf` passes, `book.pdf.zip` and `book.PDF` do not |
| Html.StartsWithIff | main.py:45 | `str.startswith(p)` holds exactly when the string is p followed by something |
| Html.EndsWithIff | main.py:192 | `str.endswith(x)` holds exactly when the string is something followed by x |
| Harvester.ScrapeLibgen | main.py:23-51 | the nested loops return exactly the harvest of pages from_page … to_page, or fail where the source raises |
| Harvester.HarvestLinksAreBook | main.py:45 | every returned link starts with `book` |
| Harvester.CellLinksMembership | main.py:43-47 | a link is collected from a cell iff some anchor there has it as href and it starts with `book` |
| Harvester.DuplicatesKept | main.py:44-47 | duplicate links are kept, in document order |
| Harvester.SkippedPage | main.py:38-49 | a page whose status is not 200 adds nothing and never makes the harvest fail |
| Harvester.NothingAnswered | main.py:33-49 | when no page answers 200 the result is empty |
| Harvester.HarvestSplit | main.py:33 | a page range is harvested as its two halves concatenated, in page order |
| Harvester.PageFailureSticks | main.py:40-44 | a page missing its third table, a short row or an href-less anchor makes the whole call raise |
| Tables.InsertOrIgnoreFacts | main.py:347 | `ON CONFLICT DO NOTHING` on a unique row keeps rows unique, adds the row iff it was absent, keeps the other rows, and still advances the id sequence |
| Tables.AppendFacts | main.py:322 | a plain insert adds exactly one row under a fresh id |
| Tables.SelectId | main.py:326-327 | the id lookup returns an id holding the row; in a unique table it is the only one |
| Catalog.LinkAuthors | main.py:346-357 | the authors loop touches only Author and book_authors |
| Catalog.LinkAuthorFacts | main.py:347-355 | one pass keeps every constraint, adds the name to Author, and adds to book_authors exactly the row linking the book to that name's id |
| Catalog.LinkAuthorsFacts | main.py:346-357 | the authors loop keeps every constraint and adds exactly the book's author names to Author |
| Catalog.LinkAuthorsLinks | main.py:346-357 | after the authors loop every listed name is linked to the book in book_authors, and every row the loop added links the book to a listed name |
| Catalog.LinkPublisherFacts | main.py:359-369 | the publisher step keeps every constraint, adds the publisher name, adds to book_publisher exactly the row linking the book to the publisher's id, and touches only Publisher and book_publisher |
| Catalog.AddBookFacts | main.py:331-338 | a Book row for an unknown title keeps titles unique and adds one row and that title |
| Catalog.SaveFacts | main.py:330-375 | a known title changes no table; a new one adds exactly one Book row and one SearchResult row, its authors and its publisher, and keeps every declared constraint |
| Catalog.SaveRows | main.py:331-375 | a new title writes its Book row under the next book id, links that id to each of its authors and to its publisher, and adds the SearchResult row (keyword id, new book id, detail link); earlier Book and SearchResult rows are kept |
| Catalog.SaveAllFacts | main.py:330-375 | a batch keeps every constraint and afterwards the known titles are the old ones plus the batch's |
| Catalog.ResultsTrackBooks | main.py:330-375 | a batch adds exactly as many SearchResult rows as Book rows |
| Catalog.DuplicateInBatch | main.py:330-331 | a book whose title appeared earlier in the same batch adds nothing, since that insert is already committed |
| Catalog.KnownBatchChangesNothing | main.py:330-331 | a batch of known titles changes no table |
| Catalog.RepeatSearch | main.py:320-375 | repeating a search with the same books adds only the KeyWordSearched row |
| Catalog.KeywordAlwaysAdded | main.py:246 | the keyword insert always adds a row, as `key_word` has no unique constraint, and the lookup then finds one |
| Catalog.Store.BookExists | main.py:387-400 | true exactly when some Book row has the title |
| Catalog.Store.SaveBook | main.py:331-375 | one iteration of the books loop performs `Catalog.Save` and keeps every constraint |
| Catalog.Store.AddBook | main.py:332-343 | the Book insert for an unknown title adds exactly its row, and the id lookup returns the new row's id |
| Catalog.Store.SelectBookId | main.py:342-343 | the lookup by title returns the id of a Book row with that title |
| Catalog.Store.AddAuthors | main.py:346-357 | the authors loop, run in list order, performs `Catalog.LinkAuthors` and keeps every constraint |
| Catalog.Store.AddAuthor | main.py:346-357 | one pass of the authors loop performs `Catalog.LinkAuthor` |
| Catalog.Store.AddPublisher | main.py:359-369 | the publisher step performs `Catalog.LinkPublisher` |
| Catalog.Store.SaveToDatabase | main.py:311-384 | appends the keyword, takes some id holding it, then performs `Catalog.SaveAll` for the batch; all constraints still hold |

## Left out

- HTTP requests, status codes other than the per-page status, and TLS options: network I/O.
  Each fetched page is a given value.
- BeautifulSoup parsing: parsed pages are given as sequences of rows, cells and anchors. The
  fixed row and column offsets of `scrape_books` (`main.py:54-92`) are left out too, except
  the `pages` split.
- The author list comes from splitting the scraped text on `,` in `scrape_books`. That split
  is not modelled; the normalization starts from the list.
- `str.isalnum` is an abstract predicate `isAlnum`, because Unicode categories are out of
  scope.
- `os.path.join` is modelled as POSIX `posixpath.join`. Windows path rules (`ntpath`) are
  not modelled.
- Writing the bytes, `os.makedirs` and `os.path.exists` are I/O. The output area is a set of
  existing paths, and success of the fetch and the write is a boolean.
- `create_output_folder` depends on the wall clock. `create_output_report` and
  `zip_output_folder` are thin wrappers over csv, json, openpyxl and shutil.
- Executing the DDL, the psycopg2 connection, commit, close and the exception handler of
  `save_to_database` are foreign calls. So are PostgreSQL's coercion of `year` and `pages`
  into INTEGER and the VARCHAR length limits; year and pages are kept as text.
- `search_date` defaults to the current timestamp and is not stored.
- `main()` orchestration, including argparse, `asyncio.run` and the `links[1:5]` slice; and
  the logging configuration.
- Which row the keyword lookup returns when the keyword was searched before: there is no
  ORDER BY, so the model says only that some row with that keyword is used.
