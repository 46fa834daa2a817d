/**
 * save_to_database and book_exists over the seven tables of the catalog. Every statement is
 * committed at once, so each book of a batch sees the rows the earlier ones wrote. The
 * unique keys are those the tables declare: Author.name, Publisher.name, Book.title,
 * (book_id, author_id) of book_authors and (book_id, publisher_id) of book_publisher;
 * KeyWordSearched.key_word and SearchResult have none, so their inserts always add a row.
 */
module Catalog {
  import opened Wrappers
  import opened Tables

  /** One book of books_list, as the scraper hands it over. Year and pages are kept as the
      scraped text. */
  datatype BookRecord = BookRecord(
    title: string, authors: seq<string>, publisher: string, year: string, language: string,
    pages: string, topic: string, aboutBook: string, imagePath: Option<string>,
    filePath: Option<string>, link: string)

  /** A row of the Book table. */
  datatype BookRow = BookRow(
    title: string, year: string, language: string, pages: string, topic: string,
    aboutBook: string, imagePath: Option<string>, filePath: Option<string>)

  /** A row of book_authors (book id, author id) or book_publisher (book id, publisher id). */
  datatype Link = Link(bookId: nat, otherId: nat)

  /** A row of SearchResult. */
  datatype ResultRow = ResultRow(keywordId: nat, bookId: nat, link: string)

  /** The whole catalog. */
  datatype Db = Db(
    keywords: Table<string>, authors: Table<string>, publishers: Table<string>,
    books: Table<BookRow>, bookAuthors: Table<Link>, bookPublishers: Table<Link>,
    results: Table<ResultRow>)

  /** The catalog right after its tables are created. */
  function EmptyDb(): Db {
    Db(Empty(), Empty(), Empty(), Empty(), Empty(), Empty(), Empty())
  }

  /** The Book row written for a record. */
  function RowOf(b: BookRecord): BookRow {
    BookRow(b.title, b.year, b.language, b.pages, b.topic, b.aboutBook, b.imagePath, b.filePath)
  }

  /** The titles in the Book table. */
  function Titles(t: Table<BookRow>): set<string> {
    set id | id in t.rows :: t.rows[id].title
  }

  /** Book.title is UNIQUE. */
  ghost predicate UniqueTitles(t: Table<BookRow>) {
    forall i, j :: i in t.rows && j in t.rows && t.rows[i].title == t.rows[j].title ==> i == j
  }

  /** The REFERENCES clauses of a join table: its book ids are books, its other ids rows of
      `other`. */
  ghost predicate LinksInto<R>(links: Table<Link>, books: Table<BookRow>, other: Table<R>) {
    forall id :: id in links.rows ==>
      links.rows[id].bookId in books.rows && links.rows[id].otherId in other.rows
  }

  /** The FOREIGN KEY clauses of SearchResult. */
  ghost predicate ResultsInto(results: Table<ResultRow>, keywords: Table<string>, books: Table<BookRow>) {
    forall id :: id in results.rows ==>
      results.rows[id].keywordId in keywords.rows && results.rows[id].bookId in books.rows
  }

  /** What the declared constraints guarantee about the catalog. */
  ghost predicate Consistent(db: Db) {
    Wf(db.keywords) && Wf(db.authors) && Wf(db.publishers) && Wf(db.books)
    && Wf(db.bookAuthors) && Wf(db.bookPublishers) && Wf(db.results)
    && Unique(db.authors) && Unique(db.publishers) && UniqueTitles(db.books)
    && Unique(db.bookAuthors) && Unique(db.bookPublishers)
    && LinksInto(db.bookAuthors, db.books, db.authors)
    && LinksInto(db.bookPublishers, db.books, db.publishers)
    && ResultsInto(db.results, db.keywords, db.books)
  }

  /** The keyword insert of save_to_database: always a new row. */
  function AddKeyword(db: Db, keyword: string): Db {
    db.(keywords := Append(db.keywords, keyword))
  }

  /** One pass of the authors loop: insert-or-ignore the name, look up its id, then
      insert-or-ignore the (book, author) row. */
  ghost function LinkAuthor(db: Db, bookId: nat, name: string): Db {
    var authors := InsertOrIgnore(db.authors, name);
    var authorId := IdOf(authors, name);
    db.(authors := authors, bookAuthors := InsertOrIgnore(db.bookAuthors, Link(bookId, authorId)))
  }

  /** The authors loop over `names`, in order. It touches only Author and book_authors. */
  ghost function LinkAuthors(db: Db, bookId: nat, names: seq<string>): (r: Db)
    ensures r.(authors := db.authors, bookAuthors := db.bookAuthors) == db
    decreases |names|
  {
    if names == [] then db
    else LinkAuthor(LinkAuthors(db, bookId, names[..|names| - 1]), bookId, names[|names| - 1])
  }

  /** The publisher step: insert-or-ignore the name, look up its id, then insert-or-ignore
      the (book, publisher) row. */
  ghost function LinkPublisher(db: Db, bookId: nat, name: string): Db {
    var publishers := InsertOrIgnore(db.publishers, name);
    var publisherId := IdOf(publishers, name);
    db.(publishers := publishers,
        bookPublishers := InsertOrIgnore(db.bookPublishers, Link(bookId, publisherId)))
  }

  /** The body of the books loop for one record: nothing at all when the title is known,
      else the Book row, its authors, its publisher and one SearchResult row. */
  ghost function Save(db: Db, keywordId: nat, b: BookRecord): Db {
    if b.title in Titles(db.books) then db
    else
      var bookId := db.books.next;
      var withBook := db.(books := Append(db.books, RowOf(b)));
      var withPublisher := LinkPublisher(LinkAuthors(withBook, bookId, b.authors), bookId, b.publisher);
      withPublisher.(results := Append(withPublisher.results, ResultRow(keywordId, bookId, b.link)))
  }

  /** The books loop over `books`, in order. */
  ghost function SaveAll(db: Db, keywordId: nat, books: seq<BookRecord>): Db
    decreases |books|
  {
    if books == [] then db
    else Save(SaveAll(db, keywordId, books[..|books| - 1]), keywordId, books[|books| - 1])
  }

  /** The titles of a batch. */
  function BatchTitles(books: seq<BookRecord>): (r: set<string>)
    ensures forall i :: 0 <= i < |books| ==> books[i].title in r
    decreases |books|
  {
    if books == [] then {} else BatchTitles(books[..|books| - 1]) + {books[|books| - 1].title}
  }

  /** The set of a sequence's elements. */
  function Elements(s: seq<string>): set<string> {
    set i | 0 <= i < |s| :: s[i]
  }

  // ---------------------------------------------------------------------------------------
  // Lemmas about one step

  /** A new Book row keeps Book well formed with unique titles, adds the title and one row. */
  lemma AddBookFacts(t: Table<BookRow>, row: BookRow)
    requires Wf(t) && UniqueTitles(t) && row.title !in Titles(t)
    ensures var u := Append(t, row);
      Wf(u) && UniqueTitles(u) && Extends(t, u) && t.next in u.rows
      && Titles(u) == Titles(t) + {row.title} && |u.rows| == |t.rows| + 1
  {
    AppendFacts(t, row);
    AddBookUnique(t, row);
    AddBookTitles(t, row);
  }

  lemma AddBookUnique(t: Table<BookRow>, row: BookRow)
    requires Wf(t) && UniqueTitles(t) && row.title !in Titles(t)
    ensures UniqueTitles(Append(t, row))
  {
    var u := Append(t, row);
    assert forall id :: id in t.rows ==> t.rows[id].title in Titles(t);
    forall i, j | i in u.rows && j in u.rows && u.rows[i].title == u.rows[j].title
      ensures i == j
    {
      if i != t.next && j != t.next {
        assert t.rows[i].title == t.rows[j].title;
      }
    }
  }

  lemma AddBookTitles(t: Table<BookRow>, row: BookRow)
    requires Wf(t)
    ensures Titles(Append(t, row)) == Titles(t) + {row.title}
  {
    var u := Append(t, row);
    forall x | x in Titles(u) ensures x in Titles(t) + {row.title} {
      var id :| id in u.rows && u.rows[id].title == x;
      if id != t.next {
        assert t.rows[id].title == x;
      }
    }
    forall x | x in Titles(t) + {row.title} ensures x in Titles(u) {
      if x == row.title {
        assert u.rows[t.next].title == x;
      } else {
        var id :| id in t.rows && t.rows[id].title == x;
        assert u.rows[id].title == x;
      }
    }
  }

  /** A join row keeps the references when its ends exist. */
  lemma LinksIntoAdd<R>(links: Table<Link>, books: Table<BookRow>, other: Table<R>, l: Link)
    requires LinksInto(links, books, other) && l.bookId in books.rows && l.otherId in other.rows
    ensures LinksInto(InsertOrIgnore(links, l), books, other)
  {
  }

  /** References survive when the referenced tables only grow. */
  lemma LinksIntoGrow<R>(links: Table<Link>, books: Table<BookRow>, other: Table<R>,
                         books': Table<BookRow>, other': Table<R>)
    requires LinksInto(links, books, other) && Extends(books, books') && Extends(other, other')
    ensures LinksInto(links, books', other')
  {
  }

  /** One pass of the authors loop keeps the catalog valid, adds the name to Author, and adds
      to book_authors the row linking the book to that name's id and nothing else. */
  lemma LinkAuthorFacts(db: Db, bookId: nat, name: string)
    requires Consistent(db) && bookId in db.books.rows
    ensures var r := LinkAuthor(db, bookId, name);
      Consistent(r) && r.authors.rows.Values == db.authors.rows.Values + {name}
      && Extends(db.authors, r.authors)
      && r.bookAuthors.rows.Values == db.bookAuthors.rows.Values + {Link(bookId, IdOf(r.authors, name))}
  {
    var authors := InsertOrIgnore(db.authors, name);
    InsertOrIgnoreFacts(db.authors, name);
    var l := Link(bookId, IdOf(authors, name));
    LinksIntoGrow(db.bookAuthors, db.books, db.authors, db.books, authors);
    LinksIntoAdd(db.bookAuthors, db.books, authors, l);
    InsertOrIgnoreFacts(db.bookAuthors, l);
  }

  /** The whole authors loop keeps the catalog valid and adds exactly the listed names. */
  lemma {:induction false} LinkAuthorsFacts(db: Db, bookId: nat, names: seq<string>)
    requires Consistent(db) && bookId in db.books.rows
    ensures var r := LinkAuthors(db, bookId, names);
      Consistent(r) && r.authors.rows.Values == db.authors.rows.Values + Elements(names)
      && Extends(db.authors, r.authors)
    decreases |names|
  {
    if names != [] {
      var init := names[..|names| - 1];
      LinkAuthorsFacts(db, bookId, init);
      LinkAuthorFacts(LinkAuthors(db, bookId, init), bookId, names[|names| - 1]);
      ElementsSnoc(names);
    }
  }

  /** The book_authors rows the authors loop writes: every listed name is linked to the book,
      and every row it adds links the book to one of the listed names. */
  lemma {:induction false} LinkAuthorsLinks(db: Db, bookId: nat, names: seq<string>)
    requires Consistent(db) && bookId in db.books.rows
    ensures var r := LinkAuthors(db, bookId, names);
      (forall a :: a in Elements(names) ==>
         a in r.authors.rows.Values && Link(bookId, IdOf(r.authors, a)) in r.bookAuthors.rows.Values)
      && (forall l :: l in r.bookAuthors.rows.Values && l !in db.bookAuthors.rows.Values ==>
            l.bookId == bookId && l.otherId in r.authors.rows && r.authors.rows[l.otherId] in Elements(names))
    decreases |names|
  {
    if names != [] {
      var init := names[..|names| - 1];
      LinkAuthorsLinks(db, bookId, init);
      LinkAuthorsFacts(db, bookId, init);
      LinkAuthorFacts(LinkAuthors(db, bookId, init), bookId, names[|names| - 1]);
      ElementsSnoc(names);
      LinkAuthorsStep(db, bookId, names);
    } else {
      assert Elements(names) == {};
    }
  }

  /** The step of LinkAuthorsLinks: what holds of the front of the
      list carries over to the whole list. */
  lemma LinkAuthorsStep(db: Db, bookId: nat, names: seq<string>)
    requires names != []
    requires var p := LinkAuthors(db, bookId, names[..|names| - 1]);
      Consistent(p) && Extends(db.authors, p.authors)
      && (forall a :: a in Elements(names[..|names| - 1]) ==>
            a in p.authors.rows.Values && Link(bookId, IdOf(p.authors, a)) in p.bookAuthors.rows.Values)
      && (forall l :: l in p.bookAuthors.rows.Values && l !in db.bookAuthors.rows.Values ==>
            l.bookId == bookId && l.otherId in p.authors.rows
            && p.authors.rows[l.otherId] in Elements(names[..|names| - 1]))
    requires var r := LinkAuthors(db, bookId, names);
      Consistent(r) && Extends(LinkAuthors(db, bookId, names[..|names| - 1]).authors, r.authors)
      && r.bookAuthors.rows.Values == LinkAuthors(db, bookId, names[..|names| - 1]).bookAuthors.rows.Values
           + {Link(bookId, IdOf(r.authors, names[|names| - 1]))}
    requires Elements(names) == Elements(names[..|names| - 1]) + {names[|names| - 1]}
    ensures var r := LinkAuthors(db, bookId, names);
      (forall a :: a in Elements(names) ==>
         a in r.authors.rows.Values && Link(bookId, IdOf(r.authors, a)) in r.bookAuthors.rows.Values)
      && (forall l :: l in r.bookAuthors.rows.Values && l !in db.bookAuthors.rows.Values ==>
            l.bookId == bookId && l.otherId in r.authors.rows && r.authors.rows[l.otherId] in Elements(names))
  {
    var x := names[|names| - 1];
    var p := LinkAuthors(db, bookId, names[..|names| - 1]);
    var r := LinkAuthors(db, bookId, names);
    forall a | a in Elements(names)
      ensures a in r.authors.rows.Values && Link(bookId, IdOf(r.authors, a)) in r.bookAuthors.rows.Values
    {
      if a != x {
        IdOfUnique(r.authors, a, IdOf(p.authors, a));
      }
    }
    forall l | l in r.bookAuthors.rows.Values && l !in db.bookAuthors.rows.Values
      ensures l.bookId == bookId && l.otherId in r.authors.rows && r.authors.rows[l.otherId] in Elements(names)
    {
      if l in p.bookAuthors.rows.Values {
        assert r.authors.rows[l.otherId] == p.authors.rows[l.otherId];
      }
    }
  }

  /** The elements of a non-empty sequence: those of its front and its last one. */
  lemma ElementsSnoc(s: seq<string>)
    requires s != []
    ensures Elements(s) == Elements(s[..|s| - 1]) + {s[|s| - 1]}
  {
    var init := s[..|s| - 1];
    forall x | x in Elements(s) ensures x in Elements(init) + {s[|s| - 1]} {
      var i :| 0 <= i < |s| && s[i] == x;
      if i < |init| {
        assert init[i] == x;
      }
    }
    forall x | x in Elements(init) ensures x in Elements(s) {
      var i :| 0 <= i < |init| && init[i] == x;
      assert s[i] == x;
    }
  }

  /** The publisher step keeps the catalog valid, adds the name to Publisher, adds to
      book_publisher the row linking the book to that name's id and nothing else, and touches
      no other table. */
  lemma LinkPublisherFacts(db: Db, bookId: nat, name: string)
    requires Consistent(db) && bookId in db.books.rows
    ensures var r := LinkPublisher(db, bookId, name);
      Consistent(r) && r.publishers.rows.Values == db.publishers.rows.Values + {name}
      && r.bookPublishers.rows.Values
           == db.bookPublishers.rows.Values + {Link(bookId, IdOf(r.publishers, name))}
      && r.(publishers := db.publishers, bookPublishers := db.bookPublishers) == db
  {
    var publishers := InsertOrIgnore(db.publishers, name);
    InsertOrIgnoreFacts(db.publishers, name);
    var l := Link(bookId, IdOf(publishers, name));
    LinksIntoGrow(db.bookPublishers, db.books, db.publishers, db.books, publishers);
    LinksIntoAdd(db.bookPublishers, db.books, publishers, l);
    InsertOrIgnoreFacts(db.bookPublishers, l);
  }

  /** The Book insert for an unknown title keeps the catalog consistent. */
  lemma AddBookConsistent(db: Db, b: BookRecord)
    requires Consistent(db) && b.title !in Titles(db.books)
    ensures var w := db.(books := Append(db.books, RowOf(b)));
      Consistent(w) && db.books.next in w.books.rows
      && Titles(w.books) == Titles(db.books) + {b.title} && |w.books.rows| == |db.books.rows| + 1
  {
    AddBookFacts(db.books, RowOf(b));
    var books := Append(db.books, RowOf(b));
    LinksIntoGrow(db.bookAuthors, db.books, db.authors, books, db.authors);
    LinksIntoGrow(db.bookPublishers, db.books, db.publishers, books, db.publishers);
  }

  /** A SearchResult row for an existing keyword and book keeps the catalog consistent. */
  lemma AddResultConsistent(db: Db, row: ResultRow)
    requires Consistent(db) && row.keywordId in db.keywords.rows && row.bookId in db.books.rows
    ensures var w := db.(results := Append(db.results, row));
      Consistent(w) && |w.results.rows| == |db.results.rows| + 1
  {
    AppendFacts(db.results, row);
  }

  /** A new title adds exactly one Book row and one SearchResult row, keeps the catalog
      valid, and leaves KeyWordSearched alone; a known title changes nothing. */
  lemma SaveFacts(db: Db, keywordId: nat, b: BookRecord)
    requires Consistent(db) && keywordId in db.keywords.rows
    ensures var r := Save(db, keywordId, b);
      Consistent(r) && r.keywords == db.keywords
      && Titles(r.books) == Titles(db.books) + {b.title}
      && (b.title in Titles(db.books) ==> r == db)
      && (b.title !in Titles(db.books) ==>
            |r.books.rows| == |db.books.rows| + 1 && |r.results.rows| == |db.results.rows| + 1
            && r.authors.rows.Values == db.authors.rows.Values + Elements(b.authors)
            && r.publishers.rows.Values == db.publishers.rows.Values + {b.publisher})
  {
    if b.title !in Titles(db.books) {
      var bookId := db.books.next;
      AddBookConsistent(db, b);
      var withBook := db.(books := Append(db.books, RowOf(b)));
      LinkAuthorsFacts(withBook, bookId, b.authors);
      var withAuthors := LinkAuthors(withBook, bookId, b.authors);
      LinkPublisherFacts(withAuthors, bookId, b.publisher);
      var withPublisher := LinkPublisher(withAuthors, bookId, b.publisher);
      AddResultConsistent(withPublisher, ResultRow(keywordId, bookId, b.link));
    } else {
      assert Titles(db.books) + {b.title} == Titles(db.books);
    }
  }

  /** What a new title writes: its Book row under the next book id, a link in book_authors
      from that id to each of its authors, a link in book_publisher to its publisher, and the
      SearchResult row (keyword id, new book id, detail link). Earlier rows stay as they were,
      and every join row it adds belongs to the new book. */
  lemma SaveRows(db: Db, keywordId: nat, b: BookRecord)
    requires Consistent(db) && keywordId in db.keywords.rows && b.title !in Titles(db.books)
    ensures var r := Save(db, keywordId, b);
      Extends(db.books, r.books) && r.books.rows[db.books.next] == RowOf(b)
      && Extends(db.results, r.results) && r.results.rows[db.results.next] == ResultRow(keywordId, db.books.next, b.link)
      && (forall a :: a in Elements(b.authors) ==>
            a in r.authors.rows.Values && Link(db.books.next, IdOf(r.authors, a)) in r.bookAuthors.rows.Values)
      && b.publisher in r.publishers.rows.Values
      && Link(db.books.next, IdOf(r.publishers, b.publisher)) in r.bookPublishers.rows.Values
      && (forall l :: l in r.bookAuthors.rows.Values && l !in db.bookAuthors.rows.Values ==>
            l.bookId == db.books.next)
      && (forall l :: l in r.bookPublishers.rows.Values && l !in db.bookPublishers.rows.Values ==>
            l.bookId == db.books.next)
  {
    var bookId := db.books.next;
    AddBookConsistent(db, b);
    AppendFacts(db.books, RowOf(b));
    var withBook := db.(books := Append(db.books, RowOf(b)));
    LinkAuthorsFacts(withBook, bookId, b.authors);
    LinkAuthorsLinks(withBook, bookId, b.authors);
    var withAuthors := LinkAuthors(withBook, bookId, b.authors);
    LinkPublisherFacts(withAuthors, bookId, b.publisher);
    var withPublisher := LinkPublisher(withAuthors, bookId, b.publisher);
    AppendFacts(withPublisher.results, ResultRow(keywordId, bookId, b.link));
  }

  // ---------------------------------------------------------------------------------------
  // Lemmas about a whole batch

  /** A batch keeps the catalog valid, leaves KeyWordSearched alone, and afterwards the known
      titles are the old ones and those of the batch. */
  lemma {:induction false} SaveAllFacts(db: Db, keywordId: nat, books: seq<BookRecord>)
    requires Consistent(db) && keywordId in db.keywords.rows
    ensures var r := SaveAll(db, keywordId, books);
      Consistent(r) && r.keywords == db.keywords
      && Titles(r.books) == Titles(db.books) + BatchTitles(books)
    decreases |books|
  {
    if books != [] {
      var init := books[..|books| - 1];
      SaveAllFacts(db, keywordId, init);
      SaveFacts(SaveAll(db, keywordId, init), keywordId, books[|books| - 1]);
    }
  }

  /** A batch adds as many SearchResult rows as Book rows: one per newly saved title. */
  lemma {:induction false} ResultsTrackBooks(db: Db, keywordId: nat, books: seq<BookRecord>)
    requires Consistent(db) && keywordId in db.keywords.rows
    ensures var r := SaveAll(db, keywordId, books);
      |r.results.rows| + |db.books.rows| == |db.results.rows| + |r.books.rows|
    decreases |books|
  {
    if books != [] {
      var init := books[..|books| - 1];
      ResultsTrackBooks(db, keywordId, init);
      SaveAllFacts(db, keywordId, init);
      SaveFacts(SaveAll(db, keywordId, init), keywordId, books[|books| - 1]);
    }
  }

  /** A book whose title came earlier in the same batch adds nothing: the earlier insert is
      already committed when book_exists is asked. */
  lemma DuplicateInBatch(db: Db, keywordId: nat, books: seq<BookRecord>, b: BookRecord)
    requires Consistent(db) && keywordId in db.keywords.rows
    requires b.title in BatchTitles(books)
    ensures SaveAll(db, keywordId, books + [b]) == SaveAll(db, keywordId, books)
  {
    assert (books + [b])[..|books|] == books;
    SaveAllFacts(db, keywordId, books);
  }

  /** A batch whose titles are all known changes nothing. */
  lemma {:induction false} KnownBatchChangesNothing(db: Db, keywordId: nat, books: seq<BookRecord>)
    requires BatchTitles(books) <= Titles(db.books)
    ensures SaveAll(db, keywordId, books) == db
    decreases |books|
  {
    if books != [] {
      var init := books[..|books| - 1];
      KnownBatchChangesNothing(db, keywordId, init);
    }
  }

  /** Running the same search again with the same books adds only the KeyWordSearched row. */
  lemma RepeatSearch(db: Db, keyword: string, id1: nat, id2: nat, books: seq<BookRecord>)
    requires Consistent(db)
    requires id1 in AddKeyword(db, keyword).keywords.rows
    ensures var once := SaveAll(AddKeyword(db, keyword), id1, books);
      SaveAll(AddKeyword(once, keyword), id2, books) == AddKeyword(once, keyword)
  {
    var withKeyword := AddKeyword(db, keyword);
    AppendFacts(db.keywords, keyword);
    assert Consistent(withKeyword);
    SaveAllFacts(withKeyword, id1, books);
    var once := SaveAll(withKeyword, id1, books);
    KnownBatchChangesNothing(AddKeyword(once, keyword), id2, books);
  }

  /** The keyword insert always adds a row, even for a keyword searched before, and the
      lookup after it finds a row with that keyword. */
  lemma KeywordAlwaysAdded(db: Db, keyword: string)
    requires Consistent(db)
    ensures var r := AddKeyword(db, keyword);
      Consistent(r) && |r.keywords.rows| == |db.keywords.rows| + 1 && keyword in r.keywords.rows.Values
  {
    AppendFacts(db.keywords, keyword);
    assert AddKeyword(db, keyword).keywords.rows[db.keywords.next] == keyword;
  }

  // ---------------------------------------------------------------------------------------
  // The store

  /** The catalog database as the scraper's connection sees it. */
  class Store {
    var keywords: Table<string>
    var authors: Table<string>
    var publishers: Table<string>
    var books: Table<BookRow>
    var bookAuthors: Table<Link>
    var bookPublishers: Table<Link>
    var results: Table<ResultRow>

    /** The tables as one value. */
    ghost function State(): Db
      reads this
    {
      Db(keywords, authors, publishers, books, bookAuthors, bookPublishers, results)
    }

    ghost predicate Valid()
      reads this
    {
      Consistent(State())
    }

    /** The tables right after create_database_tables. */
    constructor ()
      ensures Valid() && State() == EmptyDb()
    {
      keywords, authors, publishers := Empty(), Empty(), Empty();
      books, bookAuthors, bookPublishers, results := Empty(), Empty(), Empty(), Empty();
    }

    /** book_exists: whether a Book row has this title. */
    function BookExists(title: string): (b: bool)
      reads this
      ensures b <==> exists id :: id in books.rows && books.rows[id].title == title
    {
      title in Titles(books)
    }

    /** The body of the books loop for one record. */
    method SaveBook(b: BookRecord, keywordId: nat)
      requires Valid() && keywordId in keywords.rows
      modifies this
      ensures Valid() && keywords == old(keywords)
      ensures State() == Save(old(State()), keywordId, b)
    {
      if BookExists(b.title) {
        return;
      }
      ghost var db := State();
      var bookId := AddBook(b);
      ghost var withBook := State();
      AddAuthors(bookId, b.authors);
      AddPublisher(bookId, b.publisher);
      ghost var withPublisher := State();
      assert withPublisher == LinkPublisher(LinkAuthors(withBook, bookId, b.authors), bookId, b.publisher);
      results := Append(results, ResultRow(keywordId, bookId, b.link));
      assert State() == withPublisher.(results := Append(withPublisher.results, ResultRow(keywordId, bookId, b.link)));
      SaveFacts(db, keywordId, b);
    }

    /** The Book insert for an unknown title, and the lookup of the new row's id. */
    method AddBook(b: BookRecord) returns (bookId: nat)
      requires Valid() && b.title !in Titles(books)
      modifies this
      ensures Valid() && bookId == old(books.next) && bookId in books.rows
      ensures State() == old(State()).(books := Append(old(books), RowOf(b)))
    {
      ghost var db := State();
      AddBookConsistent(db, b);
      books := Append(books, RowOf(b));
      bookId := SelectBookId(b.title);
      assert bookId == db.books.next;
    }

    /** The authors loop of one book. */
    method AddAuthors(bookId: nat, names: seq<string>)
      requires Valid() && bookId in books.rows
      modifies this
      ensures Valid()
      ensures State() == LinkAuthors(old(State()), bookId, names)
    {
      ghost var start := State();
      assert names[..0] == [];
      for i := 0 to |names|
        invariant Valid() && bookId in books.rows
        invariant State() == LinkAuthors(start, bookId, names[..i])
      {
        assert names[..i + 1][..i] == names[..i];
        AddAuthor(bookId, names[i]);
      }
      assert names[..|names|] == names;
    }

    /** One pass of the authors loop: insert the name, look up its id, link it to the book. */
    method AddAuthor(bookId: nat, name: string)
      requires Valid() && bookId in books.rows
      modifies this
      ensures Valid() && books == old(books)
      ensures State() == LinkAuthor(old(State()), bookId, name)
    {
      LinkAuthorFacts(State(), bookId, name);
      InsertOrIgnoreFacts(authors, name);
      authors := InsertOrIgnore(authors, name);
      var authorId := SelectId(authors, name);
      bookAuthors := InsertOrIgnore(bookAuthors, Link(bookId, authorId));
    }

    /** The publisher step of one book: insert the name, look up its id, link it to the book. */
    method AddPublisher(bookId: nat, name: string)
      requires Valid() && bookId in books.rows
      modifies this
      ensures Valid()
      ensures State() == LinkPublisher(old(State()), bookId, name)
    {
      LinkPublisherFacts(State(), bookId, name);
      InsertOrIgnoreFacts(publishers, name);
      publishers := InsertOrIgnore(publishers, name);
      var publisherId := SelectId(publishers, name);
      bookPublishers := InsertOrIgnore(bookPublishers, Link(bookId, publisherId));
    }

    /** `SELECT id FROM Book WHERE title = %s` followed by fetchone(). */
    method SelectBookId(title: string) returns (id: nat)
      requires UniqueTitles(books) && title in Titles(books)
      ensures id in books.rows && books.rows[id].title == title
    {
      id :| id in books.rows && books.rows[id].title == title;
    }

    /** save_to_database: record the keyword, look up an id for it, then save every book
        whose title is not yet known. */
    method SaveToDatabase(batch: seq<BookRecord>, keyword: string)
      requires Valid()
      modifies this
      ensures Valid()
      ensures exists keywordId :: keywordId in keywords.rows && keywords.rows[keywordId] == keyword
                && State() == SaveAll(AddKeyword(old(State()), keyword), keywordId, batch)
    {
      KeywordAlwaysAdded(State(), keyword);
      keywords := Append(keywords, keyword);
      var keywordId := SelectId(keywords, keyword);
      ghost var start := State();
      assert batch[..0] == [];
      for i := 0 to |batch|
        invariant keywordId in keywords.rows && keywords.rows[keywordId] == keyword
        invariant State() == SaveAll(start, keywordId, batch[..i])
        invariant Valid()
      {
        assert batch[..i + 1][..i] == batch[..i];
        SaveBook(batch[i], keywordId);
      }
      assert batch[..|batch|] == batch;
    }
  }
}
