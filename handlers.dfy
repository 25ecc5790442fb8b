/** The three request handlers of the bookshelf service: create a book, list
    the books (optionally filtered), and fetch one book by id. The web
    framework is reduced to a `Response` value; the random id and the clock
    are parameters of the create handler. */
module Handlers {
  import opened Text
  import opened Catalog

  /** The create request's body. A missing `name` is `None`. */
  datatype Payload = Payload(
    name: Option<string>,
    year: int,
    author: string,
    summary: string,
    publisher: string,
    pageCount: int,
    readPage: int,
    reading: bool)

  /** The list request's query string; an absent parameter is `None`. */
  datatype Query = Query(name: Option<string>, reading: Option<string>, finished: Option<string>)

  datatype Status = Success | Fail | Error

  datatype Body =
    | NoData
    | BookId(bookId: string)
    | BookList(books: seq<Summary>)
    | BookDetail(book: Book)

  datatype Response = Response(code: int, status: Status, message: Option<string>, body: Body)

  /** A request string that JavaScript treats as true: present and non-empty. */
  predicate Truthy(v: Option<string>)
  {
    v.Some? && v.value != ""
  }

  const NameRequired := Response(400, Fail, Some("Gagal menambahkan buku. Mohon isi nama buku"), NoData)
  const ReadPageTooLarge :=
    Response(400, Fail, Some("Gagal menambahkan buku. readPage tidak boleh lebih besar dari pageCount"), NoData)
  const AddFailed := Response(500, Error, Some("Buku gagal ditambahkan"), NoData)
  const NotFound := Response(404, Fail, Some("Buku tidak ditemukan"), NoData)

  function Created(id: string): Response
  {
    Response(201, Success, Some("Buku berhasil ditambahkan"), BookId(id))
  }

  function Listed(books: seq<Summary>): Response
  {
    Response(200, Success, None, BookList(books))
  }

  function Found(b: Book): Response
  {
    Response(200, Success, None, BookDetail(b))
  }

  /** `b` is the record the create handler stores for payload `p`, id `id` and
      clock reading `now`: the payload copied, `finished` derived from the page
      counts, and both timestamps equal to `now`. */
  predicate StoredFrom(p: Payload, id: string, now: string, b: Book)
  {
    p.name.Some? &&
    b.id == id && b.name == p.name.value && b.year == p.year && b.author == p.author &&
    b.summary == p.summary && b.publisher == p.publisher &&
    b.pageCount == p.pageCount && b.readPage == p.readPage && b.reading == p.reading &&
    b.finished == (p.readPage == p.pageCount) &&
    b.insertedAt == now && b.updatedAt == now
  }

  /** The process-wide book store the handlers share. */
  class Store {
    var books: seq<Book>

    constructor ()
      ensures books == []
    {
      books := [];
    }

    /** POST /books. Validates the name first, then the page counts; on a valid
        payload appends one record and answers 201 with the new id. */
    method AddBook(p: Payload, id: string, now: string) returns (resp: Response)
      modifies this
      ensures !Truthy(p.name) ==> resp == NameRequired && books == old(books)
      ensures Truthy(p.name) && p.readPage > p.pageCount ==>
                resp == ReadPageTooLarge && books == old(books)
      ensures Truthy(p.name) && p.readPage <= p.pageCount ==>
                resp == Created(id) &&
                |books| == |old(books)| + 1 &&
                books[..|old(books)|] == old(books) &&
                StoredFrom(p, id, now, books[|old(books)|])
    {
      if !Truthy(p.name) {
        return NameRequired;
      }
      if p.readPage > p.pageCount {
        return ReadPageTooLarge;
      }
      var finished := p.readPage == p.pageCount;
      var newBook := Book(id, p.name.value, p.year, p.author, p.summary, p.publisher,
                          p.pageCount, p.readPage, p.reading, finished, now, now);
      books := books + [newBook];
      PushedIdFound(old(books), newBook);
      var isSuccess := |Where(books, IdIs(id))| > 0;
      if isSuccess {
        resp := Created(id);
      } else {
        resp := AddFailed;
      }
    }
  }

  /** GET /books. Each present filter re-filters the whole store, so only the
      last present one of name, reading, finished decides the answer. */
  function GetAllBooks(books: seq<Book>, q: Query): (r: Response)
    ensures r.code == 200 && r.status == Success && r.body.BookList?
    ensures Truthy(q.finished) ==>
              r.body.books == Project(Where(books, FinishedIs(q.finished.value == "1")))
    ensures !Truthy(q.finished) && Truthy(q.reading) ==>
              r.body.books == Project(Where(books, ReadingIs(q.reading.value == "1")))
    ensures !Truthy(q.finished) && !Truthy(q.reading) && Truthy(q.name) ==>
              r.body.books == Project(Where(books, NameContains(q.name.value)))
    ensures !Truthy(q.finished) && !Truthy(q.reading) && !Truthy(q.name) ==>
              r.body.books == Project(books)
  {
    var byName := if Truthy(q.name) then Where(books, NameContains(q.name.value)) else books;
    var byReading := if Truthy(q.reading) then Where(books, ReadingIs(q.reading.value == "1")) else byName;
    var byFinished := if Truthy(q.finished) then Where(books, FinishedIs(q.finished.value == "1")) else byReading;
    Listed(Project(byFinished))
  }

  /** GET /books/{id}. Answers with the first stored book carrying `id`, or 404. */
  function GetDetailBook(books: seq<Book>, id: string): (r: Response)
    ensures r == NotFound || (r.code == 200 && r.status == Success && r.body.BookDetail?)
    ensures r.code == 200 <==> exists i :: 0 <= i < |books| && books[i].id == id
    ensures r.code == 200 ==>
              exists i :: 0 <= i < |books| && books[i] == r.body.book && books[i].id == id &&
                          forall j :: 0 <= j < i ==> books[j].id != id
  {
    var matches := Where(books, IdIs(id));
    if |matches| > 0 then
      WhereFirst(books, IdIs(id));
      Found(matches[0])
    else
      assert forall i :: 0 <= i < |books| ==> books[i] !in matches;
      NotFound
  }

  /** Right after the push, filtering by the new id finds something, so the
      create handler's 500 branch cannot be taken. */
  lemma {:induction false} PushedIdFound(s: seq<Book>, b: Book)
    ensures |Where(s + [b], IdIs(b.id))| > 0
  {
    WhereAppend(s, [b], IdIs(b.id));
    assert Where([b], IdIs(b.id)) == [b];
  }

  /** A book created with an id no stored book has is returned, whole and
      unchanged, by a lookup of that id. */
  lemma {:induction false} AddThenGetDetail(s: seq<Book>, b: Book)
    requires forall i :: 0 <= i < |s| ==> s[i].id != b.id
    ensures GetDetailBook(s + [b], b.id) == Found(b)
  {
    var t := s + [b];
    var r := GetDetailBook(t, b.id);
    assert t[|s|].id == b.id;
    var i :| 0 <= i < |t| && t[i] == r.body.book && t[i].id == b.id &&
             forall j :: 0 <= j < i ==> t[j].id != b.id;
  }

  /** A book created with an id already in the store is shadowed: a lookup of
      that id still answers with the older record. */
  lemma {:induction false} AddWithTakenIdIsShadowed(s: seq<Book>, b: Book)
    requires exists i :: 0 <= i < |s| && s[i].id == b.id
    ensures GetDetailBook(s + [b], b.id) == GetDetailBook(s, b.id)
  {
    WhereAppend(s, [b], IdIs(b.id));
    var k :| 0 <= k < |s| && s[k].id == b.id;
    assert s[k] in Where(s, IdIs(b.id));
  }

  /** Without filters, a book created on a valid payload is listed last, after
      the books listed before, in insertion order. */
  lemma {:induction false} ListAfterAdd(s: seq<Book>, b: Book)
    ensures GetAllBooks(s + [b], Query(None, None, None)).body.books ==
            GetAllBooks(s, Query(None, None, None)).body.books + [Summarize(b)]
  {
    ProjectAppend(s, [b]);
  }

  /** `reading=1` lists exactly the books flagged as being read (unless a
      `finished` filter overrides it); any other non-empty value lists exactly
      the others. */
  lemma {:induction false} ListByReadingFlag(s: seq<Book>, q: Query)
    requires Truthy(q.reading) && !Truthy(q.finished)
    ensures forall x :: x in GetAllBooks(s, q).body.books <==>
                        exists b :: b in s && b.reading == (q.reading.value == "1") && x == Summarize(b)
  {
    ProjectMembers(Where(s, ReadingIs(q.reading.value == "1")));
  }

  /** `finished=1` lists exactly the finished books, overriding any other
      filter; any other non-empty value lists exactly the unfinished ones. */
  lemma {:induction false} ListByFinishedFlag(s: seq<Book>, q: Query)
    requires Truthy(q.finished)
    ensures forall x :: x in GetAllBooks(s, q).body.books <==>
                        exists b :: b in s && b.finished == (q.finished.value == "1") && x == Summarize(b)
  {
    ProjectMembers(Where(s, FinishedIs(q.finished.value == "1")));
  }
}
