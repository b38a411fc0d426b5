/**
 * The book controller: an in-memory list of books and the four request handlers
 * over it (create, get, update, delete), each of which yields an outcome that is
 * then turned into an HTTP status and a JSON reply.
 *
 * Each handler is given twice: as a pure step function from the list before the
 * request to the outcome and the list after it, and as a method of `BookStore`
 * that changes the store in place and is proved to agree with that step function.
 */
module BookController {
  import opened Wrappers
  import opened Books

  /** What a handler decided. */
  datatype Outcome =
    | Ok(book: Book)
    | InvalidData        // the create body failed `BookSchema`
    | InvalidUpdateData  // the update body failed `UpdateBookSchema`
    | DuplicateIsbn      // create found a record with the same isbn
    | NotFound           // no record has the isbn of the request path

  datatype Reply = BookReply(book: Book) | MessageReply(message: string)

  /** The status code and the JSON reply: `{ success, book }` or `{ success, message }`. */
  datatype Response = Response(status: int, success: bool, reply: Reply)

  /** The status code and message each handler sends for its outcome. */
  function Respond(o: Outcome): (r: Response)
    ensures r.success <==> r.status == 200
    ensures r.success <==> o.Ok?
    ensures r.status == 404 <==> o.NotFound?
    ensures r.status == 400 <==> o.InvalidData? || o.InvalidUpdateData? || o.DuplicateIsbn?
    ensures o.Ok? ==> r.reply == BookReply(o.book)
    ensures !o.Ok? ==> r.reply.MessageReply?
  {
    match o
    case Ok(b) => Response(200, true, BookReply(b))
    case InvalidData => Response(400, false, MessageReply("Invalid book data"))
    case InvalidUpdateData => Response(400, false, MessageReply("Invalid book data for update"))
    case DuplicateIsbn => Response(400, false, MessageReply("Book with this ISBN already exists"))
    case NotFound => Response(404, false, MessageReply("Book not found"))
  }

  /** The store's invariant: no two records share an isbn. */
  predicate UniqueIsbns(books: seq<Book>) {
    forall i, j :: 0 <= i < j < |books| ==> books[i].isbn != books[j].isbn
  }

  /**
   * `findIndex(b => b.isbn === isbn)`: the first position whose isbn is exactly
   * `isbn`, or -1 when there is none.
   */
  function IndexOfIsbn(books: seq<Book>, isbn: string): (i: int)
    ensures -1 <= i < |books|
    ensures i == -1 ==> forall k :: 0 <= k < |books| ==> books[k].isbn != isbn
    ensures i != -1 ==> books[i].isbn == isbn && forall k :: 0 <= k < i ==> books[k].isbn != isbn
  {
    if books == [] then -1
    else if books[0].isbn == isbn then 0
    else
      var j := IndexOfIsbn(books[1..], isbn);
      if j == -1 then -1 else j + 1
  }

  /** The linear search the handlers run before they read or change the list. */
  method FindIndex(books: seq<Book>, isbn: string) returns (i: int)
    ensures i == IndexOfIsbn(books, isbn)
  {
    i := 0;
    while i < |books|
      invariant 0 <= i <= |books|
      invariant forall k :: 0 <= k < i ==> books[k].isbn != isbn
    {
      if books[i].isbn == isbn {
        return;
      }
      i := i + 1;
    }
    i := -1;
  }

  /** The outcome of a request and the list of books after it. */
  datatype Step = Step(outcome: Outcome, books: seq<Book>)

  /**
   * `createBook`: validate, refuse a duplicate isbn, else append the record.
   * Either the record is appended and echoed back, or nothing changes.
   */
  function Create(books: seq<Book>, body: Payload): (r: Step)
    ensures r.outcome.Ok? || r.outcome.InvalidData? || r.outcome.DuplicateIsbn?
    ensures !r.outcome.Ok? ==> r.books == books
    ensures r.outcome.Ok? ==> body == Encode(r.outcome.book) && r.books == books + [r.outcome.book]
    ensures r.outcome.DuplicateIsbn? <==>
      exists b :: ValidateCreate(body) == Some(b) && IndexOfIsbn(books, b.isbn) != -1
    ensures UniqueIsbns(books) ==> UniqueIsbns(r.books)
  {
    match ValidateCreate(body)
    case None => Step(InvalidData, books)
    case Some(b) =>
      if IndexOfIsbn(books, b.isbn) != -1 then Step(DuplicateIsbn, books)
      else Step(Ok(b), books + [b])
  }

  /** `getBook`: the record with exactly this isbn, or not found. It changes nothing. */
  function Get(books: seq<Book>, isbn: string): (r: Outcome)
    ensures r.Ok? || r.NotFound?
    ensures r.Ok? ==> r.book.isbn == isbn && r.book in books
    ensures r.NotFound? <==> forall k :: 0 <= k < |books| ==> books[k].isbn != isbn
  {
    var i := IndexOfIsbn(books, isbn);
    if i == -1 then NotFound else Ok(books[i])
  }

  /**
   * `updateBook`: validate the body first (an invalid body is refused whether or not
   * the isbn is stored), then find the record and replace it, at
   * the same position, by the merge of the patch over it. The isbn at every
   * position stays what it was.
   */
  function Update(books: seq<Book>, isbn: string, body: Payload): (r: Step)
    ensures r.outcome.Ok? || r.outcome.InvalidUpdateData? || r.outcome.NotFound?
    ensures ValidateUpdate(body).None? ==> r == Step(InvalidUpdateData, books)
    ensures ValidateUpdate(body).Some? && IndexOfIsbn(books, isbn) == -1 ==> r == Step(NotFound, books)
    ensures !r.outcome.Ok? ==> r.books == books
    ensures r.outcome.Ok? ==> r.outcome.book.isbn == isbn && r.outcome.book in r.books
    ensures |r.books| == |books|
    ensures forall k :: 0 <= k < |books| ==> r.books[k].isbn == books[k].isbn
    ensures UniqueIsbns(books) ==> UniqueIsbns(r.books)
  {
    match ValidateUpdate(body)
    case None => Step(InvalidUpdateData, books)
    case Some(q) =>
      var i := IndexOfIsbn(books, isbn);
      if i == -1 then Step(NotFound, books)
      else
        var updated := Merge(books[i], q);
        assert books[i := updated][i] == updated;
        Step(Ok(updated), books[i := updated])
  }

  /**
   * `deleteBook`: find the record and splice it out, returning it as it was.
   * The list shrinks by exactly that record.
   */
  function Delete(books: seq<Book>, isbn: string): (r: Step)
    ensures r.outcome.Ok? || r.outcome.NotFound?
    ensures r.outcome.NotFound? <==> forall k :: 0 <= k < |books| ==> books[k].isbn != isbn
    ensures !r.outcome.Ok? ==> r.books == books
    ensures r.outcome.Ok? ==> r.outcome.book.isbn == isbn && |r.books| == |books| - 1
    ensures r.outcome.Ok? ==> multiset(r.books) + multiset{r.outcome.book} == multiset(books)
    ensures UniqueIsbns(books) ==> UniqueIsbns(r.books)
  {
    var i := IndexOfIsbn(books, isbn);
    if i == -1 then Step(NotFound, books)
    else
      assert books == books[..i] + [books[i]] + books[i + 1..];
      Step(Ok(books[i]), books[..i] + books[i + 1..])
  }

  /** The module-level `DEMO_BOOKS` list together with the four handlers that use it. */
  class BookStore {
    var books: seq<Book>

    ghost predicate Valid()
      reads this
    {
      UniqueIsbns(books)
    }

    /** The list starts empty. */
    constructor ()
      ensures Valid() && books == []
    {
      books := [];
    }

    method CreateBook(body: Payload) returns (o: Outcome)
      requires Valid()
      modifies this
      ensures Valid()
      ensures Step(o, books) == Create(old(books), body)
    {
      var v := ValidateCreate(body);
      if v.None? {
        return InvalidData;
      }
      var b := v.value;
      var i := FindIndex(books, b.isbn);
      if i != -1 {
        return DuplicateIsbn;
      }
      books := books + [b];
      o := Ok(b);
    }

    method GetBook(isbn: string) returns (o: Outcome)
      ensures o == Get(books, isbn)
    {
      var i := FindIndex(books, isbn);
      if i == -1 {
        return NotFound;
      }
      o := Ok(books[i]);
    }

    method UpdateBook(isbn: string, body: Payload) returns (o: Outcome)
      requires Valid()
      modifies this
      ensures Valid()
      ensures Step(o, books) == Update(old(books), isbn, body)
    {
      var v := ValidateUpdate(body);
      if v.None? {
        return InvalidUpdateData;
      }
      var i := FindIndex(books, isbn);
      if i == -1 {
        return NotFound;
      }
      var updated := Merge(books[i], v.value);
      books := books[i := updated];
      o := Ok(updated);
    }

    method DeleteBook(isbn: string) returns (o: Outcome)
      requires Valid()
      modifies this
      ensures Valid()
      ensures Step(o, books) == Delete(old(books), isbn)
    {
      var i := FindIndex(books, isbn);
      if i == -1 {
        return NotFound;
      }
      var deleted := books[i];
      books := books[..i] + books[i + 1..];
      o := Ok(deleted);
    }
  }
}
