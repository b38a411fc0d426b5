/**
 * Properties of the book controller that relate several requests: what a read
 * sees after a write, what a repeated write does, how create and delete undo
 * each other, and that no sequence of requests puts two records with one isbn
 * into the list.
 */
module BookProperties {
  import opened Wrappers
  import opened Books
  import opened BookController

  /** How many records carry this isbn. */
  function CountIsbn(books: seq<Book>, isbn: string): nat {
    if books == [] then 0
    else (if books[0].isbn == isbn then 1 else 0) + CountIsbn(books[1..], isbn)
  }

  /** The list with every record of this isbn filtered out, the rest in their order. */
  function Without(books: seq<Book>, isbn: string): seq<Book> {
    if books == [] then []
    else if books[0].isbn == isbn then Without(books[1..], isbn)
    else [books[0]] + Without(books[1..], isbn)
  }

  /** In a list that keeps the invariant, an isbn names one record or none. */
  lemma {:induction false} UniqueCount(books: seq<Book>, isbn: string)
    requires UniqueIsbns(books)
    ensures CountIsbn(books, isbn) == if IndexOfIsbn(books, isbn) == -1 then 0 else 1
  {
    if books != [] {
      var tail := books[1..];
      assert UniqueIsbns(tail) by {
        forall i, j | 0 <= i < j < |tail| ensures tail[i].isbn != tail[j].isbn {
          assert tail[i] == books[i + 1] && tail[j] == books[j + 1];
        }
      }
      UniqueCount(tail, isbn);
      if books[0].isbn == isbn {
        forall k | 0 <= k < |tail| ensures tail[k].isbn != isbn {
          assert tail[k] == books[k + 1];
        }
      }
    }
  }

  /**
   * A body that lacks a required key, or carries a year that is a fraction or a string,
   * is refused and nothing changes. A numeric string such as "2025" is refused here too,
   * since this model does not convert strings to numbers.
   */
  lemma CreateRejectsMalformed(books: seq<Book>, body: Payload)
    requires body.isbn.None? || body.title.None? || body.author.None? || body.year.None? || body.publisher.None?
             || (body.year.Some? && body.year.value.JNumber? && !IsInteger(body.year.value.num))
             || (body.year.Some? && body.year.value.JString?)
    ensures Create(books, body) == Step(InvalidData, books)
  {
  }

  /** A fresh record: create appends it and echoes it, and a later get finds exactly it. */
  lemma CreateThenGet(books: seq<Book>, b: Book)
    requires Get(books, b.isbn) == NotFound
    ensures Create(books, Encode(b)) == Step(Ok(b), books + [b])
    ensures Get(books + [b], b.isbn) == Ok(b)
  {
    assert ValidateCreate(Encode(b)) == Some(b);
    assert (books + [b])[|books|] == b;
  }

  /**
   * Creating with the same body twice: the second request is refused as a duplicate,
   * changes nothing, and the list holds exactly one record with that isbn.
   */
  lemma CreateTwice(books: seq<Book>, body: Payload, b: Book)
    requires UniqueIsbns(books)
    requires ValidateCreate(body) == Some(b)
    ensures var first := Create(books, body);
            Create(first.books, body) == Step(DuplicateIsbn, first.books) &&
            CountIsbn(first.books, b.isbn) == 1
  {
    var first := Create(books, body);
    if first.outcome.Ok? {
      assert first.books[|books|] == b;
    }
    assert IndexOfIsbn(first.books, b.isbn) != -1;
    UniqueCount(first.books, b.isbn);
  }

  /** Deleting a record and then asking for it: not found, because no second record had its isbn. */
  lemma DeleteThenGet(books: seq<Book>, isbn: string)
    requires UniqueIsbns(books)
    ensures Get(Delete(books, isbn).books, isbn) == NotFound
  {
    var i := IndexOfIsbn(books, isbn);
    if i != -1 {
      var rest := Delete(books, isbn).books;
      assert rest == books[..i] + books[i + 1..];
      forall k | 0 <= k < |rest| ensures rest[k].isbn != isbn {
        if k < i {
          assert rest[k] == books[k];
        } else {
          assert rest[k] == books[k + 1];
        }
      }
    }
  }

  /** Filtering out an isbn that no record has leaves the list as it is. */
  lemma {:induction false} WithoutAbsent(books: seq<Book>, isbn: string)
    requires forall k :: 0 <= k < |books| ==> books[k].isbn != isbn
    ensures Without(books, isbn) == books
  {
    if books != [] {
      assert books[0].isbn != isbn;
      WithoutAbsent(books[1..], isbn);
      assert books == [books[0]] + books[1..];
    }
  }

  /**
   * In a list that keeps the invariant, delete leaves the list with that isbn filtered
   * out: the other records stay, in their order.
   */
  lemma {:induction false} DeleteFilters(books: seq<Book>, isbn: string)
    requires UniqueIsbns(books)
    ensures Delete(books, isbn).books == Without(books, isbn)
  {
    if books == [] {
    } else if books[0].isbn == isbn {
      var tail := books[1..];
      forall k | 0 <= k < |tail| ensures tail[k].isbn != isbn {
        assert tail[k] == books[k + 1];
      }
      WithoutAbsent(tail, isbn);
    } else {
      var tail := books[1..];
      assert UniqueIsbns(tail) by {
        forall i, j | 0 <= i < j < |tail| ensures tail[i].isbn != tail[j].isbn {
          assert tail[i] == books[i + 1] && tail[j] == books[j + 1];
        }
      }
      DeleteFilters(tail, isbn);
      var j := IndexOfIsbn(tail, isbn);
      if j == -1 {
        assert IndexOfIsbn(books, isbn) == -1;
        WithoutAbsent(tail, isbn);
        assert books == [books[0]] + tail;
      } else {
        assert IndexOfIsbn(books, isbn) == j + 1;
        assert books[..j + 1] + books[j + 2..] == [books[0]] + (tail[..j] + tail[j + 1..]);
      }
    }
  }

  /** Creating a fresh record and deleting it again gives the record back and restores the list. */
  lemma CreateThenDelete(books: seq<Book>, b: Book)
    requires Get(books, b.isbn) == NotFound
    ensures Delete(Create(books, Encode(b)).books, b.isbn) == Step(Ok(b), books)
  {
    CreateThenGet(books, b);
    var after := books + [b];
    assert IndexOfIsbn(after, b.isbn) == |books|;
    assert after[..|books|] + after[|books| + 1..] == books;
  }

  /** A validated patch that sets some field is applied to the record with that isbn, at its position. */
  lemma UpdateMerges(books: seq<Book>, isbn: string, b: Book, q: Patch)
    requires Get(books, isbn) == Ok(b)
    requires !q.IsEmpty()
    ensures var i := IndexOfIsbn(books, isbn);
            Update(books, isbn, EncodePatch(q)) == Step(Ok(Merge(b, q)), books[i := Merge(b, q)])
  {
    var r := ValidateUpdate(EncodePatch(q));
    assert r.Some?;
    assert r.value == q by {
      assert EncodePatch(r.value) == EncodePatch(q);
      assert r.value.title == q.title by { assert EncodeText(r.value.title) == EncodeText(q.title); }
      assert r.value.author == q.author by { assert EncodeText(r.value.author) == EncodeText(q.author); }
      assert r.value.publisher == q.publisher by { assert EncodeText(r.value.publisher) == EncodeText(q.publisher); }
    }
  }

  /** Updating only the title changes only the title: the record comes back equal in every other field. */
  lemma UpdateTitleOnly(books: seq<Book>, isbn: string, b: Book, title: string)
    requires Get(books, isbn) == Ok(b)
    ensures Update(books, isbn, Payload(None, Some(JString(title)), None, None, None)).outcome == Ok(b.(title := title))
  {
    var q := Patch(Some(title), None, None, None);
    assert EncodePatch(q) == Payload(None, Some(JString(title)), None, None, None);
    UpdateMerges(books, isbn, b, q);
  }

  /** An update whose every field already holds the value it sets succeeds and leaves the list as it was. */
  lemma UpdateNoChange(books: seq<Book>, isbn: string, b: Book, q: Patch)
    requires Get(books, isbn) == Ok(b)
    requires !q.IsEmpty()
    requires (q.title.Some? ==> q.title.value == b.title) && (q.author.Some? ==> q.author.value == b.author)
    requires (q.year.Some? ==> q.year.value == b.year) && (q.publisher.Some? ==> q.publisher.value == b.publisher)
    ensures Update(books, isbn, EncodePatch(q)) == Step(Ok(b), books)
  {
    UpdateMerges(books, isbn, b, q);
    MergeUnchangedIff(b, q);
    var i := IndexOfIsbn(books, isbn);
    assert books[i] == b;
    assert books[i := b] == books;
  }

  /** After a successful update, a get for that isbn returns the merged record. */
  lemma UpdateThenGet(books: seq<Book>, isbn: string, body: Payload)
    ensures var r := Update(books, isbn, body);
            r.outcome.Ok? ==> Get(r.books, isbn) == r.outcome
  {
    var r := Update(books, isbn, body);
    if r.outcome.Ok? {
      var i := IndexOfIsbn(books, isbn);
      assert r.books[i] == r.outcome.book;
      assert IndexOfIsbn(r.books, isbn) == i;
    }
  }

  /** Sending the same update twice has the effect of sending it once, and answers the same. */
  lemma UpdateIdempotent(books: seq<Book>, isbn: string, body: Payload)
    ensures var once := Update(books, isbn, body);
            Update(once.books, isbn, body) == once
  {
    var once := Update(books, isbn, body);
    if once.outcome.Ok? {
      var q := ValidateUpdate(body).value;
      var i := IndexOfIsbn(books, isbn);
      UpdateThenGet(books, isbn, body);
      assert IndexOfIsbn(once.books, isbn) == i;
      MergeIdempotent(books[i], q);
      assert once.books[i := Merge(once.books[i], q)] == once.books;
    }
  }

  /** The four requests the router hands to the controller. */
  datatype Request =
    | CreateRequest(body: Payload)
    | GetRequest(isbn: string)
    | UpdateRequest(isbn: string, body: Payload)
    | DeleteRequest(isbn: string)

  function Handle(books: seq<Book>, req: Request): Step {
    match req
    case CreateRequest(body) => Create(books, body)
    case GetRequest(isbn) => Step(Get(books, isbn), books)
    case UpdateRequest(isbn, body) => Update(books, isbn, body)
    case DeleteRequest(isbn) => Delete(books, isbn)
  }

  /** The list after serving the requests one after the other. */
  function Serve(books: seq<Book>, reqs: seq<Request>): seq<Book>
    decreases reqs
  {
    if reqs == [] then books else Serve(Handle(books, reqs[0]).books, reqs[1..])
  }

  /** Starting from the empty list, no sequence of requests ever stores two records with one isbn. */
  lemma {:induction false} ServeKeepsUnique(books: seq<Book>, reqs: seq<Request>)
    requires UniqueIsbns(books)
    ensures UniqueIsbns(Serve(books, reqs))
    decreases reqs
  {
    if reqs != [] {
      ServeKeepsUnique(Handle(books, reqs[0]).books, reqs[1..]);
    }
  }

  /** The controller's own request scenarios, with the replies they produce. */
  lemma Scenarios()
    ensures var b := Book("123-45-67890-12-3", "Test Book", "Test Author", 2025, "Test Publisher");
            Respond(Create([], Encode(b)).outcome) == Response(200, true, BookReply(b))
    ensures var b := Book("111-22-33333-44-5", "Existing Book", "Author", 2010, "Publisher");
            Respond(Create(Create([], Encode(b)).books, Encode(b)).outcome)
              == Response(400, false, MessageReply("Book with this ISBN already exists"))
    ensures Respond(Create([], Payload(Some(JString("123-45-67890-12-3")), None, Some(JString("Test Author")),
                                       Some(JNumber(2025.0)), Some(JString("Test Publisher")))).outcome)
              == Response(400, false, MessageReply("Invalid book data"))
    ensures Respond(Get([], "000-00-00000-00-0")) == Response(404, false, MessageReply("Book not found"))
    ensures var b := Book("999-88-77777-66-5", "Original Title", "Author", 2020, "Publisher");
            Respond(Update([b], b.isbn, Payload(None, Some(JString("Updated Title")), None, None, None)).outcome)
              == Response(200, true, BookReply(b.(title := "Updated Title")))
    ensures var b := Book("111-00-11111-00-1", "Valid Book", "Author", 2022, "Publisher");
            Respond(Update([b], b.isbn, Payload(None, None, None, Some(JString("not-a-number")), None)).outcome)
              == Response(400, false, MessageReply("Invalid book data for update"))
    ensures Respond(Delete([], "000-00-00000-00-0").outcome) == Response(404, false, MessageReply("Book not found"))
  {
    var b1 := Book("123-45-67890-12-3", "Test Book", "Test Author", 2025, "Test Publisher");
    CreateThenGet([], b1);
    var b2 := Book("111-22-33333-44-5", "Existing Book", "Author", 2010, "Publisher");
    CreateThenGet([], b2);
    CreateTwice([], Encode(b2), b2);
    var b3 := Book("999-88-77777-66-5", "Original Title", "Author", 2020, "Publisher");
    UpdateTitleOnly([b3], b3.isbn, b3, "Updated Title");
  }
}
