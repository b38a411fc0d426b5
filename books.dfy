/**
 * The book record and the two request-body schemas of the book controller:
 * `BookSchema` for creation and `UpdateBookSchema` for partial updates,
 * written out as explicit checks over a typed view of the JSON body.
 */
module Books {
  import opened Wrappers

  /** A stored record. JavaScript keeps `year` as a number; the schemas only let integral values in. */
  datatype Book = Book(isbn: string, title: string, author: string, year: int, publisher: string)

  /**
   * A JSON value as the schemas see it: a string, a number (a JavaScript number is a
   * finite real here), or anything else (boolean, null, array, object).
   */
  datatype Json = JString(str: string) | JNumber(num: real) | JOther

  /** A request body, by the keys the schemas know; `None` is a key the body leaves out. */
  datatype Payload = Payload(
    isbn: Option<Json>,
    title: Option<Json>,
    author: Option<Json>,
    year: Option<Json>,
    publisher: Option<Json>)

  /** A validated update body: the fields it sets. It has no isbn. */
  datatype Patch = Patch(title: Option<string>, author: Option<string>, year: Option<int>, publisher: Option<string>)
  {
    /** No field set; `UpdateBookSchema`'s `.min(1)` refuses such a body. */
    predicate IsEmpty() {
      title.None? && author.None? && year.None? && publisher.None?
    }
  }

  /** `Joi.number().integer()`: a number with no fractional part. */
  predicate IsInteger(n: real) {
    n.Floor as real == n
  }

  /** The JSON body that carries book `b`: every key present, with its value. */
  function Encode(b: Book): Payload {
    Payload(Some(JString(b.isbn)), Some(JString(b.title)), Some(JString(b.author)),
            Some(JNumber(b.year as real)), Some(JString(b.publisher)))
  }

  function EncodeText(v: Option<string>): Option<Json> {
    match v
    case None => None
    case Some(s) => Some(JString(s))
  }

  /** The JSON body that carries patch `q`: exactly the keys it sets, and no isbn. */
  function EncodePatch(q: Patch): Payload {
    Payload(None, EncodeText(q.title), EncodeText(q.author),
            match q.year case None => None case Some(y) => Some(JNumber(y as real)),
            EncodeText(q.publisher))
  }

  /**
   * `BookSchema.validate`: all five keys required, four strings and an integer year.
   * It accepts exactly the bodies that encode a book, and returns that book.
   */
  function ValidateCreate(p: Payload): (r: Option<Book>)
    ensures r.Some? ==> p == Encode(r.value)
    ensures r.None? ==> forall b :: p != Encode(b)
  {
    match (p.isbn, p.title, p.author, p.year, p.publisher)
    case (Some(JString(isbn)), Some(JString(title)), Some(JString(author)), Some(JNumber(year)), Some(JString(publisher))) =>
      if IsInteger(year) then Some(Book(isbn, title, author, year.Floor, publisher)) else None
    case _ => None
  }

  /** An optional string key: absent, or present as a string. */
  predicate OptionalText(v: Option<Json>) {
    match v
    case None => true
    case Some(j) => j.JString?
  }

  /** An optional integer key: absent, or present as an integral number. */
  predicate OptionalInteger(v: Option<Json>) {
    match v
    case None => true
    case Some(j) => j.JNumber? && IsInteger(j.num)
  }

  function TextOf(v: Option<Json>): Option<string> {
    match v
    case Some(JString(s)) => Some(s)
    case _ => None
  }

  function IntegerOf(v: Option<Json>): Option<int> {
    match v
    case Some(JNumber(n)) => Some(n.Floor)
    case _ => None
  }

  /**
   * `UpdateBookSchema.validate`: title, author, year and publisher each optional and
   * typed as in `BookSchema`, at least one of them present, and no isbn key (the schema
   * does not list it). It accepts exactly the bodies that encode a non-empty patch.
   */
  function ValidateUpdate(p: Payload): (r: Option<Patch>)
    ensures r.Some? ==> !r.value.IsEmpty() && p == EncodePatch(r.value)
    ensures r.None? ==> forall q :: p == EncodePatch(q) ==> q.IsEmpty()
  {
    if p.isbn.Some? then None
    else if p.title.None? && p.author.None? && p.year.None? && p.publisher.None? then None
    else if !(OptionalText(p.title) && OptionalText(p.author) && OptionalInteger(p.year) && OptionalText(p.publisher)) then None
    else Some(Patch(TextOf(p.title), TextOf(p.author), IntegerOf(p.year), TextOf(p.publisher)))
  }

  function Override<T>(current: T, v: Option<T>): T {
    match v
    case None => current
    case Some(x) => x
  }

  /**
   * The spread `{ ...book, ...patch }`: each field the patch sets replaces the
   * book's, every other field and the isbn stay.
   */
  function Merge(b: Book, q: Patch): (r: Book)
    ensures r.isbn == b.isbn
  {
    Book(b.isbn, Override(b.title, q.title), Override(b.author, q.author),
         Override(b.year, q.year), Override(b.publisher, q.publisher))
  }

  /** Merging the same patch twice is merging it once: a repeated update changes nothing more. */
  lemma MergeIdempotent(b: Book, q: Patch)
    ensures Merge(Merge(b, q), q) == Merge(b, q)
  {
  }

  /** A merge leaves the record as it was exactly when every field the patch sets already holds that value. */
  lemma MergeUnchangedIff(b: Book, q: Patch)
    ensures Merge(b, q) == b <==>
      (q.title.Some? ==> q.title.value == b.title) &&
      (q.author.Some? ==> q.author.value == b.author) &&
      (q.year.Some? ==> q.year.value == b.year) &&
      (q.publisher.Some? ==> q.publisher.value == b.publisher)
  {
  }
}
