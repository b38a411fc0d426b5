# Book store controller, modelled in Dafny

This project models the in-memory book store of a small Express REST API (`src/controllers/book.ts`).
The store is a module-level list of book records (`isbn`, `title`, `author`, `year`, `publisher`).
Four request handlers work on it:

- **create** validates the body against `BookSchema`. It refuses an isbn that is already stored. Otherwise it appends the record.
- **get** returns the record whose isbn equals the path parameter exactly.
- **update** validates the body against `UpdateBookSchema` *before* it looks the record up. It then overwrites the fields the body sets, keeping the record at the same position.
- **delete** splices the record out and returns it as it was.

Each handler replies 200 with the book, or 400/404 with a fixed message.

Layout:

- `wrappers.dfy` (module `Wrappers`): `Option`.
- `books.dfy` (module `Books`): the `Book` record and a typed view of a JSON request body (`Payload`).
  - The two schemas are explicit validators, `ValidateCreate` and `ValidateUpdate`. Each is proved to accept exactly the bodies that encode a book, or a non-empty patch.
  - `Merge` is the `{ ...book, ...patch }` spread.
- `controller.dfy` (module `BookController`):
  - the handler outcomes and their HTTP replies (`Respond`);
  - the first-match search (`IndexOfIsbn`, and `FindIndex`, its loop);
  - each handler as a pure step function from the list before a request to the outcome and the list after it (`Create`, `Get`, `Update`, `Delete`);
  - the class `BookStore`, whose field `books` is the list. Its methods change it in place (append, index assignment, splice) and are proved to agree with the step functions. They keep the invariant `UniqueIsbns`: no two records share an isbn.
- `properties.dfy` (module `BookProperties`): laws that relate several requests.
  - create-then-get and create-then-delete;
  - create twice leaves one record;
  - delete-then-get gives not found;
  - delete is "filter out that isbn", so relative order is kept;
  - update-then-get, update is idempotent, and an update that sets values the record already has changes nothing;
  - uniqueness holds after any sequence of requests;
  - the concrete request scenarios of the controller's unit tests.

A JavaScript number is modelled as a `real`, since JSON has no NaN or infinity. `year` is accepted only when it is integral.

## Model

| member | source | states |
|---|---|---|
| Books.ValidateCreate | src/controllers/book.ts:14-20 | accepts a body exactly when it is the encoding of some book (all five keys present, four strings, an integral year), and then returns that book |
| Books.ValidateUpdate | src/controllers/book.ts:22-27 | accepts a body exactly when it encodes a patch that sets at least one of title/author/year/publisher with the right types and carries no isbn key; returns that patch |
| Books.Merge | src/controllers/book.ts:76 | the spread of the patch over the record never changes the isbn |
| Books.MergeIdempotent | src/controllers/book.ts:76 | merging the same patch twice equals merging it once |
| Books.MergeUnchangedIff | src/controllers/book.ts:76 | a merge leaves the record equal to itself exactly when every field the patch sets already has that value |
| BookController.Respond | src/controllers/book.ts:29-91 | success exactly when the status is 200 and the outcome is Ok (then the reply carries the book); 404 exactly for not found; 400 exactly for invalid create data, invalid update data and duplicate isbn; every failure carries a message |
| BookController.IndexOfIsbn | src/controllers/book.ts:70 | the result is -1 exactly when no record has the isbn (compared exactly), and otherwise the first position holding it |
| BookController.FindIndex | src/controllers/book.ts:83 | the linear search loop returns the first-match position of the isbn, or -1 |
| BookController.Create | src/controllers/book.ts:29-47 | only Ok, invalid data or duplicate; on failure the list is unchanged; on success the body is the record's encoding and the list is the old list plus that record at the end; duplicate exactly when the body validates and its isbn is stored; uniqueness preserved |
| BookController.Get | src/controllers/book.ts:49-58 | Ok with a stored record of exactly that isbn, or not found exactly when no record has it |
| BookController.Update | src/controllers/book.ts:60-79 | only Ok, invalid update data or not found; an invalid body gives invalid update data with no change whatever the isbn (validation before lookup); a valid body with an unknown isbn gives not found with no change; on failure the list is unchanged; the length and the isbn at every position never change, so uniqueness is preserved; on success the returned record is stored and has the path's isbn |
| BookController.Delete | src/controllers/book.ts:81-91 | not found exactly when no record has the isbn, then nothing changes; on success the returned record has the isbn, the list is one shorter and as a multiset is the old list minus that record; uniqueness preserved |
| BookController.BookStore.constructor | src/controllers/book.ts:12 | the list starts empty (and so satisfies the uniqueness invariant) |
| BookController.BookStore.CreateBook | src/controllers/book.ts:29-47 | the push handler keeps the invariant and its outcome and new list are those of Create on the old list |
| BookController.BookStore.GetBook | src/controllers/book.ts:49-58 | returns the outcome of Get and modifies nothing |
| BookController.BookStore.UpdateBook | src/controllers/book.ts:60-79 | the in-place index assignment keeps the invariant and its outcome and new list are those of Update on the old list |
| BookController.BookStore.DeleteBook | src/controllers/book.ts:81-91 | the splice keeps the invariant and its outcome and new list are those of Delete on the old list |
| BookProperties.UniqueCount | src/controllers/book.ts:36-45 | in a list with unique isbns, the number of records with an isbn is 0 when the search finds none and 1 otherwise |
| BookProperties.CreateRejectsMalformed | src/controllers/book.ts:30-34 | a body missing any of the five keys, or whose year is a fraction or a string (numeric strings included, as the model does not convert them), yields invalid data and leaves the list unchanged |
| BookProperties.CreateThenGet | src/controllers/book.ts:36-57 | for a fresh isbn, creating a book appends it at the end and echoes it back, and a later get returns exactly it |
| BookProperties.CreateTwice | src/controllers/book.ts:36-43 | creating with the same valid body twice: the second is refused as a duplicate with no change, and the list holds exactly one record of that isbn |
| BookProperties.DeleteThenGet | src/controllers/book.ts:83-89 | in a list with unique isbns, after delete a get for that isbn is not found |
| BookProperties.DeleteFilters | src/controllers/book.ts:89 | in a list with unique isbns, delete leaves exactly the old list with that isbn filtered out, the others in their relative order |
| BookProperties.CreateThenDelete | src/controllers/book.ts:45-89 | creating a fresh book and then deleting its isbn returns the book and restores the list |
| BookProperties.UpdateMerges | src/controllers/book.ts:70-78 | a body that encodes a non-empty patch updates the stored record to the merge of the patch over it, at the same position, and leaves every other record as it was |
| BookProperties.UpdateTitleOnly | src/controllers/book.ts:76-78 | updating only the title returns the record equal to the old one in every field but the title |
| BookProperties.UpdateNoChange | src/controllers/book.ts:70-78 | an update that sets only values the stored record already has succeeds, returns that record and leaves the list unchanged |
| BookProperties.UpdateThenGet | src/controllers/book.ts:76-78 | after a successful update, get for that isbn returns the merged record |
| BookProperties.UpdateIdempotent | src/controllers/book.ts:60-79 | sending the same update twice answers the same and leaves the same list as sending it once |
| BookProperties.ServeKeepsUnique | src/controllers/book.ts:12-91 | from a list with unique isbns (such as the initial empty list), any sequence of create/get/update/delete requests keeps isbns unique |
| BookProperties.Scenarios | test/controllers/book.test.ts:29-231 | the statuses and replies of the unit-test scenarios: create echoes 200; a create body without a title gets 400 "Invalid book data"; a duplicate create gets 400 "Book with this ISBN already exists"; an unknown get or delete gets 404 "Book not found"; a title update gets 200 with only the title changed; a string year in an update gets 400 "Invalid book data for update" |

## Left out

- HTTP plumbing is not modelled: the server bootstrap, JSON body parsing and routing in `src/index.ts` and `src/routers/book.ts`. `BookProperties.Request` and `Handle` only let the invariant be stated over request sequences.
- The exact JSON reply objects and the `res.status(...).json(...)` chain are data here: `Response(status, success, reply)`.
- The database-backed variant is not modelled. This covers `testCRUD.js`, which issues raw SQL through a connection pool that is not part of this model, and any storage error (status 500).
- Library defaults of the validation library are not modelled, because the schemas do not state them:
  - empty strings are rejected;
  - numeric strings such as `"2025"` are converted to numbers;
  - integers beyond 2^53 are rejected.
  In particular `Joi.string()` rejects an empty string by default; the model accepts any string.
- BookProperties.CreateRejectsMalformed: refuses every string `year`, including a numeric one such as `"2025"` that the validation library would convert and accept, because that conversion is not modelled.
- A body is modelled by the five keys the schemas know. Keys other than these five, and bodies that are not JSON objects, cannot be expressed.
- An update body that carries an `isbn` key is refused as invalid update data, because `UpdateBookSchema` does not list that key. The stored isbn never changes.
- JavaScript numbers are modelled as exact reals. Floating-point rounding, NaN and infinity are not represented.
- Concurrency is not modelled. The handlers run to completion without yielding, so each request is one atomic step.
