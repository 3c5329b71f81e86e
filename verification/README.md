# Book exchange: the book / request lifecycle

This project models the server side of a peer-to-peer used-book exchange.
Users list books and ask each other for them. Owners accept or decline
those requests. The model keeps an in-memory store of `Book` and
`BookRequest` documents. Each Express route handler that reads or changes
the store becomes one pure function:

- the store is `Store.State`: a map of book ids to books, a map of request
  ids to requests, and a clock that hands out fresh ids;
- a state-changing handler returns `Result<State, Error>`. It runs its
  checks in the route's order and writes nothing when a check fails;
- the read-only handlers are functions of the state (`GetBook`, the sets
  `AvailableBooks`, `BooksOwnedBy`, `SentBy`, `ReceivedBy`). Methods in
  `Listing` return them newest first.

Modules follow the source:

- `Books` and `BookRequests` hold the two schemas, their enumerations and
  their defaults.
- `BookRoutes` and `RequestRoutes` hold the two routers.
- `Store` holds the store and its invariants.
- `Invariants` proves that every handler keeps those invariants.
- `Lifecycle` runs sequences of authenticated calls.
- `Properties` and `Scenarios` state what the lifecycle promises across
  calls.

Required id fields are plain datatype fields, so they are always
present: a book's `owner`, and a request's `book`, `requester` and
`owner`. Optional text (`description`, `category`, `message`,
`responseMessage`) is an `Option<string>`. A request-body field is
"truthy" when it is present and non-empty.

The store invariants (`Store.Inv`) are:

- every id in use was issued by the clock;
- every book has a non-empty title and author;
- no request names a missing book;
- a request's `owner` equals its book's owner;
- nobody has a request on their own book;
- at most one request exists per `(book, requester)` pair;
- a book with an accepted request is unavailable.

## Model

| member | source | states |
|---|---|---|
| Books.ParseCondition | server/models/Book.js:14-18 | a condition string is accepted exactly when it is one of Excellent, Good, Fair, Poor, and the accepted value is stored under that same string |
| Books.ConditionRoundTrip | server/models/Book.js:14-18 | every stored condition reads back as itself |
| Books.NewBook | server/models/Book.js:23-35 | a new book is available, is owned by the given user, and has image `''` when no file was uploaded (otherwise the uploaded file name) |
| BookRequests.ParseAnswer | server/routes/requests.js:113 | the respond validator accepts exactly "accepted" and "declined", and either answer is a terminal status named by that string |
| BookRequests.NewRequest | server/models/BookRequest.js:19-31 | a new request has status `pending` (not terminal) and no response message |
| BookRoutes.CreateErrors | server/routes/books.js:58-67 | the validator's error list names title, author or condition exactly when that field is missing/empty or (for condition) not an enumeration value; each field appears at most once, in the order the validators are declared (title, author, condition) |
| BookRoutes.CreateBook | server/routes/books.js:58-90 | fails with the validator's errors exactly when title, author or condition is invalid; otherwise adds one book under a fresh id, owned by the caller, available, with image `''` unless a file was given and the form's fields; no other book and no request changes |
| BookRoutes.UpdateBook | server/routes/books.js:95-125 | NotFound, then NotAuthorized for a non-owner, then, for the owner, `SchemaRejected` (the 500 of the failed save) exactly when the condition is truthy and outside the enumeration; on success each text field is replaced only by a truthy value, the image only by an upload, owner and availability never change, and nothing else in the store changes |
| BookRoutes.DeleteBook | server/routes/books.js:130-152 | NotFound, then NotAuthorized, succeeding exactly for the owner; on success the book and exactly the requests naming it are removed, everything else unchanged |
| BookRoutes.GetBook | server/routes/books.js:157-171 | succeeds exactly when the id is stored, returning that book unchanged; otherwise NotFound |
| RequestRoutes.CreateRequest | server/routes/requests.js:12-67 | a missing book id is a validation error; then NotFound, not available, own book, duplicate `(book, requester)`, in that order, and succeeds exactly when all of these checks pass; on success exactly one pending request is added under a fresh id with the caller as requester, the book's owner copied, the given message and no response; books unchanged |
| RequestRoutes.Respond | server/routes/requests.js:112-157 | the answer is validated before the lookup; then NotFound, NotAuthorized unless the caller is the request's owner, AlreadyResponded unless pending; on success only that request's status and response message change, accepting marks its book unavailable and declining leaves every book as it was |
| RequestRoutes.Cancel | server/routes/requests.js:162-184 | NotFound, NotAuthorized unless the caller is the requester, then fails exactly when the request was answered; on success exactly that request is removed and books are untouched |
| Listing.NewestFirst | server/routes/requests.js:74-80 | returns the keys that pass the filter, each once, in strictly decreasing (newest first) order |
| Listing.ListAvailable | server/routes/books.js:28-30 | returns exactly the books of `AvailableBooks` (those still available), newest first |
| Listing.ListMyBooks | server/routes/books.js:44-45 | returns exactly the books of `BooksOwnedBy` (the caller's, available or not), newest first |
| Listing.ListSent | server/routes/requests.js:74-80 | returns exactly the requests of `SentBy` (requester is the caller), newest first |
| Listing.ListReceived | server/routes/requests.js:94-100 | returns exactly the requests of `ReceivedBy` (owner is the caller), newest first |
| Invariants.CreateBookPreservesInv | server/routes/books.js:69-82 | a created book keeps every store invariant |
| Invariants.UpdateBookPreservesInv | server/routes/books.js:107-117 | an update keeps every store invariant, since owner and availability are not touched |
| Invariants.DeleteBookPreservesInv | server/routes/books.js:142-145 | the cascade leaves no request pointing at the deleted book |
| Invariants.CreateRequestPreservesInv | server/routes/requests.js:25-55 | the checks before the insert keep the `(book, requester)` pair unique, the owner snapshot correct and self-requests out |
| Invariants.RespondPreservesInv | server/routes/requests.js:137-145 | answering keeps every invariant, including that an accepted request's book is unavailable |
| Invariants.CancelPreservesInv | server/routes/requests.js:177 | removing a pending request keeps every invariant |
| Lifecycle.NextPreservesInv | server/routes/requests.js:12-184 | any single call to the request routes or to the book routes (server/routes/books.js:58-152), successful or not, keeps the invariants and never turns the clock back |
| Lifecycle.RunPreservesInv | server/models/BookRequest.js:36-37 | any sequence of calls from a store satisfying the invariants, including the unique `(book, requester)` index, ends in one that satisfies them |
| Lifecycle.ReachableStoresSatisfyInv | server/models/BookRequest.js:4-37 | every store reachable from an empty database satisfies the invariants |
| Lifecycle.NextOnlyAnswersPending | server/routes/requests.js:133-138 | a call never changes a request's book, requester, owner or message; an answered request that survives a call is unchanged, and a request that changes goes from pending to a terminal status |
| Lifecycle.Step | server/routes/books.js:58-152 | runs the book route (or the request route, server/routes/requests.js:12-184) a call names; only the two create routes advance the clock, the only document a call can add is the one under the old clock value, and the only requests a call can remove are the withdrawn one or those of the deleted book |
| Lifecycle.Next | server/routes/requests.js:17-46 | every refusal returns before anything is saved (as in each route of both routers), so a refused call leaves the store as it was, so the store changes only through a successful call; the clock never goes back |
| Lifecycle.NextNeverReissues | server/routes/requests.js:48-55 | an unused id below the clock is still unused after one call |
| Lifecycle.RunNeverReissues | server/routes/books.js:72-82 | after any sequence of calls an unused id below the clock is still unused, for books and requests: ids are never handed out twice |
| Lifecycle.OnlyEditAnswers500 | server/routes/books.js:117-123 | among refused calls only a book edit can be answered with a 500, and an owner's edit with a truthy condition outside the enumeration always is; every other refusal is a 4xx |
| Errors.HttpStatus | server/routes/books.js:64-123 | a refusal is a 500 exactly when the schema rejected the document, and a 4xx otherwise |
| Lifecycle.RunKeepsAnswered | server/routes/requests.js:133-135 | after any sequence of calls an answered request is either exactly as it was, or gone together with its book |
| Properties.AcceptedBlocksNewRequests | server/routes/requests.js:30-32 | once a request on a book is accepted, every new request for that book fails as not available |
| Properties.NoSecondRequest | server/routes/requests.js:39-46 | once a user has a request on a book, whatever its status, asking again is always refused, and refused as a duplicate while the book is available |
| Properties.AnsweredIsFinal | server/routes/requests.js:133-135 | an accepted or declined request can be neither answered again nor cancelled |
| Properties.CancelThenRespondNotFound | server/routes/requests.js:124-127 | after a cancel, answering the same request fails, and with a valid answer fails NotFound |
| Properties.AcceptThenGetUnavailable | server/routes/requests.js:141-143 | after an acceptance, fetching the book shows it unavailable |
| Properties.DeleteLeavesNoRequests | server/routes/books.js:143 | after a book is deleted no user's sent or received list holds a request naming it |
| Properties.UpdateIdempotent | server/routes/books.js:107-117 | applying the same update twice gives the same store as applying it once |
| Properties.EmptyUpdateKeepsStore | server/routes/books.js:110-115 | an owner's update whose fields are all falsy and that has no upload leaves the store exactly as it was |
| Properties.CreatedBookIsListed | server/routes/books.js:28 | a created book can be fetched by its id, is listed as available and as the caller's, and is the only book added to the available list |
| Scenarios.AcceptScenario | server/routes/requests.js:137-143 | A lists "Dune", B asks, A accepts: the request is accepted, the book is unavailable and C's request fails as not available |
| Scenarios.RefusedRequestsScenario | server/routes/requests.js:34-46 | the owner asking for their own book is refused, and B asking twice is refused as a duplicate |
| Scenarios.CancelScenario | server/routes/requests.js:164-177 | B's cancel removes exactly the request, and answering it afterwards fails NotFound |
| Scenarios.TwoAcceptancesScenario | server/routes/requests.js:129-143 | two requests made while a book was available can both be accepted, because respond does not look at availability |

## Behaviour worth noting

- Respond validates the answer before it looks the request up
  (server/routes/requests.js:113-120). So an invalid answer is refused
  even for a request id that does not exist. `RequestRoutes.Respond`
  states this order.
- Respond never reads the book's `isAvailable`
  (server/routes/requests.js:124-143). Two requests made while a book was
  on offer can therefore both be accepted;
  `Scenarios.TwoAcceptancesScenario` shows this. What does hold is
  `Store.AcceptedUnavailable`: a book with an accepted request is
  unavailable.
- Asking for one's own book is answered with a 400 like the other
  refusals (server/routes/requests.js:34-36). The model keeps it as its
  own error, `OwnBook`.

## Left out

- Enrichment through `populate` is not modelled; handlers return the
  store (and the new id) rather than populated documents. The
  success-message bodies are not modelled either.
- The auth middleware is not part of this model. The caller's user id is
  a parameter of every handler.
- Multer disk storage and the `Date.now()` file names are not modelled.
  An upload is just the optional file name it produces.
- `server/config.js` and all client code are not modelled. They are
  environment defaults and presentation.
- `createdAt` timestamps are not modelled. Creation order is the clock
  order of ids, and the newest-first sort is descending id order.
- String `trim` is not modelled; strings are opaque. A whitespace-only
  title passes the validator in the code and is then refused by the
  schema on save with a 500. The model treats it as an ordinary
  non-empty string.
- The generic `try/catch` answer 500 is modelled only where the model can
  trigger it: an update with a truthy condition outside the enumeration
  (`SchemaRejected`). Malformed ObjectId strings (a cast error) and
  database failures have no counterpart, because ids are naturals and the
  store is total.
- Concurrency and atomicity are not modelled. This covers the
  check-then-insert race against the unique index, and the fact that
  respond writes the book before saving the request. Each handler is one
  atomic step.
- BookRoutes.CreateBook: requires `Store.IdsIssued`, meaning every stored
  id is below the clock, so the clock value is a fresh id. The database
  generates fresh ObjectIds unconditionally. `Lifecycle.RunPreservesInv`
  shows that every reachable store meets this requirement.
- RequestRoutes.CreateRequest: requires `Store.IdsIssued` for the same
  reason as `CreateBook`.
- Listing.NewestFirst and the four list methods require
  `Store.IdsIssued`, so that scanning ids below the clock reaches every
  document.
