/** The in-memory store of Book and BookRequest documents, and the
    invariants every reachable store satisfies. */
module Store {
  import opened Common
  import opened Books
  import opened BookRequests

  /** Both collections, keyed by id; `clock` is the id the next created
      document receives. */
  datatype State = State(
    books: map<BookId, Book>,
    requests: map<RequestId, BookRequest>,
    clock: nat)

  /** The store before anything has been created. */
  const Empty: State := State(map[], map[], 0)

  /** Every id in use was handed out by the clock. */
  predicate IdsIssued(s: State) {
    && (forall id :: id in s.books ==> id < s.clock)
    && (forall id :: id in s.requests ==> id < s.clock)
  }

  /** Every stored book has its required title and author. */
  predicate BooksComplete(s: State) {
    forall id :: id in s.books ==> RequiredPresent(s.books[id])
  }

  /** No request points at a book that is not in the store. */
  predicate NoDangling(s: State) {
    forall id :: id in s.requests ==> s.requests[id].book in s.books
  }

  /** A request's `owner` is the owner of the book it names. */
  predicate OwnerMatches(s: State)
    requires NoDangling(s)
  {
    forall id :: id in s.requests ==> s.requests[id].owner == s.books[s.requests[id].book].owner
  }

  /** Nobody has a request on their own book. */
  predicate NoSelfRequest(s: State) {
    forall id :: id in s.requests ==> s.requests[id].requester != s.requests[id].owner
  }

  /** The unique index on `(book, requester)`. */
  predicate UniquePair(s: State) {
    forall i, j ::
      (i in s.requests && j in s.requests &&
       s.requests[i].book == s.requests[j].book &&
       s.requests[i].requester == s.requests[j].requester) ==> i == j
  }

  /** A book with an accepted request is no longer available. */
  predicate AcceptedUnavailable(s: State)
    requires NoDangling(s)
  {
    forall id :: (id in s.requests && s.requests[id].status == Accepted) ==>
      !s.books[s.requests[id].book].isAvailable
  }

  predicate Inv(s: State) {
    && IdsIssued(s)
    && BooksComplete(s)
    && NoDangling(s)
    && OwnerMatches(s)
    && NoSelfRequest(s)
    && UniquePair(s)
    && AcceptedUnavailable(s)
  }

  /** Whether `requester` already has a request on `book` (the
      `findOne({ book, requester })` lookup). */
  predicate HasRequest(s: State, book: BookId, requester: UserId) {
    exists id :: id in s.requests && s.requests[id].book == book && s.requests[id].requester == requester
  }
}
