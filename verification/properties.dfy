/** Properties that relate several handler calls, or a handler and the
    store invariants: what the lifecycle promises its users. */
module Properties {
  import opened Common
  import opened Errors
  import opened Books
  import opened BookRequests
  import opened Store
  import opened BookRoutes
  import opened RequestRoutes

  /** Once a request on a book is accepted, nobody can ask for that book again. */
  lemma AcceptedBlocksNewRequests(s: State, q: RequestId, caller: UserId, message: Option<string>)
    requires Inv(s)
    requires q in s.requests && s.requests[q].status == Accepted
    ensures CreateRequest(s, caller, Some(s.requests[q].book), message) == Err(NotAvailable)
  {
  }

  /** Once a user has a request on a book, whatever became of it (pending,
      accepted or declined), asking for that book again is refused: as a
      duplicate while the book is on offer, as not available otherwise. */
  lemma NoSecondRequest(s: State, caller: UserId, b: BookId, message: Option<string>)
    requires Inv(s)
    requires HasRequest(s, b, caller)
    ensures CreateRequest(s, caller, Some(b), message).Err?
    ensures b in s.books && s.books[b].isAvailable ==>
      CreateRequest(s, caller, Some(b), message) == Err(DuplicateRequest)
  {
  }

  /** Answered requests can be neither answered again nor cancelled. */
  lemma AnsweredIsFinal(s: State, caller: UserId, q: RequestId, status: Option<string>,
                        responseMessage: Option<string>)
    requires q in s.requests && s.requests[q].status.IsTerminal()
    ensures Respond(s, caller, q, status, responseMessage).Err?
    ensures Cancel(s, caller, q).Err?
  {
  }

  /** After a cancel, the request is gone: answering it finds nothing. */
  lemma CancelThenRespondNotFound(s: State, requester: UserId, q: RequestId, owner: UserId,
                                  status: Option<string>, responseMessage: Option<string>)
    requires Cancel(s, requester, q).Ok?
    ensures var t := Cancel(s, requester, q).value;
      Respond(t, owner, q, status, responseMessage).Err? &&
      (ParseAnswer(status).Some? ==> Respond(t, owner, q, status, responseMessage) == Err(NotFound))
  {
  }

  /** After accepting, the book reads back unavailable. */
  lemma AcceptThenGetUnavailable(s: State, caller: UserId, q: RequestId, responseMessage: Option<string>)
    requires Inv(s)
    requires Respond(s, caller, q, Some("accepted"), responseMessage).Ok?
    ensures var t := Respond(s, caller, q, Some("accepted"), responseMessage).value;
      GetBook(t, s.requests[q].book).Ok? && !GetBook(t, s.requests[q].book).value.isAvailable
  {
  }

  /** Deleting a book leaves no request naming it in anybody's sent or received list. */
  lemma DeleteLeavesNoRequests(s: State, caller: UserId, b: BookId, user: UserId)
    requires DeleteBook(s, caller, b).Ok?
    ensures var t := DeleteBook(s, caller, b).value;
      forall q :: q in SentBy(t, user) + ReceivedBy(t, user) ==> t.requests[q].book != b
  {
  }

  /** Updating a book with the same form twice is the same as once. */
  lemma UpdateIdempotent(s: State, caller: UserId, b: BookId, f: BookForm, file: Option<string>)
    requires UpdateBook(s, caller, b, f, file).Ok?
    ensures UpdateBook(UpdateBook(s, caller, b, f, file).value, caller, b, f, file)
            == UpdateBook(s, caller, b, f, file)
  {
    var t := UpdateBook(s, caller, b, f, file).value;
    var u := UpdateBook(t, caller, b, f, file).value;
    assert u.books == t.books;
  }

  /** An owner's update with nothing truthy in the form and no upload changes nothing. */
  lemma EmptyUpdateKeepsStore(s: State, b: BookId, f: BookForm)
    requires b in s.books
    requires !Truthy(f.title) && !Truthy(f.author) && !Truthy(f.condition)
    requires !Truthy(f.description) && !Truthy(f.category)
    ensures UpdateBook(s, s.books[b].owner, b, f, None) == Ok(s)
  {
    var t := UpdateBook(s, s.books[b].owner, b, f, None).value;
    assert t.books == s.books;
  }

  /** Creation and lookup agree: the new book is what `GET /:id` returns, and
      it is listed as available and as the caller's. */
  lemma CreatedBookIsListed(s: State, caller: UserId, f: BookForm, file: Option<string>)
    requires IdsIssued(s)
    requires CreateBook(s, caller, f, file).Ok?
    ensures var (t, id) := CreateBook(s, caller, f, file).value;
      && GetBook(t, id) == Ok(t.books[id])
      && id in AvailableBooks(t)
      && id in BooksOwnedBy(t, caller)
      && AvailableBooks(t) == AvailableBooks(s) + {id}
  {
  }
}
