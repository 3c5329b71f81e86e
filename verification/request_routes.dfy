/** The request lifecycle routes: create, list sent and received, respond,
    and cancel. Each handler runs its checks in the order the route does and
    changes the store only when every check passes. */
module RequestRoutes {
  import opened Common
  import opened Errors
  import opened Books
  import opened BookRequests
  import opened Store

  /** The ids `GET /sent` returns: every request `user` made. */
  function SentBy(s: State, user: UserId): set<RequestId> {
    set id | id in s.requests && s.requests[id].requester == user
  }

  /** The ids `GET /received` returns: every request on a book `user` owned
      when it was made. */
  function ReceivedBy(s: State, user: UserId): set<RequestId> {
    set id | id in s.requests && s.requests[id].owner == user
  }

  /** `POST /`: the caller asks for a book. `bookId` is missing when the body
      has none. */
  function CreateRequest(s: State, caller: UserId, bookId: Option<BookId>, message: Option<string>)
    : (r: Result<(State, RequestId), Error>)
    requires IdsIssued(s)
    ensures bookId.None? ==> r == Err(Invalid([BookIdField]))
    ensures bookId.Some? && bookId.value !in s.books ==> r == Err(NotFound)
    ensures bookId.Some? && bookId.value in s.books ==>
      var book := s.books[bookId.value];
      && (!book.isAvailable ==> r == Err(NotAvailable))
      && (book.isAvailable && book.owner == caller ==> r == Err(OwnBook))
      && (book.isAvailable && book.owner != caller ==>
            (r == Err(DuplicateRequest) <==>
             exists q :: q in s.requests && s.requests[q].book == bookId.value && s.requests[q].requester == caller))
    ensures r.Ok? <==>
      && bookId.Some? && bookId.value in s.books
      && s.books[bookId.value].isAvailable
      && s.books[bookId.value].owner != caller
      && !HasRequest(s, bookId.value, caller)
    ensures r.Ok? ==>
      var (t, id) := r.value;
      && bookId.Some? && bookId.value in s.books
      && id !in s.requests
      && t.requests.Keys == s.requests.Keys + {id}
      && (forall q :: q in s.requests ==> t.requests[q] == s.requests[q])
      && t.books == s.books
      && t.requests[id].book == bookId.value
      && t.requests[id].requester == caller
      && t.requests[id].owner == s.books[bookId.value].owner
      && t.requests[id].status == Pending
      && t.requests[id].message == message
      && t.requests[id].responseMessage.None?
  {
    if bookId.None? then Err(Invalid([BookIdField]))
    else
      var b := bookId.value;
      if b !in s.books then Err(NotFound)
      else
        var book := s.books[b];
        if !book.isAvailable then Err(NotAvailable)
        else if book.owner == caller then Err(OwnBook)
        else if HasRequest(s, b, caller) then Err(DuplicateRequest)
        else
          var id := s.clock;
          Ok((s.(requests := s.requests[id := NewRequest(b, caller, book.owner, message)],
                 clock := s.clock + 1), id))
  }

  /** `PUT /:id/respond`: the owner answers a pending request. The answer is
      validated before the request is looked up. Accepting makes the book
      unavailable; declining touches no book. */
  function Respond(s: State, caller: UserId, id: RequestId, status: Option<string>,
                   responseMessage: Option<string>)
    : (r: Result<State, Error>)
    ensures ParseAnswer(status).None? ==> r == Err(Invalid([StatusField]))
    ensures ParseAnswer(status).Some? && id !in s.requests ==> r == Err(NotFound)
    ensures ParseAnswer(status).Some? && id in s.requests ==>
      var req := s.requests[id];
      && (req.owner != caller ==> r == Err(NotAuthorized))
      && (req.owner == caller && req.status.IsTerminal() ==> r == Err(AlreadyResponded))
      && (req.owner == caller && !req.status.IsTerminal() ==> r.Ok?)
    ensures r.Ok? ==>
      && id in s.requests
      && r.value.requests.Keys == s.requests.Keys
      && (forall q :: q in s.requests && q != id ==> r.value.requests[q] == s.requests[q])
      && r.value.requests[id] == s.requests[id].(status := ParseAnswer(status).value,
                                                 responseMessage := responseMessage)
      && StatusName(r.value.requests[id].status) == status.value
      && r.value.books.Keys == s.books.Keys
      && (forall b :: b in s.books && b != s.requests[id].book ==> r.value.books[b] == s.books[b])
      && (status == Some("declined") ==> r.value.books == s.books)
      && (status == Some("accepted") && s.requests[id].book in s.books ==>
            r.value.books[s.requests[id].book] == s.books[s.requests[id].book].(isAvailable := false))
      && r.value.clock == s.clock
  {
    var answer := ParseAnswer(status);
    if answer.None? then Err(Invalid([StatusField]))
    else if id !in s.requests then Err(NotFound)
    else
      var req := s.requests[id];
      if req.owner != caller then Err(NotAuthorized)
      else if req.status != Pending then Err(AlreadyResponded)
      else
        var books :=
          if answer.value == Accepted && req.book in s.books
          then s.books[req.book := s.books[req.book].(isAvailable := false)]
          else s.books;
        var answered := req.(status := answer.value, responseMessage := responseMessage);
        Ok(s.(books := books, requests := s.requests[id := answered]))
  }

  /** `DELETE /:id`: the requester withdraws a pending request. */
  function Cancel(s: State, caller: UserId, id: RequestId): (r: Result<State, Error>)
    ensures id !in s.requests ==> r == Err(NotFound)
    ensures id in s.requests && s.requests[id].requester != caller ==> r == Err(NotAuthorized)
    ensures id in s.requests && s.requests[id].requester == caller ==>
      (r.Err? <==> s.requests[id].status.IsTerminal()) && (r.Err? ==> r.error == AlreadyResponded)
    ensures r.Ok? ==>
      && r.value.requests.Keys == s.requests.Keys - {id}
      && (forall q :: q in r.value.requests ==> r.value.requests[q] == s.requests[q])
      && r.value.books == s.books
      && r.value.clock == s.clock
  {
    if id !in s.requests then Err(NotFound)
    else
      var req := s.requests[id];
      if req.requester != caller then Err(NotAuthorized)
      else if req.status != Pending then Err(AlreadyResponded)
      else Ok(s.(requests := s.requests - {id}))
  }
}
