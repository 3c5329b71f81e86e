/** Every successful handler keeps the store invariants: ids issued by the
    clock, required book fields present, no dangling request, the owner
    snapshot, no self-request, one request per (book, requester), and
    accepted requests only on unavailable books. */
module Invariants {
  import opened Common
  import opened Errors
  import opened Books
  import opened BookRequests
  import opened Store
  import opened BookRoutes
  import opened RequestRoutes

  lemma CreateBookPreservesInv(s: State, caller: UserId, f: BookForm, file: Option<string>)
    requires Inv(s)
    requires CreateBook(s, caller, f, file).Ok?
    ensures Inv(CreateBook(s, caller, f, file).value.0)
  {
  }

  lemma UpdateBookPreservesInv(s: State, caller: UserId, id: BookId, f: BookForm, file: Option<string>)
    requires Inv(s)
    requires UpdateBook(s, caller, id, f, file).Ok?
    ensures Inv(UpdateBook(s, caller, id, f, file).value)
  {
  }

  lemma DeleteBookPreservesInv(s: State, caller: UserId, id: BookId)
    requires Inv(s)
    requires DeleteBook(s, caller, id).Ok?
    ensures Inv(DeleteBook(s, caller, id).value)
  {
  }

  lemma CreateRequestPreservesInv(s: State, caller: UserId, bookId: Option<BookId>, message: Option<string>)
    requires Inv(s)
    requires CreateRequest(s, caller, bookId, message).Ok?
    ensures Inv(CreateRequest(s, caller, bookId, message).value.0)
  {
  }

  lemma RespondPreservesInv(s: State, caller: UserId, id: RequestId, status: Option<string>,
                            responseMessage: Option<string>)
    requires Inv(s)
    requires Respond(s, caller, id, status, responseMessage).Ok?
    ensures Inv(Respond(s, caller, id, status, responseMessage).value)
  {
  }

  lemma CancelPreservesInv(s: State, caller: UserId, id: RequestId)
    requires Inv(s)
    requires Cancel(s, caller, id).Ok?
    ensures Inv(Cancel(s, caller, id).value)
  {
  }
}
