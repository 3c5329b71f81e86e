/** Concrete runs of the lifecycle with users A = 1, B = 2 and C = 3. */
module Scenarios {
  import opened Common
  import opened Errors
  import opened Books
  import opened BookRequests
  import opened Store
  import opened BookRoutes
  import opened RequestRoutes

  const A: UserId := 1
  const B: UserId := 2
  const C: UserId := 3

  const DuneForm: BookForm := BookForm(Some("Dune"), Some("Frank Herbert"), Some("Good"), None, None)

  /** A lists a book, B asks for it, A accepts: the request is accepted, the
      book is off the market and C's request is refused. */
  lemma AcceptScenario()
    ensures var (s1, dune) := CreateBook(Empty, A, DuneForm, None).value;
      var (s2, q) := CreateRequest(s1, B, Some(dune), Some("may I borrow?")).value;
      && s2.requests[q].status == Pending
      && Respond(s2, A, q, Some("accepted"), Some("sure")).Ok?
      && var s3 := Respond(s2, A, q, Some("accepted"), Some("sure")).value;
         && s3.requests[q].status == Accepted
         && !s3.books[dune].isAvailable
         && CreateRequest(s3, C, Some(dune), None) == Err(NotAvailable)
  {
  }

  /** The owner cannot ask for their own book, and B cannot ask twice. */
  lemma RefusedRequestsScenario()
    ensures var (s1, dune) := CreateBook(Empty, A, DuneForm, None).value;
      && CreateRequest(s1, A, Some(dune), None) == Err(OwnBook)
      && var (s2, _) := CreateRequest(s1, B, Some(dune), None).value;
         CreateRequest(s2, B, Some(dune), Some("again")) == Err(DuplicateRequest)
  {
  }

  /** B cancels a pending request; answering it afterwards finds nothing. */
  lemma CancelScenario()
    ensures var (s1, dune) := CreateBook(Empty, A, DuneForm, None).value;
      var (s2, q) := CreateRequest(s1, B, Some(dune), None).value;
      && Cancel(s2, B, q) == Ok(s1.(clock := s2.clock))
      && Respond(Cancel(s2, B, q).value, A, q, Some("declined"), None) == Err(NotFound)
  {
  }

  /** Respond does not look at the book's availability, so two requests made
      while the book was available can both be accepted. */
  lemma TwoAcceptancesScenario()
    ensures var (s1, dune) := CreateBook(Empty, A, DuneForm, None).value;
      var (s2, qb) := CreateRequest(s1, B, Some(dune), None).value;
      var (s3, qc) := CreateRequest(s2, C, Some(dune), None).value;
      var s4 := Respond(s3, A, qb, Some("accepted"), None).value;
      && Respond(s4, A, qc, Some("accepted"), None).Ok?
      && var s5 := Respond(s4, A, qc, Some("accepted"), None).value;
         qb != qc && s5.requests[qb].status == Accepted && s5.requests[qc].status == Accepted
  {
  }
}
