/** The server as a state machine: each call is one authenticated caller
    running one state-changing route, applied atomically. A call that fails
    leaves the store as it was. */
module Lifecycle {
  import opened Common
  import opened Errors
  import opened Books
  import opened BookRequests
  import opened Store
  import opened BookRoutes
  import opened RequestRoutes
  import opened Invariants

  /** The state-changing routes, with their path parameters and bodies. */
  datatype Op =
    | AddBook(form: BookForm, file: Option<string>)                     // POST /api/books
    | EditBook(book: BookId, form: BookForm, file: Option<string>)      // PUT /api/books/:id
    | RemoveBook(book: BookId)                                          // DELETE /api/books/:id
    | Ask(bookId: Option<BookId>, message: Option<string>)              // POST /api/requests
    | Answer(request: RequestId, status: Option<string>, responseMessage: Option<string>)
                                                                        // PUT /api/requests/:id/respond
    | Withdraw(request: RequestId)                                      // DELETE /api/requests/:id

  /** A call made by a user the authentication layer has already resolved. */
  datatype Call = Call(caller: UserId, op: Op)

  /** Runs the route a call names. Only the two create routes take an id
      from the clock, and the only documents a call can add are the one
      under that id. */
  function Step(s: State, c: Call): (r: Result<State, Error>)
    requires IdsIssued(s)
    ensures r.Ok? && (c.op.AddBook? || c.op.Ask?) ==> r.value.clock == s.clock + 1
    ensures r.Ok? && !(c.op.AddBook? || c.op.Ask?) ==> r.value.clock == s.clock
    ensures r.Ok? ==> forall b :: b in r.value.books ==> b in s.books || (c.op.AddBook? && b == s.clock)
    ensures r.Ok? ==> forall q :: q in r.value.requests ==> q in s.requests || (c.op.Ask? && q == s.clock)
    ensures r.Ok? ==> forall q :: q in s.requests && q !in r.value.requests ==>
      (c.op.Withdraw? && q == c.op.request) || (c.op.RemoveBook? && s.requests[q].book == c.op.book)
  {
    match c.op
    case AddBook(f, file) =>
      var r :- CreateBook(s, c.caller, f, file); Ok(r.0)
    case EditBook(b, f, file) => UpdateBook(s, c.caller, b, f, file)
    case RemoveBook(b) => DeleteBook(s, c.caller, b)
    case Ask(b, m) =>
      var r :- CreateRequest(s, c.caller, b, m); Ok(r.0)
    case Answer(q, st, m) => Respond(s, c.caller, q, st, m)
    case Withdraw(q) => Cancel(s, c.caller, q)
  }

  /** The store after one call: a refused call writes nothing, so the store
      changes only through a call that succeeds, and the clock never goes back. */
  function Next(s: State, c: Call): (t: State)
    requires IdsIssued(s)
    ensures t != s ==> Step(s, c).Ok?
    ensures t.clock >= s.clock
  {
    match Step(s, c)
    case Ok(t) => t
    case Err(_) => s
  }

  /** Every call keeps the store invariants and never turns the clock back. */
  lemma NextPreservesInv(s: State, c: Call)
    requires Inv(s)
    ensures Inv(Next(s, c))
    ensures Next(s, c).clock >= s.clock
  {
    match c.op
    case AddBook(f, file) =>
      if CreateBook(s, c.caller, f, file).Ok? { CreateBookPreservesInv(s, c.caller, f, file); }
    case EditBook(b, f, file) =>
      if UpdateBook(s, c.caller, b, f, file).Ok? { UpdateBookPreservesInv(s, c.caller, b, f, file); }
    case RemoveBook(b) =>
      if DeleteBook(s, c.caller, b).Ok? { DeleteBookPreservesInv(s, c.caller, b); }
    case Ask(b, m) =>
      if CreateRequest(s, c.caller, b, m).Ok? { CreateRequestPreservesInv(s, c.caller, b, m); }
    case Answer(q, st, m) =>
      if Respond(s, c.caller, q, st, m).Ok? { RespondPreservesInv(s, c.caller, q, st, m); }
    case Withdraw(q) =>
      if Cancel(s, c.caller, q).Ok? { CancelPreservesInv(s, c.caller, q); }
  }

  /** The store after a sequence of calls, in order. */
  function Run(s: State, calls: seq<Call>): State
    requires Inv(s)
    decreases |calls|
  {
    if calls == [] then s
    else
      NextPreservesInv(s, calls[0]);
      Run(Next(s, calls[0]), calls[1..])
  }

  /** Calls from a store that satisfies the invariants lead to one that does. */
  lemma {:induction false} RunPreservesInv(s: State, calls: seq<Call>)
    requires Inv(s)
    ensures Inv(Run(s, calls))
    ensures Run(s, calls).clock >= s.clock
    decreases |calls|
  {
    if calls != [] {
      NextPreservesInv(s, calls[0]);
      RunPreservesInv(Next(s, calls[0]), calls[1..]);
    }
  }

  /** Every store the server can reach from an empty database satisfies the invariants. */
  lemma ReachableStoresSatisfyInv(calls: seq<Call>)
    ensures Inv(Run(Empty, calls))
  {
    RunPreservesInv(Empty, calls);
  }

  /** What one call may do to a request that survives it: only a pending
      request changes, and then only its status and response message. */
  lemma NextOnlyAnswersPending(s: State, c: Call, q: RequestId)
    requires Inv(s)
    requires q in s.requests && q in Next(s, c).requests
    ensures var (was, now) := (s.requests[q], Next(s, c).requests[q]);
      && now.book == was.book
      && now.requester == was.requester
      && now.owner == was.owner
      && now.message == was.message
      && (was.status.IsTerminal() ==> now == was)
      && (now != was ==> was.status == Pending && now.status.IsTerminal())
  {
  }

  /** An id below the clock that is not in use stays unused after one call:
      ids are never handed out twice. */
  lemma NextNeverReissues(s: State, c: Call, id: nat)
    requires Inv(s)
    requires id < s.clock
    ensures id !in s.requests ==> id !in Next(s, c).requests
    ensures id !in s.books ==> id !in Next(s, c).books
  {
  }

  /** After any sequence of calls, an id below the clock that was not in use
      is still not in use, for books and requests alike. */
  lemma {:induction false} RunNeverReissues(s: State, calls: seq<Call>, id: nat)
    requires Inv(s)
    requires id < s.clock
    ensures id !in s.requests ==> id !in Run(s, calls).requests
    ensures id !in s.books ==> id !in Run(s, calls).books
    decreases |calls|
  {
    if calls != [] {
      NextPreservesInv(s, calls[0]);
      NextNeverReissues(s, calls[0], id);
      RunNeverReissues(Next(s, calls[0]), calls[1..], id);
    }
  }

  /** An answered request is final: whatever calls follow, it is either
      gone (its book was deleted) or exactly as it was. */
  lemma {:induction false} RunKeepsAnswered(s: State, calls: seq<Call>, q: RequestId)
    requires Inv(s)
    requires q in s.requests && s.requests[q].status.IsTerminal()
    ensures q in Run(s, calls).requests ==> Run(s, calls).requests[q] == s.requests[q]
    ensures q !in Run(s, calls).requests ==> s.requests[q].book !in Run(s, calls).books
    decreases |calls|
  {
    if calls != [] {
      var t := Next(s, calls[0]);
      NextPreservesInv(s, calls[0]);
      if q in t.requests {
        NextOnlyAnswersPending(s, calls[0], q);
        RunKeepsAnswered(t, calls[1..], q);
      } else {
        assert s.requests[q].book !in t.books;
        RunNeverReissues(t, calls[1..], q);
        RunNeverReissues(t, calls[1..], s.requests[q].book);
      }
    }
  }

  /** A refusal is answered with a server error exactly when it is an
      owner's edit whose truthy condition the schema rejects; every other
      refusal is a 4xx. */
  lemma OnlyEditAnswers500(s: State, c: Call)
    requires IdsIssued(s)
    requires Step(s, c).Err?
    ensures HttpStatus(Step(s, c).error) == 500 ==> c.op.EditBook?
    ensures !c.op.EditBook? ==> 400 <= HttpStatus(Step(s, c).error) < 500
    ensures (c.op.EditBook? && c.op.book in s.books && s.books[c.op.book].owner == c.caller &&
             Truthy(c.op.form.condition) && !IsConditionName(c.op.form.condition)) ==>
      HttpStatus(Step(s, c).error) == 500
  {
  }
}
