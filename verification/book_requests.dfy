/** The BookRequest document: its fields and the `status` enumeration. */
module BookRequests {
  import opened Common

  /** The schema's enumeration for `status`. */
  datatype Status = Pending | Accepted | Declined {
    /** Accepted and declined requests have been answered for good. */
    predicate IsTerminal() {
      this != Pending
    }
  }

  /** The string the schema stores for each status. */
  function StatusName(st: Status): string {
    match st
    case Pending => "pending"
    case Accepted => "accepted"
    case Declined => "declined"
  }

  /** The respond route's validator: only "accepted" and "declined" are
      answers an owner may give. */
  function ParseAnswer(o: Option<string>): (r: Option<Status>)
    ensures r.Some? <==> o.Some? && (o.value == "accepted" || o.value == "declined")
    ensures r.Some? ==> r.value.IsTerminal() && StatusName(r.value) == o.value
  {
    if o == Some("accepted") then Some(Accepted)
    else if o == Some("declined") then Some(Declined)
    else None
  }

  /** A stored request. `owner` is the book's owner copied at creation;
      `message` and `responseMessage` are optional. */
  datatype BookRequest = BookRequest(
    book: BookId,
    requester: UserId,
    owner: UserId,
    status: Status,
    message: Option<string>,
    responseMessage: Option<string>)

  /** The document built by `new BookRequest({...})`: the status takes its
      default and no response has been given. */
  function NewRequest(book: BookId, requester: UserId, owner: UserId,
                      message: Option<string>): (r: BookRequest)
    ensures r.status == Pending && !r.status.IsTerminal()
    ensures r.responseMessage.None?
  {
    BookRequest(book, requester, owner, Pending, message, None)
  }
}
