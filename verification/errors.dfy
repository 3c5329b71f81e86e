/** The answers a route handler gives instead of a result. */
module Errors {

  /** Request-body fields that the route validators check. */
  datatype Field = TitleField | AuthorField | ConditionField | BookIdField | StatusField

  datatype Error =
    | Invalid(fields: seq<Field>)  // 400 with the validator's error array
    | NotFound                     // 404 "... not found"
    | NotAuthorized                // 401 "Not authorized"
    | NotAvailable                 // 400 "Book is not available"
    | OwnBook                      // 400 "Cannot request your own book"
    | DuplicateRequest             // 400 "Request already exists for this book"
    | AlreadyResponded             // 400 the request is no longer pending
    | SchemaRejected               // 500 the schema refused the document on save

  /** The HTTP status code each error is answered with. */
  function HttpStatus(e: Error): (code: int)
    ensures code == 500 <==> e.SchemaRejected?
    ensures !e.SchemaRejected? ==> 400 <= code < 500
  {
    match e
    case NotFound => 404
    case NotAuthorized => 401
    case SchemaRejected => 500
    case _ => 400
  }
}
