/** The book catalog routes: list available books, list the caller's
    books, create, partially update, delete with cascade, and fetch one. */
module BookRoutes {
  import opened Common
  import opened Errors
  import opened Books
  import opened BookRequests
  import opened Store

  /** The text fields of a create or update form; any of them may be missing. */
  datatype BookForm = BookForm(
    title: Option<string>,
    author: Option<string>,
    condition: Option<string>,
    description: Option<string>,
    category: Option<string>)

  /** The ids `GET /` returns: the books still available. */
  function AvailableBooks(s: State): set<BookId> {
    set id | id in s.books && s.books[id].isAvailable
  }

  /** The ids `GET /my-books` returns: every book `user` owns. */
  function BooksOwnedBy(s: State, user: UserId): set<BookId> {
    set id | id in s.books && s.books[id].owner == user
  }

  /** Where each creation validator stands in the route's validator list. */
  function ValidatorPosition(field: Field): nat {
    match field
    case TitleField => 0
    case AuthorField => 1
    case ConditionField => 2
    case _ => 3
  }

  /** The fields the creation validators reject, in the order they are declared. */
  function CreateErrors(f: BookForm): (errs: seq<Field>)
    ensures TitleField in errs <==> !Truthy(f.title)
    ensures AuthorField in errs <==> !Truthy(f.author)
    ensures ConditionField in errs <==> !IsConditionName(f.condition)
    ensures forall i :: 0 <= i < |errs| ==> errs[i] in {TitleField, AuthorField, ConditionField}
    ensures forall i, j :: 0 <= i < j < |errs| ==>
      ValidatorPosition(errs[i]) < ValidatorPosition(errs[j])
  {
    (if Truthy(f.title) then [] else [TitleField])
    + (if Truthy(f.author) then [] else [AuthorField])
    + (if IsConditionName(f.condition) then [] else [ConditionField])
  }

  /** `POST /`: validate the form, then store a new book owned by the caller.
      `file` is the name of the uploaded cover, when there is one. The new
      id comes from the clock, which is fresh in a store whose ids it issued. */
  function CreateBook(s: State, caller: UserId, f: BookForm, file: Option<string>)
    : (r: Result<(State, BookId), Error>)
    requires IdsIssued(s)
    ensures r.Err? <==> !(Truthy(f.title) && Truthy(f.author) && IsConditionName(f.condition))
    ensures r.Err? ==> r.error == Invalid(CreateErrors(f)) && r.error.fields != []
    ensures r.Ok? ==>
      var (t, id) := r.value;
      && id !in s.books
      && t.books.Keys == s.books.Keys + {id}
      && (forall b :: b in s.books ==> t.books[b] == s.books[b])
      && t.requests == s.requests
      && t.books[id].owner == caller
      && t.books[id].isAvailable
      && t.books[id].title == f.title.value
      && t.books[id].author == f.author.value
      && f.condition == Some(ConditionName(t.books[id].condition))
      && t.books[id].description == f.description
      && t.books[id].category == f.category
      && t.books[id].image == (if file.Some? then file.value else "")
  {
    var errs := CreateErrors(f);
    if errs != [] then
      Err(Invalid(errs))
    else
      var book := NewBook(f.title.value, f.author.value, ParseCondition(f.condition.value).value,
                          f.description, f.category, file, caller);
      var id := s.clock;
      Ok((State(s.books[id := book], s.requests, s.clock + 1), id))
  }

  /** `PUT /:id`: the owner replaces each text field given a truthy value and
      keeps the rest; a new upload replaces the image. A truthy condition
      outside the enumeration is refused when the document is saved. */
  function UpdateBook(s: State, caller: UserId, id: BookId, f: BookForm, file: Option<string>)
    : (r: Result<State, Error>)
    ensures id !in s.books ==> r == Err(NotFound)
    ensures id in s.books && s.books[id].owner != caller ==> r == Err(NotAuthorized)
    ensures id in s.books && s.books[id].owner == caller ==>
      (r.Err? <==> Truthy(f.condition) && !IsConditionName(f.condition))
    ensures (id in s.books && s.books[id].owner == caller &&
             Truthy(f.condition) && !IsConditionName(f.condition)) ==> r == Err(SchemaRejected)
    ensures r.Err? ==> r.error in {NotFound, NotAuthorized, SchemaRejected}
    ensures r.Ok? ==> id in s.books && r.value.books.Keys == s.books.Keys
    ensures r.Ok? ==>
      var (was, now) := (s.books[id], r.value.books[id]);
      && (forall b :: b in s.books && b != id ==> r.value.books[b] == s.books[b])
      && r.value.requests == s.requests
      && r.value.clock == s.clock
      && now.owner == was.owner == caller
      && now.isAvailable == was.isAvailable
      && now.title == (if Truthy(f.title) then f.title.value else was.title)
      && now.author == (if Truthy(f.author) then f.author.value else was.author)
      && (Truthy(f.condition) ==> f.condition == Some(ConditionName(now.condition)))
      && (!Truthy(f.condition) ==> now.condition == was.condition)
      && now.description == (if Truthy(f.description) then f.description else was.description)
      && now.category == (if Truthy(f.category) then f.category else was.category)
      && now.image == (if file.Some? then file.value else was.image)
  {
    if id !in s.books then Err(NotFound)
    else
      var book := s.books[id];
      if book.owner != caller then Err(NotAuthorized)
      else
        var condition :=
          if Truthy(f.condition) then ParseCondition(f.condition.value) else Some(book.condition);
        if condition.None? then Err(SchemaRejected)
        else
          var edited := book.(
            title := OrElse(f.title, book.title),
            author := OrElse(f.author, book.author),
            condition := condition.value,
            description := OrKeep(f.description, book.description),
            category := OrKeep(f.category, book.category),
            image := if file.Some? then file.value else book.image);
          Ok(s.(books := s.books[id := edited]))
  }

  /** `DELETE /:id`: the owner removes the book and every request naming it. */
  function DeleteBook(s: State, caller: UserId, id: BookId): (r: Result<State, Error>)
    ensures id !in s.books ==> r == Err(NotFound)
    ensures id in s.books && s.books[id].owner != caller ==> r == Err(NotAuthorized)
    ensures r.Ok? <==> id in s.books && s.books[id].owner == caller
    ensures r.Ok? ==>
      && r.value.books.Keys == s.books.Keys - {id}
      && (forall b :: b in r.value.books ==> r.value.books[b] == s.books[b])
      && (forall q :: q in r.value.requests <==> q in s.requests && s.requests[q].book != id)
      && (forall q :: q in r.value.requests ==> r.value.requests[q] == s.requests[q])
      && r.value.clock == s.clock
  {
    if id !in s.books then Err(NotFound)
    else if s.books[id].owner != caller then Err(NotAuthorized)
    else
      var kept := map q | q in s.requests && s.requests[q].book != id :: s.requests[q];
      Ok(State(s.books - {id}, kept, s.clock))
  }

  /** `GET /:id`: the stored book, unchanged. */
  function GetBook(s: State, id: BookId): (r: Result<Book, Error>)
    ensures r.Ok? <==> id in s.books
    ensures r.Ok? ==> r.value == s.books[id]
    ensures r.Err? ==> r.error == NotFound
  {
    if id in s.books then Ok(s.books[id]) else Err(NotFound)
  }
}
