/** The Book document: its fields, the `condition` enumeration and the
    schema defaults applied when a book is created. */
module Books {
  import opened Common

  /** The schema's enumeration for `condition`. */
  datatype Condition = Excellent | Good | Fair | Poor

  /** The string the schema stores for each condition. */
  function ConditionName(c: Condition): string {
    match c
    case Excellent => "Excellent"
    case Good => "Good"
    case Fair => "Fair"
    case Poor => "Poor"
  }

  /** Reads a condition string, accepting exactly the four enumeration values. */
  function ParseCondition(s: string): (r: Option<Condition>)
    ensures r.Some? ==> ConditionName(r.value) == s
    ensures r.None? <==> forall c: Condition :: ConditionName(c) != s
  {
    if s == "Excellent" then Some(Excellent)
    else if s == "Good" then Some(Good)
    else if s == "Fair" then Some(Fair)
    else if s == "Poor" then Some(Poor)
    else None
  }

  /** Every stored condition reads back as itself. */
  lemma ConditionRoundTrip(c: Condition)
    ensures ParseCondition(ConditionName(c)) == Some(c)
  {
  }

  /** Whether an optional field holds one of the enumeration's strings. */
  predicate IsConditionName(o: Option<string>) {
    o.Some? && ParseCondition(o.value).Some?
  }

  /** A stored book. `description` and `category` are optional; `image` is
      a file name or the empty string. */
  datatype Book = Book(
    title: string,
    author: string,
    condition: Condition,
    description: Option<string>,
    category: Option<string>,
    image: string,
    owner: UserId,
    isAvailable: bool)

  /** The schema's `required` fields that are strings hold something. */
  predicate RequiredPresent(b: Book) {
    b.title != "" && b.author != ""
  }

  /** The document built by `new Book({...})` from creation fields: the
      image defaults to the empty string and the book starts available. */
  function NewBook(title: string, author: string, condition: Condition,
                   description: Option<string>, category: Option<string>,
                   file: Option<string>, owner: UserId): (b: Book)
    ensures b.isAvailable
    ensures file.None? ==> b.image == ""
    ensures file.Some? ==> b.image == file.value
    ensures b.owner == owner
  {
    Book(title, author, condition, description, category,
         if file.Some? then file.value else "", owner, true)
  }
}
