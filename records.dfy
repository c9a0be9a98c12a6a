/** The JSON shapes the store persists: a book record (one object of the `books` map) and the
    whole document. A record read back from the file may lack keys or hold null in them, and the
    code distinguishes the two, so every field is a Slot. */
module Records {

  datatype Option<+T> = None | Some(value: T) {
    /** The value, or d for Python's None. */
    function GetOr(d: T): T
    {
      match this
      case Some(v) => v
      case None => d
    }
  }

  /** How the service fails: NotFoundError (404), ValueError or a validation error (400), and any
      other exception the code lets escape, such as a TypeError (500). */
  datatype Failure = NotFound | Invalid | Fault

  datatype Result<+T> = Ok(value: T) | Err(error: Failure)

  /** One key of a JSON object: missing, present with null, or present with a value. */
  datatype Slot<+T> = Absent | Null | Has(value: T) {
    /** obj.get(key): None when the key is missing or null. */
    function Get(): Option<T>
    {
      match this
      case Has(v) => Some(v)
      case _ => None
    }

    /** obj.get(key, d): d only when the key is missing; a null stays None. */
    function GetOr(d: T): Option<T>
    {
      match this
      case Absent => Some(d)
      case Null => None
      case Has(v) => Some(v)
    }
  }

  /** Python truthiness of an optional string argument (`if author:`). */
  predicate Given(s: Option<string>)
  {
    s.Some? && s.value != []
  }

  /** A stored book object. */
  datatype Record = Record(
    id: Slot<string>,
    title: Slot<string>,
    author: Slot<string>,
    isbn: Slot<string>,
    publishedYear: Slot<int>,
    genres: Slot<seq<Option<string>>>,
    totalCopies: Slot<int>,
    availableCopies: Slot<int>,
    createdAt: Slot<string>,
    updatedAt: Slot<string>)

  /** The object `{}`. */
  const EmptyRecord: Record :=
    Record(Absent, Absent, Absent, Absent, Absent, Absent, Absent, Absent, Absent, Absent)

  /** Python truthiness of a record: only the empty object is falsy. */
  predicate Truthy(r: Record)
  {
    r != EmptyRecord
  }

  /** The persisted document `{"version": ..., "books": {...}}`; either key may be missing. */
  datatype Doc = Doc(version: Option<int>, books: Option<map<string, Record>>) {
    /** data.get("books", {}) */
    function Books(): map<string, Record>
    {
      books.GetOr(map[])
    }
  }

  /** The document written when the data file does not exist. */
  const InitialDoc: Doc := Doc(Some(1), Some(map[]))
}
