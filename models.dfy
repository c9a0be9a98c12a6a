/** The domain model `Book` (app/domain/models.py): its defaults, its three field validators, the
    construction that runs them, and `model_dump`, which turns a book into the stored record. */
module Models {
  import opened Records
  import opened Text

  /** A validated book. Timestamps are ISO-8601 strings and the id is its string form. */
  datatype Book = Book(
    id: string,
    title: string,
    author: string,
    isbn: Option<string>,
    publishedYear: Option<int>,
    genres: seq<string>,
    totalCopies: int,
    availableCopies: int,
    createdAt: string,
    updatedAt: string)

  /** Field defaults of the model. */
  const DefaultIsbn: Option<string> := None
  const DefaultPublishedYear: Option<int> := None
  const DefaultGenres: seq<string> := []
  const DefaultTotalCopies: int := 1
  const DefaultAvailableCopies: int := 1

  /** Some character of s is not whitespace. */
  predicate HasText(s: string)
  {
    exists k :: 0 <= k < |s| && !IsSpace(s[k])
  }

  /** The title/author validator: the value trimmed, rejected when nothing is left. */
  function NonEmpty(v: string): (r: Result<string>)
    ensures r.Ok? <==> HasText(v)
    ensures r.Ok? ==> r.value == Strip(v) && r.value != []
    ensures r.Err? ==> r.error == Invalid
  {
    StripEmptyIff(v);
    var s := Strip(v);
    if s == [] then Err(Invalid) else Ok(s)
  }

  /** A value that passed NonEmpty passes it again unchanged. */
  lemma NonEmptyIdempotent(v: string)
    requires NonEmpty(v).Ok?
    ensures NonEmpty(NonEmpty(v).value) == NonEmpty(v)
  {
    StripIdempotent(v);
    StripEmptyIff(Strip(v));
  }

  /** The published_year validator, `currentYear` standing for the clock's year. */
  function CheckYear(v: Option<int>, currentYear: int): (r: Result<Option<int>>)
    ensures r.Ok? <==> (v.None? || 1000 <= v.value <= currentYear + 1)
    ensures r.Ok? ==> r.value == v
  {
    if v.None? then Ok(v)
    else if v.value < 1000 || v.value > currentYear + 1 then Err(Invalid)
    else Ok(v)
  }

  /** The available_copies validator; `total` is None when total_copies did not validate, and
      then counts as 1. */
  function CopiesLeTotal(v: int, total: Option<int>): (r: Result<int>)
    ensures r.Ok? <==> v <= total.GetOr(1)
    ensures r.Ok? ==> r.value == v
  {
    var t := total.GetOr(1);
    if v > t then Err(Invalid) else Ok(v)
  }

  /** Book(...) with every field given: all validators run and any failure rejects the whole book. */
  function NewBook(id: string, title: string, author: string, isbn: Option<string>,
                   publishedYear: Option<int>, genres: seq<string>, totalCopies: int,
                   availableCopies: int, createdAt: string, updatedAt: string,
                   currentYear: int): (r: Result<Book>)
    ensures r.Ok? <==> HasText(title) && HasText(author)
                       && CheckYear(publishedYear, currentYear).Ok?
                       && availableCopies <= totalCopies
    ensures r.Ok? ==> r.value == Book(id, Strip(title), Strip(author), isbn, publishedYear, genres,
                                      totalCopies, availableCopies, createdAt, updatedAt)
  {
    var t := NonEmpty(title);
    var a := NonEmpty(author);
    var y := CheckYear(publishedYear, currentYear);
    var c := CopiesLeTotal(availableCopies, Some(totalCopies));
    if t.Ok? && a.Ok? && y.Ok? && c.Ok? then
      Ok(Book(id, t.value, a.value, isbn, y.value, genres, totalCopies, c.value, createdAt, updatedAt))
    else
      Err(Invalid)
  }

  /** Book(id=..., title=..., author=..., created_at=..., updated_at=...) with every other field
      left to its default: the defaults pass their own validators, so only the title and the
      author can reject such a book, and it has one copy, available. */
  function DefaultBook(id: string, title: string, author: string, createdAt: string, updatedAt: string,
                       currentYear: int): (r: Result<Book>)
    ensures r.Ok? <==> HasText(title) && HasText(author)
    ensures r.Ok? ==> && r.value.isbn.None? && r.value.publishedYear.None? && r.value.genres == []
                      && r.value.totalCopies == 1 && r.value.availableCopies == 1
                      && r.value.title == Strip(title) && r.value.author == Strip(author)
  {
    NewBook(id, title, author, DefaultIsbn, DefaultPublishedYear, DefaultGenres, DefaultTotalCopies,
            DefaultAvailableCopies, createdAt, updatedAt, currentYear)
  }

  /** A key that may be None: null in the dump. */
  function OptionSlot<T>(o: Option<T>): Slot<T>
  {
    match o
    case Some(v) => Has(v)
    case None => Null
  }

  /** book.model_dump(): every key present, None fields dumped as null. */
  function Dump(b: Book): (r: Record)
    ensures Truthy(r)
  {
    Record(Has(b.id), Has(b.title), Has(b.author), OptionSlot(b.isbn), OptionSlot(b.publishedYear),
           Has(seq(|b.genres|, i requires 0 <= i < |b.genres| => Some(b.genres[i]))),
           Has(b.totalCopies), Has(b.availableCopies), Has(b.createdAt), Has(b.updatedAt))
  }

  /** Reading a dumped record back as a book: defined on every record whose keys are all present
      with values of the model's types. */
  function Load(r: Record): (b: Option<Book>)
  {
    if && r.id.Has? && r.title.Has? && r.author.Has? && !r.isbn.Absent? && !r.publishedYear.Absent?
       && r.genres.Has? && (forall i :: 0 <= i < |r.genres.value| ==> r.genres.value[i].Some?)
       && r.totalCopies.Has? && r.availableCopies.Has? && r.createdAt.Has? && r.updatedAt.Has?
    then
      Some(Book(r.id.value, r.title.value, r.author.value, r.isbn.Get(), r.publishedYear.Get(),
                seq(|r.genres.value|, i requires 0 <= i < |r.genres.value| && r.genres.value[i].Some? =>
                  r.genres.value[i].value),
                r.totalCopies.value, r.availableCopies.value, r.createdAt.value, r.updatedAt.value))
    else None
  }

  /** model_dump loses nothing: the stored record reads back as the same book. */
  lemma DumpLoad(b: Book)
    ensures Load(Dump(b)) == Some(b)
  {
    var r := Dump(b);
    assert r.genres.Has?;
    var gs := seq(|r.genres.value|, i requires 0 <= i < |r.genres.value| && r.genres.value[i].Some? =>
                  r.genres.value[i].value);
    assert gs == b.genres;
  }
}
