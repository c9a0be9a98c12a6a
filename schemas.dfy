/** The request schemas (app/domain/schemas.py): `BookCreate`, whose optional keys take defaults,
    and `BookUpdate`, every key of which is optional and remembered as set or unset. */
module Schemas {
  import opened Records
  import opened Text
  import Models

  /** A validated create payload. */
  datatype BookCreate = BookCreate(
    title: string,
    author: string,
    isbn: Option<string>,
    publishedYear: Option<int>,
    genres: seq<string>,
    totalCopies: int)

  /** A create request body as received: each key missing, null, or given. */
  datatype CreateRequest = CreateRequest(
    title: Slot<string>,
    author: Slot<string>,
    isbn: Slot<string>,
    publishedYear: Slot<int>,
    genres: Slot<seq<string>>,
    totalCopies: Slot<int>)

  /** A required field: it must be given. */
  function Required<T>(s: Slot<T>): (r: Result<T>)
    ensures r.Ok? <==> s.Has?
    ensures r.Ok? ==> r.value == s.value
  {
    if s.Has? then Ok(s.value) else Err(Invalid)
  }

  /** An Optional field defaulting to None: missing and null both give None. */
  function Nullable<T>(s: Slot<T>): (r: Option<T>)
    ensures r.Some? <==> s.Has?
    ensures r.Some? ==> r.value == s.value
  {
    s.Get()
  }

  /** A non-Optional field with a default: missing gives the default, null is rejected. */
  function Defaulted<T>(s: Slot<T>, default: T): (r: Result<T>)
    ensures r.Ok? <==> !s.Null?
    ensures r.Ok? ==> r.value == (if s.Has? then s.value else default)
  {
    match s
    case Absent => Ok(default)
    case Null => Err(Invalid)
    case Has(v) => Ok(v)
  }

  /** Parsing a create body: title and author required and trimmed non-empty; isbn and
      published_year default to None, genres to [], total_copies to 1. */
  function ValidateCreate(req: CreateRequest): (r: Result<BookCreate>)
    ensures r.Ok? <==> && req.title.Has? && Models.HasText(req.title.value)
                       && req.author.Has? && Models.HasText(req.author.value)
                       && !req.genres.Null? && !req.totalCopies.Null?
    ensures r.Ok? ==> && r.value.title == Strip(req.title.value)
                      && r.value.author == Strip(req.author.value)
                      && r.value.title != [] && r.value.author != []
                      && r.value.isbn == req.isbn.Get()
                      && r.value.publishedYear == req.publishedYear.Get()
                      && r.value.genres == (if req.genres.Has? then req.genres.value else [])
                      && r.value.totalCopies == (if req.totalCopies.Has? then req.totalCopies.value else 1)
  {
    var title := Required(req.title);
    var author := Required(req.author);
    var genres := Defaulted(req.genres, []);
    var total := Defaulted(req.totalCopies, 1);
    if title.Err? || author.Err? || genres.Err? || total.Err? then Err(Invalid)
    else
      var t := Models.NonEmpty(title.value);
      var a := Models.NonEmpty(author.value);
      if t.Err? || a.Err? then Err(Invalid)
      else Ok(BookCreate(t.value, a.value, Nullable(req.isbn), Nullable(req.publishedYear),
                         genres.value, total.value))
  }

  /** One key of an update body: not sent, or sent (possibly as null). */
  datatype Patch<+T> = Unset | SetTo(value: Option<T>)

  /** An update body; `model_dump(exclude_unset=True)` keeps exactly the SetTo keys. */
  datatype BookUpdate = BookUpdate(
    title: Patch<string>,
    author: Patch<string>,
    isbn: Patch<string>,
    publishedYear: Patch<int>,
    genres: Patch<seq<string>>,
    totalCopies: Patch<int>,
    availableCopies: Patch<int>)

  /** The body `{}`: every field defaults to None and none is set. */
  const EmptyUpdate: BookUpdate := BookUpdate(Unset, Unset, Unset, Unset, Unset, Unset, Unset)

  /** The title/author validator of BookUpdate: a None passes through, any other value is trimmed
      and rejected when nothing is left. */
  function NonEmptyOptional(p: Patch<string>): (r: Result<Patch<string>>)
    ensures r.Ok? <==> !(p.SetTo? && p.value.Some? && !Models.HasText(p.value.value))
    ensures r.Ok? ==> r.value == match p
                                 case SetTo(Some(s)) => SetTo(Some(Strip(s)))
                                 case _ => p
  {
    match p
    case SetTo(Some(s)) =>
      var v := Models.NonEmpty(s);
      if v.Ok? then Ok(SetTo(Some(v.value))) else Err(Invalid)
    case _ => Ok(p)
  }

  /** Parsing an update body: only title and author are checked; every other field passes. */
  function ValidateUpdate(u: BookUpdate): (r: Result<BookUpdate>)
    ensures r.Ok? <==> NonEmptyOptional(u.title).Ok? && NonEmptyOptional(u.author).Ok?
    ensures r.Ok? ==> r.value == u.(title := NonEmptyOptional(u.title).value,
                                    author := NonEmptyOptional(u.author).value)
  {
    var t := NonEmptyOptional(u.title);
    var a := NonEmptyOptional(u.author);
    if t.Ok? && a.Ok? then Ok(u.(title := t.value, author := a.value)) else Err(Invalid)
  }

  /** Any subset of the fields may be supplied: the empty body is valid and sets nothing. */
  lemma EmptyUpdateValid()
    ensures ValidateUpdate(EmptyUpdate) == Ok(EmptyUpdate)
  {
  }
}
