/** The service layer `BooksService` (app/services/books.py): listing through a freshly built
    index, creation with defaults, lookup, partial update with the copies check, and deletion,
    all over one `JsonStore`. The clock, the id generator and the backup outcome are parameters. */
module Service {
  import opened Records
  import opened Text
  import Models
  import Schemas
  import Index
  import Store

  // ---------------------------------------------------------------------------------------------
  // create_book

  /** The record create_book stores: the payload's fields, `total_copies or 1` copies of which all
      are available, both timestamps `now`, run through the Book validators and dumped. */
  function NewRecord(p: Schemas.BookCreate, id: string, now: string, currentYear: int): (r: Result<Record>)
    ensures r.Ok? <==> && Models.HasText(p.title) && Models.HasText(p.author)
                       && Models.CheckYear(p.publishedYear, currentYear).Ok?
    ensures r.Err? ==> r.error == Invalid
    ensures r.Ok? ==> && Truthy(r.value) && r.value.id == Has(id)
                      && r.value.title == Has(Strip(p.title)) && r.value.author == Has(Strip(p.author))
                      && r.value.availableCopies == r.value.totalCopies
                      && (p.totalCopies != 0 ==> r.value.totalCopies == Has(p.totalCopies))
                      && (p.totalCopies == 0 ==> r.value.totalCopies == Has(1))
                      && r.value.createdAt == Has(now) && r.value.updatedAt == Has(now)
  {
    var total := if p.totalCopies == 0 then 1 else p.totalCopies;
    var b := Models.NewBook(id, p.title, p.author, p.isbn, p.publishedYear, p.genres, total, total,
                            now, now, currentYear);
    if b.Ok? then Ok(Models.Dump(b.value)) else Err(Invalid)
  }

  /** The created record reads back as the book the payload describes, with every copy available. */
  lemma NewRecordLoads(p: Schemas.BookCreate, id: string, now: string, currentYear: int)
    requires NewRecord(p, id, now, currentYear).Ok?
    ensures var b := Models.Load(NewRecord(p, id, now, currentYear).value);
            && b.Some?
            && b.value.isbn == p.isbn && b.value.publishedYear == p.publishedYear
            && b.value.genres == p.genres
            && b.value.availableCopies == b.value.totalCopies
            && (p.totalCopies >= 0 ==> b.value.totalCopies >= 1)
  {
    var total := if p.totalCopies == 0 then 1 else p.totalCopies;
    var b := Models.NewBook(id, p.title, p.author, p.isbn, p.publishedYear, p.genres, total, total,
                            now, now, currentYear);
    Models.DumpLoad(b.value);
  }

  /** Once the request body has passed BookCreate's validation, the only way create_book can still
      reject it is a published_year out of range; the stored title is the trimmed title. */
  lemma CreateRejectsOnlyYear(req: Schemas.CreateRequest, id: string, now: string, currentYear: int)
    requires Schemas.ValidateCreate(req).Ok?
    ensures var r := NewRecord(Schemas.ValidateCreate(req).value, id, now, currentYear);
            && (r.Ok? <==> Models.CheckYear(req.publishedYear.Get(), currentYear).Ok?)
            && (r.Ok? ==> r.value.title == Has(Strip(req.title.value))
                          && r.value.author == Has(Strip(req.author.value)))
  {
    var p := Schemas.ValidateCreate(req).value;
    assert Models.HasText(p.title) by {
      assert !IsSpace(p.title[0]);
    }
    assert Models.HasText(p.author) by {
      assert !IsSpace(p.author[0]);
    }
    StripIdempotent(req.title.value);
    StripIdempotent(req.author.value);
  }

  // ---------------------------------------------------------------------------------------------
  // update_book

  /** r is slot s after `.update(...)` with patch p: an unset key keeps the stored value, a set
      key holds the sent value, null included. */
  ghost predicate Patched<T>(s: Slot<T>, p: Schemas.Patch<T>, r: Slot<T>)
  {
    && (p.Unset? ==> r == s)
    && (p.SetTo? ==> !r.Absent? && r.Get() == p.value)
  }

  /** One key of `{**current}` after `.update(...)` with the keys the body set. */
  function Apply<T>(s: Slot<T>, p: Schemas.Patch<T>): (r: Slot<T>)
    ensures Patched(s, p, r)
  {
    match p
    case Unset => s
    case SetTo(v) => Models.OptionSlot(v)
  }

  /** r is the genres slot s after `.update(...)` with patch p: sent genres are stored as a list
      of strings, a sent null as null. */
  predicate GenresPatched(s: Slot<seq<Option<string>>>, p: Schemas.Patch<seq<string>>,
                          r: Slot<seq<Option<string>>>)
  {
    && (p.Unset? ==> r == s)
    && (p.SetTo? && p.value.None? ==> r == Null)
    && (p.SetTo? && p.value.Some? ==>
          && r.Has? && |r.value| == |p.value.value|
          && (forall i :: 0 <= i < |r.value| ==> r.value[i] == Some(p.value.value[i])))
  }

  /** The genres key of the merge. */
  function ApplyGenres(s: Slot<seq<Option<string>>>, p: Schemas.Patch<seq<string>>): (r: Slot<seq<Option<string>>>)
    ensures GenresPatched(s, p, r)
  {
    match p
    case Unset => s
    case SetTo(None) => Null
    case SetTo(Some(gs)) => Has(seq(|gs|, i requires 0 <= i < |gs| => Some(gs[i])))
  }

  /** The merge of update_book: the body's set keys over the stored record, key by key. The id
      and both timestamps are not fields of the body and stay as stored. */
  function Merge(current: Record, u: Schemas.BookUpdate): (r: Record)
    ensures r.id == current.id && r.createdAt == current.createdAt && r.updatedAt == current.updatedAt
    ensures Patched(current.title, u.title, r.title) && Patched(current.author, u.author, r.author)
    ensures Patched(current.isbn, u.isbn, r.isbn)
    ensures Patched(current.publishedYear, u.publishedYear, r.publishedYear)
    ensures GenresPatched(current.genres, u.genres, r.genres)
    ensures Patched(current.totalCopies, u.totalCopies, r.totalCopies)
    ensures Patched(current.availableCopies, u.availableCopies, r.availableCopies)
    ensures u == Schemas.EmptyUpdate ==> r == current
  {
    current.(title := Apply(current.title, u.title),
             author := Apply(current.author, u.author),
             isbn := Apply(current.isbn, u.isbn),
             publishedYear := Apply(current.publishedYear, u.publishedYear),
             genres := ApplyGenres(current.genres, u.genres),
             totalCopies := Apply(current.totalCopies, u.totalCopies),
             availableCopies := Apply(current.availableCopies, u.availableCopies))
  }

  /** Sending the same body twice changes nothing the first did not. */
  lemma MergeIdempotent(current: Record, u: Schemas.BookUpdate)
    ensures Merge(Merge(current, u), u) == Merge(current, u)
  {
  }

  /** `updated.get("total_copies", 1)`; None stands for a stored null. */
  function TotalOf(m: Record): Option<int>
  {
    m.totalCopies.GetOr(1)
  }

  /** `updated.get("available_copies", total)`; None stands for a null, stored or defaulted. */
  function AvailableOf(m: Record): Option<int>
  {
    if m.availableCopies.Absent? then TotalOf(m) else m.availableCopies.Get()
  }

  /** The outcome of update_book on a stored record: a null among the copy counts makes the
      comparison raise; more available than total copies is rejected; otherwise the merged record
      stamped with `now`. */
  function Revised(current: Record, u: Schemas.BookUpdate, now: string): (r: Result<Record>)
    ensures var m := Merge(current, u);
            && (r == Err(Fault) <==> m.totalCopies.Null? || m.availableCopies.Null?)
            && (r == Err(Invalid) <==>
                  TotalOf(m).Some? && AvailableOf(m).Some? && AvailableOf(m).value > TotalOf(m).value)
            && (r.Err? ==> r.error != NotFound)
            && (r.Ok? ==> r.value == m.(updatedAt := Has(now)))
    ensures r.Ok? && Models.Load(r.value).Some? ==>
              Models.Load(r.value).value.availableCopies <= Models.Load(r.value).value.totalCopies
  {
    var m := Merge(current, u);
    var total := TotalOf(m);
    var avail := AvailableOf(m);
    if total.None? || avail.None? then Err(Fault)
    else if avail.value > total.value then Err(Invalid)
    else Ok(m.(updatedAt := Has(now)))
  }

  /** The body `{"available_copies": a}`. */
  function SetAvailable(a: int): (u: Schemas.BookUpdate)
    ensures u.availableCopies == Schemas.SetTo(Some(a))
  {
    Schemas.EmptyUpdate.(availableCopies := Schemas.SetTo(Some(a)))
  }

  /** Changing only the available copies of a record with `t` copies succeeds exactly when
      a <= t, and is rejected as invalid otherwise. */
  lemma RevisedAvailability(current: Record, a: int, t: int, now: string)
    requires current.totalCopies == Has(t)
    ensures Revised(current, SetAvailable(a), now).Ok? <==> a <= t
    ensures Revised(current, SetAvailable(a), now).Ok? ==>
              Revised(current, SetAvailable(a), now).value.availableCopies == Has(a)
    ensures Revised(current, SetAvailable(a), now).Err? ==>
              Revised(current, SetAvailable(a), now).error == Invalid
  {
    var m := Merge(current, SetAvailable(a));
    assert m.totalCopies == Has(t) && m.availableCopies == Has(a);
  }

  /** The empty body only refreshes updated_at of a record whose counts are in order. */
  lemma RevisedEmpty(current: Record, now: string)
    requires current.totalCopies.Has? && current.availableCopies.Has?
    requires current.availableCopies.value <= current.totalCopies.value
    ensures Revised(current, Schemas.EmptyUpdate, now) == Ok(current.(updatedAt := Has(now)))
  {
  }

  /** No key of the body is sent as null. */
  predicate NoNulls(u: Schemas.BookUpdate)
  {
    && (u.title.SetTo? ==> u.title.value.Some?)
    && (u.author.SetTo? ==> u.author.value.Some?)
    && (u.isbn.SetTo? ==> u.isbn.value.Some?)
    && (u.publishedYear.SetTo? ==> u.publishedYear.value.Some?)
    && (u.genres.SetTo? ==> u.genres.value.Some?)
    && (u.totalCopies.SetTo? ==> u.totalCopies.value.Some?)
    && (u.availableCopies.SetTo? ==> u.availableCopies.value.Some?)
  }

  /** A successful update without nulls of a record that reads as a book yields a record that
      reads as a book again, with no more available than total copies. */
  lemma RevisedStaysBook(current: Record, u: Schemas.BookUpdate, now: string)
    requires Models.Load(current).Some? && NoNulls(u)
    requires Revised(current, u, now).Ok?
    ensures Models.Load(Revised(current, u, now).value).Some?
    ensures Models.Load(Revised(current, u, now).value).value.availableCopies
              <= Models.Load(Revised(current, u, now).value).value.totalCopies
  {
    var r := Revised(current, u, now).value;
    assert forall i :: 0 <= i < |r.genres.value| ==> r.genres.value[i].Some?;
  }

  /** A body sending `"title": null` passes validation and is stored, leaving a record that no
      longer reads as a book. */
  lemma NullTitleStored(current: Record, now: string)
    requires Models.Load(current).Some?
    requires current.availableCopies.value <= current.totalCopies.value
    ensures Schemas.ValidateUpdate(Schemas.EmptyUpdate.(title := Schemas.SetTo(None))).Ok?
    ensures Revised(current, Schemas.EmptyUpdate.(title := Schemas.SetTo(None)), now).Ok?
    ensures Revised(current, Schemas.EmptyUpdate.(title := Schemas.SetTo(None)), now).value.title == Null
    ensures Models.Load(Revised(current, Schemas.EmptyUpdate.(title := Schemas.SetTo(None)), now).value).None?
  {
  }

  // ---------------------------------------------------------------------------------------------
  // list_books

  /** res is what `query` returns on `books` for p, for some enumeration of the candidate set. */
  ghost predicate Answers(books: map<string, Record>, p: Index.Params, res: Result<(seq<Record>, int)>)
  {
    exists idx: Index.Indexer, listing: seq<string> ::
      && Index.Indexes(idx, books)
      && Index.IsListing(listing, Index.Candidates(idx, books, p))
      && res == Index.Query(idx, books, p, listing)
  }

  // ---------------------------------------------------------------------------------------------
  // the service

  class BooksService {
    const store: Store.JsonStore

    constructor (store: Store.JsonStore)
      ensures this.store == store
    {
      this.store := store;
    }

    ghost predicate Valid()
      reads this, store, store.disk
    {
      store.Valid()
    }

    /** The books the store currently serves. */
    ghost function Books(): map<string, Record>
      reads this, store, store.disk
      requires store.disk.doc.Some?
    {
      store.Current().Books()
    }

    /** list_books: the query over all stored books, through an index built from them. The total
        counts every selected book; the call fails only when a search text is given and a candidate
        has a null title or author; the page is in the requested order. */
    method ListBooks(p: Index.Params) returns (res: Result<(seq<Record>, int)>)
      requires Valid()
      modifies store
      ensures Valid() && Books() == old(Books()) && (old(store.Coherent()) ==> store.Coherent())
      ensures Answers(old(Books()), p, res)
      ensures res.Ok? ==> res.value.1 == |Index.Selected(old(Books()), p)|
      ensures res.Err? <==> Given(p.q) && exists id :: (id in old(Books())
                              && Index.IndexFilters(old(Books())[id], p)
                              && Index.SearchText(old(Books())[id]).None?)
      ensures res.Err? ==> res.error == Fault
      ensures res.Ok? ==> forall i, j :: 0 <= i < j < |res.value.0| ==>
                            Index.InOrder(res.value.0[i], res.value.0[j], p)
    {
      var _, books := store.ListBooks();
      var idx := Index.Build(books);
      var listing := Index.Enumerate(Index.Candidates(idx, books, p));
      res := Index.Query(idx, books, p, listing);
      Index.QueryTotal(idx, books, p, listing);
      Index.QueryFault(idx, books, p, listing);
      Index.QueryOrdered(idx, books, p, listing);
    }

    /** upsert_book through the service's store, seen as a change of the served books. */
    method Save(id: string, rec: Record, env: Store.Env)
      requires Valid()
      modifies store, store.disk
      ensures Valid() && store.Coherent() && Books() == old(Books())[id := rec]
    {
      store.UpsertBook(id, rec, env);
    }

    /** create_book: the new record is stored under the fresh id `id` and returned; a book the
        validators reject is not stored. */
    method CreateBook(p: Schemas.BookCreate, id: string, now: string, currentYear: int, env: Store.Env)
      returns (res: Result<Record>)
      requires Valid()
      modifies store, store.disk
      ensures Valid()
      ensures res == NewRecord(p, id, now, currentYear)
      ensures res.Ok? ==> store.Coherent() && Books() == old(Books())[id := res.value]
      ensures res.Err? ==> unchanged(store) && unchanged(store.disk)
    {
      res := NewRecord(p, id, now, currentYear);
      if res.Ok? {
        Save(id, res.value, env);
      }
    }

    /** create_book as written: model_dump() leaves the id a UUID and the timestamps datetimes,
        which json.dump cannot encode, so upsert_book raises once the record is already in the
        cached document. The call fails, nothing reaches the data file, and the store goes on
        serving the record. */
    method CreateBookAsWritten(p: Schemas.BookCreate, id: string, now: string, currentYear: int)
      returns (res: Result<Record>)
      requires Valid()
      modifies store
      ensures Valid() && unchanged(store.disk) && store.writes == old(store.writes)
      ensures var made := NewRecord(p, id, now, currentYear);
              && (made.Err? ==> res == made && unchanged(store))
              && (made.Ok? ==> res == Err(Fault) && Books() == old(Books())[id := made.value])
    {
      var made := NewRecord(p, id, now, currentYear);
      if made.Err? {
        res := made;
        return;
      }
      store.UpsertBookUnencodable(id, made.value);
      res := Err(Fault);
    }

    /** get_book: the stored record, or NotFound when there is none or it is the empty object. */
    method GetBook(id: string) returns (res: Result<Record>)
      requires Valid()
      modifies store
      ensures Valid() && Books() == old(Books()) && (old(store.Coherent()) ==> store.Coherent())
      ensures res.Ok? <==> id in old(Books()) && Truthy(old(Books())[id])
      ensures res.Ok? ==> res.value == old(Books())[id]
      ensures res.Err? ==> res.error == NotFound
    {
      var b := store.GetBook(id);
      if b.None? || !Truthy(b.value) {
        res := Err(NotFound);
      } else {
        res := Ok(b.value);
      }
    }

    /** update_book: NotFound as for get_book; otherwise the revised record is stored and returned,
        and a rejected update writes nothing. */
    method UpdateBook(id: string, u: Schemas.BookUpdate, now: string, env: Store.Env)
      returns (res: Result<Record>)
      requires Valid()
      modifies store, store.disk
      ensures Valid()
      ensures var before := old(Books());
              res == if id !in before || !Truthy(before[id]) then Err(NotFound)
                     else Revised(before[id], u, now)
      ensures res.Ok? ==> store.Coherent() && Books() == old(Books())[id := res.value]
      ensures res.Err? ==> && unchanged(store.disk) && store.writes == old(store.writes)
                           && Books() == old(Books()) && (old(store.Coherent()) ==> store.Coherent())
    {
      var current := store.GetBook(id);
      if current.None? || !Truthy(current.value) {
        res := Err(NotFound);
        return;
      }
      res := Revised(current.value, u, now);
      if res.Ok? {
        Save(id, res.value, env);
      }
    }

    /** delete_book: the record is gone afterwards; NotFound, with nothing written, when there
        was none. */
    method DeleteBook(id: string, env: Store.Env) returns (res: Result<()>)
      requires Valid()
      modifies store, store.disk
      ensures Valid() && (old(store.Coherent()) ==> store.Coherent())
      ensures res.Ok? <==> id in old(Books())
      ensures res.Err? ==> && res.error == NotFound && unchanged(store.disk)
                           && store.writes == old(store.writes)
      ensures res.Ok? ==> store.Coherent()
      ensures Books() == old(Books()) - {id}
    {
      var existed := store.DeleteBook(id, env);
      res := if existed then Ok(()) else Err(NotFound);
    }
  }

  /** create_book as written, on a payload the validators accept and a fresh id: the request
      fails, yet get_book then returns the book, which the data file does not hold. */
  method CreateFailsYetServed(svc: BooksService, p: Schemas.BookCreate, id: string, now: string,
                              currentYear: int) returns (created: Result<Record>, got: Result<Record>)
    requires svc.Valid() && svc.store.Coherent() && id !in svc.Books()
    requires NewRecord(p, id, now, currentYear).Ok?
    modifies svc.store
    ensures created == Err(Fault) && got == NewRecord(p, id, now, currentYear)
    ensures id !in svc.store.disk.doc.value.Books() && !svc.store.Coherent()
  {
    created := svc.CreateBookAsWritten(p, id, now, currentYear);
    got := svc.GetBook(id);
  }

  /** create_book with the record dumped to JSON values: the request succeeds, get_book returns
      the same book, and the data file holds it. */
  method CreateSavedAndServed(svc: BooksService, p: Schemas.BookCreate, id: string, now: string,
                              currentYear: int, env: Store.Env)
      returns (created: Result<Record>, got: Result<Record>)
    requires svc.Valid() && NewRecord(p, id, now, currentYear).Ok?
    modifies svc.store, svc.store.disk
    ensures created == NewRecord(p, id, now, currentYear) && got == created
    ensures svc.store.Coherent() && id in svc.store.disk.doc.value.Books()
  {
    created := svc.CreateBook(p, id, now, currentYear, env);
    got := svc.GetBook(id);
  }

  // ---------------------------------------------------------------------------------------------
  // The API tests, as client code over a fresh data file with backups disabled.

  /** The create-get-list-update-delete flow: "The Hobbit" with 3 copies is created, read back,
      found alone by q=hobbit, has its available copies set to 2, is deleted, and is then not
      found. */
  method CrudFlow(disk: Store.Disk, id: string, author: string, now: string, later: string,
                  currentYear: int, env: Store.Env)
      returns (created: Result<Record>, got: Result<Record>, listed: Result<(seq<Record>, int)>,
               updated: Result<Record>, deleted: Result<()>, gone: Result<Record>)
    requires disk.doc.None? && Models.HasText(author)
    modifies disk
    ensures created.Ok? && created.value.id == Has(id)
    ensures created.value.availableCopies == created.value.totalCopies == Has(3)
    ensures created.value.createdAt == created.value.updatedAt
    ensures got == created && got.value.title == Has("The Hobbit")
    ensures listed == Ok(([created.value], 1))
    ensures updated.Ok? && updated.value.availableCopies == Has(2)
    ensures updated.value.totalCopies == Has(3) && updated.value.updatedAt == Has(later)
    ensures deleted.Ok? && gone == Err(NotFound)
  {
    var store := new Store.JsonStore(disk, false, 50, 0);
    var svc := new BooksService(store);
    var payload := Schemas.BookCreate("The Hobbit", author, None, None, ["fantasy"], 3);
    assert Models.HasText(payload.title) by {
      assert !IsSpace(payload.title[0]);
    }
    StripNormal("The Hobbit");
    created := svc.CreateBook(payload, id, now, currentYear, env);
    var rec := created.value;
    assert svc.Books() == map[id := rec];

    got := svc.GetBook(id);

    listed := svc.ListBooks(Index.HobbitQuery);
    ghost var idx: Index.Indexer, listing: seq<string> :|
      && Index.Indexes(idx, map[id := rec])
      && Index.IsListing(listing, Index.Candidates(idx, map[id := rec], Index.HobbitQuery))
      && listed == Index.Query(idx, map[id := rec], Index.HobbitQuery, listing);
    Index.HobbitFound(idx, id, rec, listing);

    RevisedAvailability(rec, 2, 3, later);
    updated := svc.UpdateBook(id, SetAvailable(2), later, env);

    deleted := svc.DeleteBook(id, env);
    gone := svc.GetBook(id);
  }

  /** The update-validation flow: on a book with one copy, setting five available is rejected
      as invalid and the stored record stays as created. */
  method UpdateValidationFlow(disk: Store.Disk, id: string, now: string, later: string,
                              currentYear: int, env: Store.Env)
      returns (created: Result<Record>, updated: Result<Record>, stored: Result<Record>)
    requires disk.doc.None?
    modifies disk
    ensures created.Ok? && updated == Err(Invalid) && stored == created
  {
    var store := new Store.JsonStore(disk, false, 50, 0);
    var svc := new BooksService(store);
    var payload := Schemas.BookCreate("A", "B", None, None, [], 1);
    assert Models.HasText(payload.title) && Models.HasText(payload.author) by {
      assert !IsSpace(payload.title[0]) && !IsSpace(payload.author[0]);
    }
    created := svc.CreateBook(payload, id, now, currentYear, env);
    var rec := created.value;
    RevisedAvailability(rec, 5, 1, later);
    updated := svc.UpdateBook(id, SetAvailable(5), later, env);
    stored := svc.GetBook(id);
  }
}
