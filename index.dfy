/** The in-memory query engine `Indexer` (app/services/index.py): three inverted indices built in
    one pass over the records, and `query`, which narrows the candidates through them, filters,
    sorts stably and cuts out one page. */
module Index {
  import opened Records
  import opened Text
  import opened Lists
  import opened StableSort

  /** The three indices: normalised author, normalised genre tag and year to lists of ids. */
  datatype Indexer = Indexer(
    byAuthor: map<string, seq<string>>,
    byGenre: map<string, seq<string>>,
    byYear: map<int, seq<string>>)

  /** (b.get("author") or "").strip().lower() */
  function AuthorKey(r: Record): string
  {
    Normalize(r.author.Get().GetOr(""))
  }

  /** b.get("genres", []) or [] */
  function Tags(r: Record): seq<Option<string>>
  {
    r.genres.Get().GetOr([])
  }

  /** (g or "").strip().lower() */
  function TagKey(g: Option<string>): string
  {
    Normalize(g.GetOr(""))
  }

  /** The normalised keys of the record's tags, in order. */
  function TagKeys(r: Record): (keys: seq<string>)
    ensures |keys| == |Tags(r)|
    ensures forall i :: 0 <= i < |keys| ==> keys[i] == TagKey(Tags(r)[i])
  {
    Map(Tags(r), TagKey)
  }

  /** The year the record is indexed under: its published_year when that is an int. */
  function YearKey(r: Record): Option<int>
  {
    r.publishedYear.Get()
  }

  /** m.get(k, []) */
  function Bucket<K>(m: map<K, seq<string>>, k: K): seq<string>
  {
    if k in m then m[k] else []
  }

  /** m.setdefault(k, []).append(id) */
  function AddTo<K>(m: map<K, seq<string>>, k: K, id: string): (r: map<K, seq<string>>)
    ensures r.Keys == m.Keys + {k}
    ensures NoEmptyBuckets(m) ==> NoEmptyBuckets(r)
  {
    m[k := Bucket(m, k) + [id]]
  }

  /** How often id is listed under k. */
  function Hits<K>(m: map<K, seq<string>>, k: K, id: string): nat
  {
    multiset(Bucket(m, k))[id]
  }

  /** Appending id under key adds exactly one hit, for that key and that id. */
  lemma AddToHits<K>(m: map<K, seq<string>>, key: K, bid: string)
    ensures forall k, id :: Hits(AddTo(m, key, bid), k, id) ==
                            Hits(m, k, id) + (if k == key && id == bid then 1 else 0)
  {
    forall k, id
      ensures Hits(AddTo(m, key, bid), k, id) == Hits(m, k, id) + (if k == key && id == bid then 1 else 0)
    {
      if k == key {
        assert multiset(Bucket(m, k) + [bid]) == multiset(Bucket(m, k)) + multiset{bid};
      }
    }
  }

  /** No key maps to an empty list. */
  predicate NoEmptyBuckets<K>(m: map<K, seq<string>>)
  {
    forall k :: k in m ==> m[k] != []
  }

  /** idx indexes the records of `done`: every such id is listed under exactly the keys its record
      has, as often as the record has them (a tag repeated in one record lists the id repeatedly),
      empty author and tag keys are skipped, only int years are indexed, no other id is listed
      and no key is present without an id. */
  ghost predicate IndexesSome(idx: Indexer, books: map<string, Record>, done: set<string>)
  {
    && (forall k, id :: Hits(idx.byAuthor, k, id) ==
          if id in books && id in done && k != "" && AuthorKey(books[id]) == k then 1 else 0)
    && (forall k, id :: Hits(idx.byGenre, k, id) ==
          if id in books && id in done && k != "" then multiset(TagKeys(books[id]))[k] else 0)
    && (forall y, id :: Hits(idx.byYear, y, id) ==
          if id in books && id in done && YearKey(books[id]) == Some(y) then 1 else 0)
    && NoEmptyBuckets(idx.byAuthor) && NoEmptyBuckets(idx.byGenre) && NoEmptyBuckets(idx.byYear)
  }

  /** idx indexes every record of books. */
  ghost predicate Indexes(idx: Indexer, books: map<string, Record>)
  {
    IndexesSome(idx, books, books.Keys)
  }

  /** next is m with bid listed once more under the author key of r, when that key is not empty. */
  ghost predicate AuthorAdded(m: map<string, seq<string>>, next: map<string, seq<string>>,
                              bid: string, r: Record)
  {
    && (forall k, id :: Hits(next, k, id) == Hits(m, k, id) +
          if id == bid && k != "" && AuthorKey(r) == k then 1 else 0)
    && (NoEmptyBuckets(m) ==> NoEmptyBuckets(next))
  }

  /** next is m with bid listed once more under each non-empty tag key of r, per occurrence. */
  ghost predicate GenresAdded(m: map<string, seq<string>>, next: map<string, seq<string>>,
                              bid: string, r: Record)
  {
    && TagsAdded(m, next, bid, TagKeys(r))
    && (NoEmptyBuckets(m) ==> NoEmptyBuckets(next))
  }

  /** next is m with bid listed once more under the year of r, when it has one. */
  ghost predicate YearAdded(m: map<int, seq<string>>, next: map<int, seq<string>>,
                            bid: string, r: Record)
  {
    && (forall y, id :: Hits(next, y, id) == Hits(m, y, id) +
          if id == bid && YearKey(r) == Some(y) then 1 else 0)
    && (NoEmptyBuckets(m) ==> NoEmptyBuckets(next))
  }

  /** The author step of the loop of Indexer.build. */
  function AddAuthor(m: map<string, seq<string>>, bid: string, b: Record): (next: map<string, seq<string>>)
    ensures AuthorAdded(m, next, bid, b)
  {
    var author := AuthorKey(b);
    if author != "" then AddToHits(m, author, bid); AddTo(m, author, bid) else m
  }

  /** The year step of the loop of Indexer.build. */
  function AddYear(m: map<int, seq<string>>, bid: string, b: Record): (next: map<int, seq<string>>)
    ensures YearAdded(m, next, bid, b)
  {
    var year := YearKey(b);
    if year.Some? then AddToHits(m, year.value, bid); AddTo(m, year.value, bid) else m
  }

  /** next is m with bid listed once more under each non-empty key of tags, per occurrence. */
  ghost predicate TagsAdded(m: map<string, seq<string>>, next: map<string, seq<string>>,
                            bid: string, keys: seq<string>)
  {
    forall k, id :: Hits(next, k, id) == Hits(m, k, id) +
      if id == bid && k != "" then multiset(keys)[k] else 0
  }

  /** One step of the inner loop of Indexer.build: list id under key unless the key is empty. */
  function AddTag(m: map<string, seq<string>>, key: string, id: string): map<string, seq<string>>
  {
    if key != "" then AddTo(m, key, id) else m
  }

  /** Indexing one more key adds one hit under it, unless it is empty, and creates no empty
      list. */
  lemma KeysAddedStep(m: map<string, seq<string>>, next: map<string, seq<string>>, bid: string,
                      keys: seq<string>, j: nat)
    requires j < |keys| && TagsAdded(m, next, bid, keys[..j])
    ensures TagsAdded(m, AddTag(next, keys[j], bid), bid, keys[..j + 1])
    ensures NoEmptyBuckets(next) ==> NoEmptyBuckets(AddTag(next, keys[j], bid))
  {
    TakeOneMore(keys, j);
    if keys[j] != "" {
      AddToHits(next, keys[j], bid);
    }
  }

  /** Indexing the j-th tag of b. */
  lemma TagsAddedStep(m: map<string, seq<string>>, next: map<string, seq<string>>, bid: string,
                      b: Record, j: nat)
    requires j < |Tags(b)| && TagsAdded(m, next, bid, TagKeys(b)[..j])
    ensures TagsAdded(m, AddTag(next, TagKey(Tags(b)[j]), bid), bid, TagKeys(b)[..j + 1])
    ensures NoEmptyBuckets(next) ==> NoEmptyBuckets(AddTag(next, TagKey(Tags(b)[j]), bid))
  {
    var keys := TagKeys(b);
    assert keys[j] == TagKey(Tags(b)[j]);
    KeysAddedStep(m, next, bid, keys, j);
  }

  /** The tags of b, all indexed, are what GenresAdded asks for. */
  lemma TagsAddedAll(m: map<string, seq<string>>, next: map<string, seq<string>>, bid: string, b: Record)
    requires TagsAdded(m, next, bid, TagKeys(b)[..|Tags(b)|])
    requires NoEmptyBuckets(m) ==> NoEmptyBuckets(next)
    ensures GenresAdded(m, next, bid, b)
  {
    assert TagKeys(b)[..|Tags(b)|] == TagKeys(b);
  }

  /** The genre step of the loop of Indexer.build: the inner loop over the record's tags. */
  method AddGenres(m: map<string, seq<string>>, bid: string, b: Record) returns (next: map<string, seq<string>>)
    ensures GenresAdded(m, next, bid, b)
  {
    next := m;
    var tags := Tags(b);
    assert TagKeys(b)[..0] == [];
    for j := 0 to |tags|
      invariant TagsAdded(m, next, bid, TagKeys(b)[..j])
      invariant NoEmptyBuckets(m) ==> NoEmptyBuckets(next)
    {
      TagsAddedStep(m, next, bid, b, j);
      next := AddTag(next, TagKey(tags[j]), bid);
    }
    TagsAddedAll(m, next, bid, b);
  }

  /** Adding one more record of books to the author index extends what it covers by its id. */
  lemma AuthorAddedCovers(m: map<string, seq<string>>, next: map<string, seq<string>>,
                          books: map<string, Record>, done: set<string>, bid: string)
    requires forall k, id :: Hits(m, k, id) ==
               if id in books && id in done && k != "" && AuthorKey(books[id]) == k then 1 else 0
    requires bid in books && bid !in done
    requires AuthorAdded(m, next, bid, books[bid])
    ensures forall k, id :: Hits(next, k, id) ==
              if id in books && id in done + {bid} && k != "" && AuthorKey(books[id]) == k then 1 else 0
  {
    forall k, id
      ensures Hits(next, k, id) ==
              if id in books && id in done + {bid} && k != "" && AuthorKey(books[id]) == k then 1 else 0
    {
      assert Hits(next, k, id) == Hits(m, k, id) + if id == bid && k != "" && AuthorKey(books[bid]) == k then 1 else 0;
    }
  }

  /** Adding one more record of books to the genre index extends what it covers by its id. */
  lemma GenresAddedCovers(m: map<string, seq<string>>, next: map<string, seq<string>>,
                          books: map<string, Record>, done: set<string>, bid: string)
    requires forall k, id :: Hits(m, k, id) ==
               if id in books && id in done && k != "" then multiset(TagKeys(books[id]))[k] else 0
    requires bid in books && bid !in done
    requires GenresAdded(m, next, bid, books[bid])
    ensures forall k, id :: Hits(next, k, id) ==
              if id in books && id in done + {bid} && k != "" then multiset(TagKeys(books[id]))[k] else 0
  {
    forall k, id
      ensures Hits(next, k, id) ==
              if id in books && id in done + {bid} && k != "" then multiset(TagKeys(books[id]))[k] else 0
    {
      assert Hits(next, k, id) == Hits(m, k, id) + if id == bid && k != "" then multiset(TagKeys(books[bid]))[k] else 0;
    }
  }

  /** Adding one more record of books to the year index extends what it covers by its id. */
  lemma YearAddedCovers(m: map<int, seq<string>>, next: map<int, seq<string>>,
                        books: map<string, Record>, done: set<string>, bid: string)
    requires forall y, id :: Hits(m, y, id) ==
               if id in books && id in done && YearKey(books[id]) == Some(y) then 1 else 0
    requires bid in books && bid !in done
    requires YearAdded(m, next, bid, books[bid])
    ensures forall y, id :: Hits(next, y, id) ==
              if id in books && id in done + {bid} && YearKey(books[id]) == Some(y) then 1 else 0
  {
    forall y, id
      ensures Hits(next, y, id) ==
              if id in books && id in done + {bid} && YearKey(books[id]) == Some(y) then 1 else 0
    {
      assert Hits(next, y, id) == Hits(m, y, id) + if id == bid && YearKey(books[bid]) == Some(y) then 1 else 0;
    }
  }

  /** Adding one more record of books to all three indices extends what they cover by its id. */
  lemma AddedCovers(idx: Indexer, next: Indexer, books: map<string, Record>, done: set<string>,
                    bid: string)
    requires IndexesSome(idx, books, done)
    requires bid in books && bid !in done
    requires AuthorAdded(idx.byAuthor, next.byAuthor, bid, books[bid])
    requires GenresAdded(idx.byGenre, next.byGenre, bid, books[bid])
    requires YearAdded(idx.byYear, next.byYear, bid, books[bid])
    ensures IndexesSome(next, books, done + {bid})
  {
    AuthorAddedCovers(idx.byAuthor, next.byAuthor, books, done, bid);
    GenresAddedCovers(idx.byGenre, next.byGenre, books, done, bid);
    YearAddedCovers(idx.byYear, next.byYear, books, done, bid);
  }

  /** Indexer.build: one pass over the records, each adding its id under its author, each of its
      tags and its year. The order in which the map is walked is not modelled, so neither is the
      order of ids inside a bucket. */
  method Build(books: map<string, Record>) returns (idx: Indexer)
    ensures Indexes(idx, books)
  {
    idx := Indexer(map[], map[], map[]);
    var todo := books.Keys;
    ghost var done: set<string> := {};
    while todo != {}
      invariant done + todo == books.Keys && done !! todo
      invariant IndexesSome(idx, books, done)
      decreases todo
    {
      var bid :| bid in todo;
      var b := books[bid];
      var byAuthor := AddAuthor(idx.byAuthor, bid, b);
      var byGenre := AddGenres(idx.byGenre, bid, b);
      var byYear := AddYear(idx.byYear, bid, b);
      var next := Indexer(byAuthor, byGenre, byYear);
      AddedCovers(idx, next, books, done, bid);
      idx, todo, done := next, todo - {bid}, done + {bid};
    }
  }

  /** The arguments of `query`; q, author and genre are optional strings, year an optional int,
      available an optional bool. */
  datatype Params = Params(
    q: Option<string>,
    author: Option<string>,
    genre: Option<string>,
    year: Option<int>,
    available: Option<bool>,
    sort: string,
    order: string,
    limit: int,
    offset: int)

  /** The defaults of `query`. */
  const DefaultParams: Params := Params(None, None, None, None, None, "created_at", "asc", 20, 0)

  /** set(ids) */
  function AsSet(ids: seq<string>): set<string>
  {
    set id | id in ids
  }

  /** The candidate ids: all ids, narrowed by the author, genre and year indices in turn. */
  function Candidates(idx: Indexer, books: map<string, Record>, p: Params): (r: set<string>)
    ensures !Given(p.author) && !Given(p.genre) && p.year.None? ==> r == books.Keys
    ensures !Given(p.author) ==> r <= books.Keys
    ensures Given(p.author) ==> r <= AsSet(Bucket(idx.byAuthor, Normalize(p.author.value)))
    ensures Given(p.genre) ==> r <= AsSet(Bucket(idx.byGenre, Normalize(p.genre.value)))
    ensures p.year.Some? ==> r <= AsSet(Bucket(idx.byYear, p.year.value))
  {
    var byAuthor := if Given(p.author) then AsSet(Bucket(idx.byAuthor, Normalize(p.author.value)))
                    else books.Keys;
    var byGenre := if Given(p.genre) then byAuthor * AsSet(Bucket(idx.byGenre, Normalize(p.genre.value)))
                   else byAuthor;
    if p.year.Some? then byGenre * AsSet(Bucket(idx.byYear, p.year.value)) else byGenre
  }

  /** What the three index filters mean for one record: its author normalises to the author
      argument, one of its tags normalises to the genre argument, its year is the year argument.
      An argument that normalises to the empty string matches nothing. */
  predicate IndexFilters(r: Record, p: Params)
  {
    && (Given(p.author) ==> Normalize(p.author.value) != "" && AuthorKey(r) == Normalize(p.author.value))
    && (Given(p.genre) ==> Normalize(p.genre.value) != "" && Normalize(p.genre.value) in TagKeys(r))
    && (p.year.Some? ==> YearKey(r) == p.year)
  }

  /** An id is in a bucket exactly when it has a hit there. */
  lemma InBucket<K>(m: map<K, seq<string>>, k: K, id: string)
    ensures id in AsSet(Bucket(m, k)) <==> Hits(m, k, id) > 0
  {
  }

  /** Narrowing through the indices selects exactly the records the filters describe. */
  lemma CandidatesExact(idx: Indexer, books: map<string, Record>, p: Params, id: string)
    requires Indexes(idx, books)
    ensures id in Candidates(idx, books, p) <==> id in books && IndexFilters(books[id], p)
  {
    if Given(p.author) {
      InAuthorBucket(idx, books, Normalize(p.author.value), id);
    }
    if Given(p.genre) {
      InGenreBucket(idx, books, Normalize(p.genre.value), id);
    }
    if p.year.Some? {
      InYearBucket(idx, books, p.year.value, id);
    }
  }

  /** Author bucket k of exact indices holds the stored ids whose non-empty author key is k. */
  lemma InAuthorBucket(idx: Indexer, books: map<string, Record>, k: string, id: string)
    requires Indexes(idx, books)
    ensures id in AsSet(Bucket(idx.byAuthor, k)) <==> id in books && k != "" && AuthorKey(books[id]) == k
  {
    InBucket(idx.byAuthor, k, id);
  }

  /** Genre bucket k of exact indices holds the stored ids with k among their non-empty tag keys. */
  lemma InGenreBucket(idx: Indexer, books: map<string, Record>, k: string, id: string)
    requires Indexes(idx, books)
    ensures id in AsSet(Bucket(idx.byGenre, k)) <==> id in books && k != "" && k in TagKeys(books[id])
  {
    InBucket(idx.byGenre, k, id);
  }

  /** Year bucket y of exact indices holds the stored ids whose year is y. */
  lemma InYearBucket(idx: Indexer, books: map<string, Record>, y: int, id: string)
    requires Indexes(idx, books)
    ensures id in AsSet(Bucket(idx.byYear, y)) <==> id in books && YearKey(books[id]) == Some(y)
  {
    InBucket(idx.byYear, y, id);
  }

  /** listing enumerates the set c, each id once, in some order: iterating a Python set. */
  predicate IsListing(listing: seq<string>, c: set<string>)
  {
    Distinct(listing) && AsSet(listing) == c
  }

  /** Iterating the candidate set: each id once, in an order the model leaves open. */
  method Enumerate(c: set<string>) returns (listing: seq<string>)
    ensures IsListing(listing, c)
  {
    listing := [];
    var rest := c;
    while rest != {}
      invariant Distinct(listing)
      invariant AsSet(listing) !! rest && AsSet(listing) + rest == c
      decreases |rest|
    {
      var x :| x in rest;
      assert x !in listing;
      listing := listing + [x];
      rest := rest - {x};
    }
  }

  /** [books[bid] for bid in listing] */
  function Materialize(books: map<string, Record>, listing: seq<string>): (items: seq<Record>)
    requires forall i :: 0 <= i < |listing| ==> listing[i] in books
    ensures |items| == |listing|
    ensures forall i :: 0 <= i < |listing| ==> items[i] == books[listing[i]]
  {
    seq(|listing|, i requires 0 <= i < |listing| => books[listing[i]])
  }

  /** title.lower() + " " + author.lower(), reading a missing key as ""; None when a key holds
      null, on which `.lower()` raises. */
  function SearchText(r: Record): Option<string>
  {
    var t := r.title.GetOr("");
    var a := r.author.GetOr("");
    if t.None? || a.None? then None else Some(Lower(t.value) + " " + Lower(a.value))
  }

  /** The text filter for the normalised query ql. */
  predicate MatchesText(r: Record, ql: string)
  {
    SearchText(r).Some? && Contains(SearchText(r).value, ql)
  }

  /** b.get("available_copies", 0) or 0 */
  function Available(r: Record): int
  {
    r.availableCopies.Get().GetOr(0)
  }

  /** The availability filter: copies left, or none left. */
  predicate MatchesAvailability(r: Record, want: bool)
  {
    if want then Available(r) > 0 else Available(r) <= 0
  }

  function TextTest(ql: string): Record -> bool
  {
    r => MatchesText(r, ql)
  }

  function AvailabilityTest(want: bool): Record -> bool
  {
    r => MatchesAvailability(r, want)
  }

  /** The q filter, applied when q is a non-empty string. */
  function SearchFilter(items: seq<Record>, p: Params): (r: seq<Record>)
    ensures |r| <= |items|
    ensures !Given(p.q) ==> r == items
    ensures Given(p.q) ==> forall i :: 0 <= i < |r| ==> MatchesText(r[i], Normalize(p.q.value))
  {
    if Given(p.q) then Filter(items, TextTest(Normalize(p.q.value))) else items
  }

  /** The available filter, applied when available is not None. */
  function AvailabilityFilter(items: seq<Record>, p: Params): (r: seq<Record>)
    ensures |r| <= |items|
    ensures p.available.None? ==> r == items
    ensures p.available.Some? ==> forall i :: 0 <= i < |r| ==> MatchesAvailability(r[i], p.available.value)
  {
    if p.available.Some? then Filter(items, AvailabilityTest(p.available.value)) else items
  }

  /** The q filter raises on the materialised list: q is given and some record has a null title
      or author. */
  predicate SearchFaults(items: seq<Record>, p: Params)
  {
    Given(p.q) && exists i :: 0 <= i < |items| && SearchText(items[i]).None?
  }

  /** The key function chosen by `sort`; an unknown name falls back to created_at. */
  function KeyOf(sort: string, r: Record): (k: SortKey)
    ensures k.Num? <==> sort == "year"
    ensures sort == "title" || sort == "author" ==> forall i :: 0 <= i < |k.s| ==> !('A' <= k.s[i] <= 'Z')
  {
    if sort == "title" then Str(Lower(r.title.Get().GetOr("")))
    else if sort == "author" then Str(Lower(r.author.Get().GetOr("")))
    else if sort == "year" then Num(r.publishedYear.Get().GetOr(0))
    else Str(r.createdAt.Get().GetOr(""))
  }

  /** Any sort name other than title, author and year keys by created_at. */
  lemma KeyOfFallback(sort: string, r: Record)
    requires sort != "title" && sort != "author" && sort != "year"
    ensures KeyOf(sort, r) == KeyOf("created_at", r) == Str(r.createdAt.Get().GetOr(""))
  {
  }

  function KeyTest(sort: string): Record -> SortKey
  {
    r => KeyOf(sort, r)
  }

  /** items.sort(key=key_fn, reverse=order == "desc") */
  function Sorted(items: seq<Record>, p: Params): (r: seq<Record>)
    ensures |r| == |items| && multiset(r) == multiset(items)
  {
    SortByPermutation(items, Map(items, KeyTest(p.sort)), p.order == "desc");
    SortBy(items, Map(items, KeyTest(p.sort)), p.order == "desc")
  }

  /** Filter, sort and page the materialised records: the page and the total before paging. */
  function Run(items: seq<Record>, p: Params): (r: (seq<Record>, int))
    ensures |r.0| <= r.1 <= |items|
  {
    var sorted := Sorted(AvailabilityFilter(SearchFilter(items, p), p), p);
    (Slice(sorted, p.offset, p.offset + p.limit), |sorted|)
  }

  /** Indexer.query over the candidates enumerated as listing: the page and the total before
      paging, Err(Fault) when `books[bid]` or the q filter raises. */
  function Query(idx: Indexer, books: map<string, Record>, p: Params, listing: seq<string>)
    : (r: Result<(seq<Record>, int)>)
    requires IsListing(listing, Candidates(idx, books, p))
    ensures r.Err? ==> r.error == Fault
    ensures r.Ok? ==> |r.value.0| <= r.value.1 <= |listing|
  {
    if exists i :: 0 <= i < |listing| && listing[i] !in books then Err(Fault)
    else
      var items := Materialize(books, listing);
      if SearchFaults(items, p) then Err(Fault) else Ok(Run(items, p))
  }

  /** The q and available filters as one test on a record. */
  predicate Passes(r: Record, p: Params)
  {
    && (Given(p.q) ==> MatchesText(r, Normalize(p.q.value)))
    && (p.available.Some? ==> MatchesAvailability(r, p.available.value))
  }

  /** Every filter of `query` holds of the record. */
  predicate Matches(r: Record, p: Params)
  {
    IndexFilters(r, p) && Passes(r, p)
  }

  /** The ids of the records `query` is to return, over all pages. */
  ghost function Selected(books: map<string, Record>, p: Params): set<string>
  {
    set id | id in books && Matches(books[id], p)
  }

  function IdTest(books: map<string, Record>, p: Params): string -> bool
  {
    id => id in books && Passes(books[id], p)
  }

  lemma SearchFilterAppend(a: seq<Record>, b: seq<Record>, p: Params)
    ensures SearchFilter(a + b, p) == SearchFilter(a, p) + SearchFilter(b, p)
  {
    if Given(p.q) {
      FilterAppend(a, b, TextTest(Normalize(p.q.value)));
    }
  }

  lemma AvailabilityFilterAppend(a: seq<Record>, b: seq<Record>, p: Params)
    ensures AvailabilityFilter(a + b, p) == AvailabilityFilter(a, p) + AvailabilityFilter(b, p)
  {
    if p.available.Some? {
      FilterAppend(a, b, AvailabilityTest(p.available.value));
    }
  }

  /** The two filters on one record keep it exactly when it passes. */
  lemma FiltersOne(r: Record, p: Params)
    ensures AvailabilityFilter(SearchFilter([r], p), p) == if Passes(r, p) then [r] else []
  {
    if Given(p.q) {
      FilterOne(r, TextTest(Normalize(p.q.value)));
    }
    if p.available.Some? {
      FilterOne(r, AvailabilityTest(p.available.value));
    }
  }

  lemma MaterializeAppend(books: map<string, Record>, a: seq<string>, b: seq<string>)
    requires forall i :: 0 <= i < |a| ==> a[i] in books
    requires forall i :: 0 <= i < |b| ==> b[i] in books
    ensures Materialize(books, a + b) == Materialize(books, a) + Materialize(books, b)
  {
  }

  lemma MaterializeCons(books: map<string, Record>, listing: seq<string>)
    requires listing != [] && forall i :: 0 <= i < |listing| ==> listing[i] in books
    ensures Materialize(books, listing) == [books[listing[0]]] + Materialize(books, listing[1..])
  {
    Around(listing, 0);
    MaterializeAppend(books, [listing[0]], listing[1..]);
  }

  /** The two filters over one more record at the front. */
  lemma FiltersCons(r: Record, items: seq<Record>, p: Params)
    ensures AvailabilityFilter(SearchFilter([r] + items, p), p) ==
            (if Passes(r, p) then [r] else []) + AvailabilityFilter(SearchFilter(items, p), p)
  {
    SearchFilterAppend([r], items, p);
    AvailabilityFilterAppend(SearchFilter([r], p), SearchFilter(items, p), p);
    FiltersOne(r, p);
  }

  /** The ids that pass, over one more id at the front. */
  lemma PassingCons(books: map<string, Record>, p: Params, listing: seq<string>)
    requires listing != [] && forall i :: 0 <= i < |listing| ==> listing[i] in books
    ensures var r := books[listing[0]];
      Materialize(books, Filter(listing, IdTest(books, p))) ==
      (if Passes(r, p) then [r] else []) + Materialize(books, Filter(listing[1..], IdTest(books, p)))
  {
    var test, r := IdTest(books, p), books[listing[0]];
    var head := if test(listing[0]) then [listing[0]] else [];
    Around(listing, 0);
    assert Filter(listing, test) == head + Filter(listing[1..], test);
    MaterializeAppend(books, head, Filter(listing[1..], test));
    assert test(listing[0]) == Passes(r, p);
    assert Materialize(books, head) == if Passes(r, p) then [r] else [];
  }

  /** Filtering the materialised records is materialising the ids that pass. */
  lemma {:induction false} FiltersMaterialize(books: map<string, Record>, p: Params, listing: seq<string>)
    requires forall i :: 0 <= i < |listing| ==> listing[i] in books
    ensures forall i :: 0 <= i < |Filter(listing, IdTest(books, p))| ==>
              Filter(listing, IdTest(books, p))[i] in books
    ensures AvailabilityFilter(SearchFilter(Materialize(books, listing), p), p) ==
            Materialize(books, Filter(listing, IdTest(books, p)))
  {
    if listing != [] {
      FiltersMaterialize(books, p, listing[1..]);
      MaterializeCons(books, listing);
      FiltersCons(books[listing[0]], Materialize(books, listing[1..]), p);
      PassingCons(books, p, listing);
    }
  }

  /** What survives the filters of `query` is the materialisation of a list of distinct ids that
      are exactly the selected ones, and the indices never produce an id without a record. */
  lemma SelectedIds(idx: Indexer, books: map<string, Record>, p: Params, listing: seq<string>)
    returns (ids: seq<string>)
    requires Indexes(idx, books)
    requires IsListing(listing, Candidates(idx, books, p))
    ensures forall i :: 0 <= i < |listing| ==> listing[i] in books
    ensures forall i :: 0 <= i < |ids| ==> ids[i] in books
    ensures AvailabilityFilter(SearchFilter(Materialize(books, listing), p), p) == Materialize(books, ids)
    ensures Distinct(ids) && AsSet(ids) == Selected(books, p)
  {
    ListingInBooks(idx, books, p, listing);
    ids := Filter(listing, IdTest(books, p));
    FiltersMaterialize(books, p, listing);
    FilterDistinct(listing, IdTest(books, p));
    FilteredSelected(idx, books, p, listing, ids);
  }

  /** Every enumerated candidate is a stored id whose record passes the index filters. */
  lemma ListingInBooks(idx: Indexer, books: map<string, Record>, p: Params, listing: seq<string>)
    requires Indexes(idx, books)
    requires IsListing(listing, Candidates(idx, books, p))
    ensures forall i :: 0 <= i < |listing| ==> listing[i] in books && IndexFilters(books[listing[i]], p)
  {
    forall i | 0 <= i < |listing|
      ensures listing[i] in books && IndexFilters(books[listing[i]], p)
    {
      assert listing[i] in AsSet(listing);
      CandidatesExact(idx, books, p, listing[i]);
    }
  }

  /** The enumerated candidates that pass the q and available filters are the selected ids. */
  lemma FilteredSelected(idx: Indexer, books: map<string, Record>, p: Params, listing: seq<string>,
                         ids: seq<string>)
    requires Indexes(idx, books)
    requires IsListing(listing, Candidates(idx, books, p))
    requires ids == Filter(listing, IdTest(books, p))
    ensures AsSet(ids) == Selected(books, p)
  {
    forall id
      ensures id in AsSet(ids) <==> id in Selected(books, p)
    {
      CandidatesExact(idx, books, p, id);
      if id in Selected(books, p) {
        assert id in AsSet(listing);
        var i :| 0 <= i < |listing| && listing[i] == id;
        assert IdTest(books, p)(listing[i]);
      }
      FilterMembers(listing, IdTest(books, p), id);
    }
  }

  /** The total `query` returns counts every record that passes all filters, whatever the page. */
  lemma QueryTotal(idx: Indexer, books: map<string, Record>, p: Params, listing: seq<string>)
    requires Indexes(idx, books)
    requires IsListing(listing, Candidates(idx, books, p))
    ensures Query(idx, books, p, listing).Ok? ==>
              Query(idx, books, p, listing).value.1 == |Selected(books, p)|
  {
    var ids := SelectedIds(idx, books, p, listing);
    DistinctCard(ids);
  }

  /** A record whose title or author is null makes the q filter raise once it is a candidate. */
  lemma NullTextFaults(idx: Indexer, books: map<string, Record>, p: Params, listing: seq<string>, id: string)
    requires Indexes(idx, books)
    requires IsListing(listing, Candidates(idx, books, p))
    requires forall i :: 0 <= i < |listing| ==> listing[i] in books
    requires Given(p.q) && id in books && IndexFilters(books[id], p) && SearchText(books[id]).None?
    ensures SearchFaults(Materialize(books, listing), p)
  {
    CandidatesExact(idx, books, p, id);
    assert id in AsSet(listing);
    var i :| 0 <= i < |listing| && listing[i] == id;
    assert SearchText(Materialize(books, listing)[i]).None?;
  }

  /** The q filter raises only on a candidate record whose title or author is null. */
  lemma FaultHasNullText(idx: Indexer, books: map<string, Record>, p: Params, listing: seq<string>)
    returns (id: string)
    requires Indexes(idx, books)
    requires IsListing(listing, Candidates(idx, books, p))
    requires forall i :: 0 <= i < |listing| ==> listing[i] in books
    requires SearchFaults(Materialize(books, listing), p)
    ensures id in books && IndexFilters(books[id], p) && SearchText(books[id]).None?
  {
    var items := Materialize(books, listing);
    var i :| 0 <= i < |items| && SearchText(items[i]).None?;
    id := listing[i];
    assert id in AsSet(listing);
    CandidatesExact(idx, books, p, id);
  }

  /** `query` fails exactly when q is given and a candidate record has a null title or author;
      the indices never lead to a missing record. */
  lemma QueryFault(idx: Indexer, books: map<string, Record>, p: Params, listing: seq<string>)
    requires Indexes(idx, books)
    requires IsListing(listing, Candidates(idx, books, p))
    ensures Query(idx, books, p, listing).Err? <==>
              Given(p.q) && exists id :: id in books && IndexFilters(books[id], p) && SearchText(books[id]).None?
    ensures Query(idx, books, p, listing).Err? ==> Query(idx, books, p, listing).error == Fault
  {
    var _ := SelectedIds(idx, books, p, listing);
    var faults := SearchFaults(Materialize(books, listing), p);
    assert Query(idx, books, p, listing) ==
           if faults then Err(Fault) else Ok(Run(Materialize(books, listing), p));
    if faults {
      var id := FaultHasNullText(idx, books, p, listing);
    }
    if id :| Given(p.q) && id in books && IndexFilters(books[id], p) && SearchText(books[id]).None? {
      NullTextFaults(idx, books, p, listing, id);
    }
  }

  /** The page is the window [offset, offset + limit) of the filtered and sorted records, and
      holds nothing that did not pass the filters. */
  lemma RunWindow(items: seq<Record>, p: Params)
    requires p.offset >= 0 && p.limit >= 0
    ensures |Run(items, p).0| == Min(p.limit, Max(0, Run(items, p).1 - p.offset))
    ensures forall r :: r in Run(items, p).0 ==> r in AvailabilityFilter(SearchFilter(items, p), p)
  {
    var kept := AvailabilityFilter(SearchFilter(items, p), p);
    var sorted := Sorted(kept, p);
    SortByPermutation(kept, Map(kept, KeyTest(p.sort)), p.order == "desc");
    SliceWindow(sorted, p.offset, p.limit);
    forall r | r in Run(items, p).0
      ensures r in kept
    {
      assert r in sorted;
      assert r in multiset(kept);
    }
  }

  /** The page is the window [offset, offset + limit) of all selected records, each page entry
      being the record of a selected id. */
  lemma QueryPage(idx: Indexer, books: map<string, Record>, p: Params, listing: seq<string>)
    requires Indexes(idx, books)
    requires IsListing(listing, Candidates(idx, books, p))
    requires p.offset >= 0 && p.limit >= 0
    ensures Query(idx, books, p, listing).Ok? ==>
              var (page, total) := Query(idx, books, p, listing).value;
              && |page| == Min(p.limit, Max(0, total - p.offset))
              && forall i :: 0 <= i < |page| ==>
                   IsSelectedRecord(books, p, page[i])
  {
    var ids := SelectedIds(idx, books, p, listing);
    if Query(idx, books, p, listing).Ok? {
      var items := Materialize(books, listing);
      QueryIsRun(idx, books, p, listing);
      RunWindow(items, p);
      PageFromIds(books, p, ids, Run(items, p).0);
    }
  }

  /** A query over stored candidates that does not raise is the run over their records. */
  lemma QueryIsRun(idx: Indexer, books: map<string, Record>, p: Params, listing: seq<string>)
    requires IsListing(listing, Candidates(idx, books, p))
    requires forall i :: 0 <= i < |listing| ==> listing[i] in books
    ensures Query(idx, books, p, listing).Ok? ==>
              Query(idx, books, p, listing).value == Run(Materialize(books, listing), p)
  {
  }

  /** r is the record of some selected id. */
  ghost predicate IsSelectedRecord(books: map<string, Record>, p: Params, r: Record)
  {
    exists id :: id in Selected(books, p) && r == books[id]
  }

  /** Records drawn from the materialisation of the selected ids are records of selected ids. */
  lemma PageFromIds(books: map<string, Record>, p: Params, ids: seq<string>, page: seq<Record>)
    requires forall i :: 0 <= i < |ids| ==> ids[i] in books
    requires AsSet(ids) == Selected(books, p)
    requires forall r :: r in page ==> r in Materialize(books, ids)
    ensures forall i :: 0 <= i < |page| ==> IsSelectedRecord(books, p, page[i])
  {
    var kept := Materialize(books, ids);
    forall i | 0 <= i < |page|
      ensures IsSelectedRecord(books, p, page[i])
    {
      assert page[i] in kept;
      var j :| 0 <= j < |kept| && kept[j] == page[i];
      assert ids[j] in AsSet(ids);
    }
  }

  /** r comes no later than s in the order `query` sorts by. */
  predicate InOrder(r: Record, s: Record, p: Params)
  {
    if p.order == "desc" then !KeyLess(KeyOf(p.sort, r), KeyOf(p.sort, s))
    else !KeyLess(KeyOf(p.sort, s), KeyOf(p.sort, r))
  }

  /** The sorted records are in order, ascending or, for order "desc", descending. */
  lemma SortedInOrder(items: seq<Record>, p: Params, a: nat, b: nat)
    requires a < b < |items|
    ensures InOrder(Sorted(items, p)[a], Sorted(items, p)[b], p)
  {
    var keys := Map(items, KeyTest(p.sort));
    SortByOrderedAndStable(items, keys, p.order == "desc", a, b);
  }

  /** All of the sorted records are in order. */
  lemma SortedAllInOrder(items: seq<Record>, p: Params)
    ensures forall a, b :: 0 <= a < b < |Sorted(items, p)| ==> InOrder(Sorted(items, p)[a], Sorted(items, p)[b], p)
  {
    forall a, b | 0 <= a < b < |Sorted(items, p)|
      ensures InOrder(Sorted(items, p)[a], Sorted(items, p)[b], p)
    {
      SortedInOrder(items, p, a, b);
    }
  }

  /** Any slice of records in order is in order. */
  lemma SliceInOrder(sorted: seq<Record>, p: Params, start: int, stop: int)
    requires forall a, b :: 0 <= a < b < |sorted| ==> InOrder(sorted[a], sorted[b], p)
    ensures forall i, j :: 0 <= i < j < |Slice(sorted, start, stop)| ==>
              InOrder(Slice(sorted, start, stop)[i], Slice(sorted, start, stop)[j], p)
  {
    var lo, hi := Clamp(start, |sorted|), Clamp(stop, |sorted|);
    var page := Slice(sorted, start, stop);
    forall i, j | 0 <= i < j < |page|
      ensures InOrder(page[i], page[j], p)
    {
      assert page[i] == sorted[lo + i] && page[j] == sorted[lo + j];
    }
  }

  /** A page cut from the sorted records is in order. */
  lemma RunOrdered(items: seq<Record>, p: Params)
    ensures forall i, j :: 0 <= i < j < |Run(items, p).0| ==> InOrder(Run(items, p).0[i], Run(items, p).0[j], p)
  {
    var sorted := Sorted(AvailabilityFilter(SearchFilter(items, p), p), p);
    SortedAllInOrder(AvailabilityFilter(SearchFilter(items, p), p), p);
    SliceInOrder(sorted, p, p.offset, p.offset + p.limit);
  }

  /** Every page `query` returns is in order. */
  lemma QueryOrdered(idx: Indexer, books: map<string, Record>, p: Params, listing: seq<string>)
    requires IsListing(listing, Candidates(idx, books, p))
    ensures Query(idx, books, p, listing).Ok? ==>
              var page := Query(idx, books, p, listing).value.0;
              forall i, j :: 0 <= i < j < |page| ==> InOrder(page[i], page[j], p)
  {
    if Query(idx, books, p, listing).Ok? {
      RunOrdered(Materialize(books, listing), p);
    }
  }

  /** A single record that passes every filter is the only one selected. */
  lemma OnlySelected(id: string, r: Record, p: Params)
    requires Matches(r, p)
    ensures Selected(map[id := r], p) == {id}
  {
  }

  /** With a single record that passes every filter, the first page is that record alone. */
  lemma OnlyRecordFound(idx: Indexer, id: string, r: Record, p: Params, listing: seq<string>)
    requires Indexes(idx, map[id := r])
    requires IsListing(listing, Candidates(idx, map[id := r], p))
    requires Matches(r, p) && p.offset == 0 && p.limit >= 1
    ensures Query(idx, map[id := r], p, listing) == Ok(([r], 1))
  {
    OnlyRecordOk(idx, id, r, p, listing);
    OnlyRecordTotal(idx, id, r, p, listing);
    OnlyRecordPage(idx, id, r, p, listing);
  }

  lemma OnlyRecordOk(idx: Indexer, id: string, r: Record, p: Params, listing: seq<string>)
    requires Indexes(idx, map[id := r])
    requires IsListing(listing, Candidates(idx, map[id := r], p))
    requires Matches(r, p)
    ensures Query(idx, map[id := r], p, listing).Ok?
  {
    QueryFault(idx, map[id := r], p, listing);
  }

  lemma OnlyRecordTotal(idx: Indexer, id: string, r: Record, p: Params, listing: seq<string>)
    requires Indexes(idx, map[id := r])
    requires IsListing(listing, Candidates(idx, map[id := r], p))
    requires Matches(r, p)
    ensures Query(idx, map[id := r], p, listing).Ok? ==> Query(idx, map[id := r], p, listing).value.1 == 1
  {
    QueryTotal(idx, map[id := r], p, listing);
    OnlySelected(id, r, p);
  }

  lemma OnlyRecordPage(idx: Indexer, id: string, r: Record, p: Params, listing: seq<string>)
    requires Indexes(idx, map[id := r])
    requires IsListing(listing, Candidates(idx, map[id := r], p))
    requires Matches(r, p) && p.offset == 0 && p.limit >= 1
    ensures Query(idx, map[id := r], p, listing).Ok? ==> Query(idx, map[id := r], p, listing).value.0 == [r]
  {
    QueryPage(idx, map[id := r], p, listing);
    OnlySelected(id, r, p);
    QueryTotal(idx, map[id := r], p, listing);
  }

  /** The query of the API test: q=hobbit, limit=10, offset 0. */
  const HobbitQuery: Params := DefaultParams.(q := Some("hobbit"), limit := 10)

  /** A record titled "The Hobbit", whatever its author, passes every filter of that query:
      "hobbit" occurs in "the hobbit " followed by the lowered author. */
  lemma HobbitMatches(r: Record)
    requires r.title == Has("The Hobbit") && r.author.Has?
    ensures Matches(r, HobbitQuery)
  {
    NormalizeNormal("hobbit");
    HobbitText(r);
  }

  lemma HobbitText(r: Record)
    requires r.title == Has("The Hobbit") && r.author.Has?
    ensures MatchesText(r, "hobbit")
  {
    var title := Lower("The Hobbit");
    assert title[4..10] == "hobbit" by {
      LowerSlice("The Hobbit", 4, 10);
      assert "The Hobbit"[4..10] == "Hobbit";
    }
    var text := title + " " + Lower(r.author.value);
    assert SearchText(r) == Some(text);
    assert text[4..10] == title[4..10];
  }

  /** The list step of the API test: the book created as "The Hobbit" is found, alone on the
      first page, when it is the only book. */
  lemma HobbitFound(idx: Indexer, id: string, r: Record, listing: seq<string>)
    requires r.title == Has("The Hobbit") && r.author.Has?
    requires Indexes(idx, map[id := r])
    requires IsListing(listing, Candidates(idx, map[id := r], HobbitQuery))
    ensures Query(idx, map[id := r], HobbitQuery, listing) == Ok(([r], 1))
  {
    HobbitMatches(r);
    OnlyRecordFound(idx, id, r, HobbitQuery, listing);
  }
}
