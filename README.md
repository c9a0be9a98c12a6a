# Book management service: a Dafny model of its core

The service keeps a library's books in one JSON document on disk. The document looks like
`{"version": 1, "books": {id: record}}`. It serves a REST API over four parts, and this project
models each of them:

- **Validators** (`app/domain/models.py`, `app/domain/schemas.py`). Titles and authors must be
  non-empty after trimming. The publication year must lie in a range. Available copies may not
  exceed total copies. The request schemas supply defaults, and `BookUpdate` keeps track of which
  keys the client actually sent.
  Modules: `Models` and `Schemas`, over the Python string operations in `Text`.
- **The query engine `Indexer`** (`app/services/index.py`).
  - `build` makes three inverted indices: by author, by genre and by year. Keys are trimmed and
    lower-cased, and empty keys are skipped.
  - `query` works in this order:
    - it narrows the candidates by intersecting index buckets;
    - it filters by the search text and by availability;
    - it sorts stably on one of four keys, with `created_at` as the fallback;
    - it returns the slice `[offset, offset + limit)` together with the count before slicing.
  - Module `Index`, built on the list helpers in `Lists` and the stable sort in `StableSort`.
- **The store `JsonStore`** (`app/services/storage/json_store.py`).
  - It keeps a cached document, a write counter, a backup period and the data file's modification
    time when the file was last seen.
  - A read reloads only when the file's time has advanced.
  - Every write replaces the whole file, counts itself and, on every n-th write, tries to save a
    backup.
  - The file system is the class `Store.Disk`: the persisted document, its modification stamp and
    the backups.
- **The service `BooksService`** (`app/services/books.py`).
  - Listing goes through a freshly built index.
  - Creation applies the defaults.
  - Get, update and delete report NotFound.
  - Update merges the sent keys over the stored record, then checks the copy counts.
  - Module `Service`.

Records read from the file are JSON objects. A key can be missing, or present holding `null`, and
the code treats the two differently: `b.get("title", "")` returns `None` for a stored null, and
`.lower()` on it raises. So every field of `Records.Record` is a `Slot`: `Absent`, `Null` or
`Has(value)`. Failures are values of `Result`:

- `NotFound` is the service's `NotFoundError`, answered with 404.
- `Invalid` is a `ValueError` or a validation error, answered with 400.
- `Fault` is any other exception the code lets escape, such as the `TypeError` of `None > 3`.

Three behaviours of the code that the model keeps as they are:

- Create sets `available_copies` to `total_copies or 1`. A create body has no available count of
  its own.
- Update checks only `available_copies <= total_copies`. It does not re-run the year or title
  validators.
- No validator rejects a negative copy count.

## Model

| member | source | states |
|---|---|---|
| Text.Strip | app/domain/models.py:23 | str.strip() returns a middle slice of its argument, starting after its leading whitespace. Everything cut off on either side is whitespace, and the result neither starts nor ends with whitespace. |
| Text.StripIdempotent | app/domain/schemas.py:39 | Stripping a value that was already stripped changes nothing. |
| Text.NormalizeIdempotent | app/services/index.py:46 | `strip().lower()` is idempotent. A key produced by build and the same key normalised again by query are equal. |
| Text.StripLowerCommute | app/services/index.py:18 | Lowering and stripping commute, so `strip().lower()` is also `lower().strip()`. |
| Text.StrLessTransitive | app/services/index.py:70-73 | Python's ordering of strings, by which the title, author and created_at keys sort, is transitive. |
| Text.StrLessTotal | app/services/index.py:70-73 | Of two different strings, one is less than the other. |
| Lists.FilterAppend | app/services/index.py:60 | A list comprehension with a condition distributes over concatenation. |
| Lists.SliceWindow | app/services/index.py:79 | With a non-negative offset and limit, `items[offset:offset + limit]` is the contiguous run starting at offset, of length min(limit, max(0, n - offset)), and empty past the end. |
| StableSort.SortByPermutation | app/services/index.py:76 | `list.sort(key=..., reverse=...)` returns a permutation of its input. |
| StableSort.SortByOrderedAndStable | app/services/index.py:68-76 | Sorted positions are in key order, descending when reversed. Items with equal keys keep their original relative order, also when reversed. |
| Models.NonEmpty | app/domain/models.py:20-26 | The title/author validator accepts exactly the values that contain a non-space character. It returns them trimmed and non-empty, and rejects the rest as Invalid. |
| Models.NonEmptyIdempotent | app/domain/models.py:20-26 | A validated title passes the validator again unchanged. The service's re-validation in Book(...) therefore keeps the schema's value. |
| Models.CheckYear | app/domain/models.py:28-35 | The year validator accepts None, or 1000 <= year <= current year + 1, and returns the value unchanged. |
| Models.CopiesLeTotal | app/domain/models.py:37-43 | available_copies is accepted iff it is at most total_copies, with total 1 when total_copies did not validate. |
| Models.NewBook | app/domain/models.py:8-43 | Building a Book succeeds iff title and author have text, the year is in range and available <= total. The book holds the trimmed title and author and the other arguments unchanged. |
| Models.DefaultBook | app/domain/models.py:8-18 | A Book given only its title and author takes the field defaults: no isbn, no year, no genres, one copy, available. It is accepted iff title and author have text. |
| Models.DumpLoad | app/services/books.py:66 | model_dump loses nothing: the dumped record reads back as the same book. |
| Schemas.ValidateCreate | app/domain/schemas.py:8-22 | A create body is accepted iff title and author are given with text, and genres and total_copies are not null. isbn and year default to None, genres to [], total_copies to 1. Title and author are trimmed. |
| Schemas.NonEmptyOptional | app/domain/schemas.py:34-42 | An update title/author that is unset or null passes unchanged. A sent string is trimmed, and rejected when nothing is left. |
| Schemas.Required | app/domain/schemas.py:8-10 | A required key is accepted iff it is present and not null, and then yields its value. |
| Schemas.Nullable | app/domain/schemas.py:11-12 | An optional key accepts a missing key and a null alike as None, and a value as itself. |
| Schemas.Defaulted | app/domain/schemas.py:13-14 | A key with a default yields the default when missing, is rejected when null, and yields a value as itself. |
| Schemas.ValidateUpdate | app/domain/schemas.py:25-42 | An update body is accepted iff its title and author pass that validator. All other keys pass as sent. |
| Schemas.EmptyUpdateValid | app/domain/schemas.py:25-32 | The empty update body is valid and sets no key. |
| Index.TagKeys | app/services/index.py:21-22 | The genre keys of a record are its genres normalised one by one, one key per genre, in order. |
| Index.AddToHits | app/services/index.py:20 | `setdefault(k, []).append(id)` adds exactly one occurrence of id to bucket k and changes no other bucket. |
| Index.AddAuthor | app/services/index.py:18-20 | The author step adds the id once under the record's normalised author, and only when that author is not empty. |
| Index.AddGenres | app/services/index.py:21-24 | The genre loop adds the id under each non-empty normalised genre, once per occurrence of that genre. |
| Index.AddYear | app/services/index.py:25-27 | The year step adds the id under the year only when the record's year is an int. |
| Index.Build | app/services/index.py:12-28 | The indices built from all books are exact. Author bucket k holds id exactly once iff k is the record's non-empty normalised author. Genre bucket k holds id as often as k occurs among its non-empty genre keys. Year bucket y holds id once iff the record's year is y. No bucket is empty. |
| Index.Enumerate | app/services/index.py:55 | Iterating the candidate set yields each candidate exactly once. |
| Index.Candidates | app/services/index.py:44-52 | With no author, genre or year argument every stored id is a candidate. Each argument given narrows the candidates to ids in its index bucket. |
| Index.CandidatesExact | app/services/index.py:44-52 | Over exact indices, an id is a candidate iff it is a stored book whose author, genre and year match the arguments that were given. |
| Index.SearchFilter | app/services/index.py:58-60 | Without a search text the list is unchanged. With one, every record kept contains the normalised text in its lower-cased title and author. The list never grows. |
| Index.AvailabilityFilter | app/services/index.py:61-65 | Without `available` the list is unchanged. With it, every record kept has copies left, or none left, as asked. The list never grows. |
| Index.KeyOf | app/services/index.py:67-75 | The sort key is a number exactly for "year"; any other name, including an unknown one, gives a string key. The title and author keys hold no upper-case letter, so those sorts ignore case. |
| Index.KeyOfFallback | app/services/index.py:74-75 | Any sort name other than title, author and year keys the records by created_at, with "" for a missing one, exactly as sort="created_at" does. |
| Index.Sorted | app/services/index.py:76 | Sorting keeps the same records, each as often as before. |
| Index.Run | app/services/index.py:58-80 | The page is no longer than the total, and the total is at most the number of materialised records. |
| Index.Query | app/services/index.py:30-80 | query fails only with Fault. A successful query returns a page no longer than its total, and a total no larger than the number of candidates. |
| Index.FiltersMaterialize | app/services/index.py:55-65 | The text and availability filters over the materialised candidates keep exactly the candidates that pass both, in listing order. |
| Index.SelectedIds | app/services/index.py:44-65 | The records left after filtering are those of a duplicate-free list of ids, which covers exactly the books matching every filter. |
| Index.QueryTotal | app/services/index.py:78 | The returned total is the number of stored books that match every filter, whatever the page. |
| Index.QueryFault | app/services/index.py:58-60 | query raises (Fault) iff a search text is given and some index-matched book has a null title or author. It fails in no other way. |
| Index.NullTextFaults | app/services/index.py:60 | A candidate with a null title or author makes the search filter raise. |
| Index.FaultHasNullText | app/services/index.py:60 | If the search filter raises, some candidate has a null title or author. |
| Index.RunWindow | app/services/index.py:78-80 | The page has length min(limit, max(0, total - offset)). Every record on it passed the filters. |
| Index.QueryPage | app/services/index.py:78-80 | A successful query returns a page of length min(limit, max(0, total - offset)), and every entry is a stored book matching every filter. |
| Index.SortedAllInOrder | app/services/index.py:67-76 | Every two records of the sorted list are in the requested key order, ascending, or descending for order "desc". |
| Index.QueryOrdered | app/services/index.py:67-80 | Every two records of a returned page are in the requested order. |
| Index.OnlyRecordFound | app/services/index.py:30-80 | When the only stored book matches every filter and the first page is asked for, query returns exactly that book with total 1. |
| Index.HobbitFound | tests/test_books_api.py:18-23 | With "The Hobbit" as the only book, the query q=hobbit, limit=10 returns it alone with total 1. |
| Store.DivStep | app/services/storage/json_store.py:66-67 | One more write adds one to writes // n exactly when the new count is a multiple of n. This lets the backup cadence be counted. |
| Store.JsonStore.constructor | app/services/storage/json_store.py:12-37 | A missing data file is created holding {"version": 1, "books": {}}, and then loaded. The backup period is max(1, n), the write counter 0, and the cache is the file's document. |
| Store.JsonStore.SyncLoad | app/services/storage/json_store.py:39-43 | The cache becomes the file's document, and the file's time is recorded. |
| Store.JsonStore.SyncWrite | app/services/storage/json_store.py:45-52 | The file is replaced by the document and its new time is recorded. The cache is left as it was. |
| Store.JsonStore.Read | app/services/storage/json_store.py:54-59 | A read returns the file's document when the file's time advanced, and the cache otherwise. Afterwards the cache is what was returned, and the last-load stamp is the file's time after a reload and unchanged otherwise. Nothing is written. |
| Store.JsonStore.Write | app/services/storage/json_store.py:61-75 | A write replaces the file, counts itself and keeps the cache. A backup of the document is saved exactly on writes whose count is a multiple of the period, when backups are enabled and the backup succeeds. Backups were attempted on exactly writes // period writes. |
| Store.JsonStore.Health | app/services/storage/json_store.py:78-83 | health reports the cached version, 1 when missing, and the last seen modification time, without reloading. |
| Store.JsonStore.GetAll | app/services/storage/json_store.py:85-86 | get_all returns the served document and leaves it served; it writes nothing, the write count stays, and the last-load stamp moves to the file's time only when the file was reloaded. |
| Store.JsonStore.ReplaceAll | app/services/storage/json_store.py:88-89 | replace_all as written: the file holds the new document, but the store goes on serving its old cache. The write is counted, stamped and backed up as any write. |
| Store.JsonStore.ReplaceAllSynced | app/services/storage/json_store.py:88-89 | replace_all with the cache following the file: the store serves the new document. The write is counted, stamped and backed up as any write. |
| Store.JsonStore.UpsertBook | app/services/storage/json_store.py:91-95 | The file becomes the served document with the record stored under the id, creating the books map if it is missing. Afterwards the store serves the file. The write is counted, stamps the file and the store with its time, and saves a backup on the writes `_write` backs up. |
| Store.JsonStore.UpsertBookUnencodable | app/services/storage/json_store.py:45-51 | When `json.dump` raises inside `upsert_book`, the cache already holds the record, while the file, its time, the backups and the write count are unchanged. |
| Store.JsonStore.DeleteBook | app/services/storage/json_store.py:97-103 | The result says whether the id was stored. Only then is the document, without the record, written, counted, stamped and backed up as any write. Otherwise the file and the write count are untouched, the served document stays, and the stamp moves only on a reload. Either way the served books lose the id, and after a write the served document is the file's. |
| Store.JsonStore.GetBook | app/services/storage/json_store.py:105-107 | get_book returns the served record under the id, or None. It writes nothing, and the stamp moves only on a reload. |
| Store.JsonStore.ListBooks | app/services/storage/json_store.py:109-112 | list_books returns the served books map and its size. It writes nothing, and the stamp moves only on a reload. |
| Store.ReplaceAllIsStale | app/services/storage/json_store.py:88-89 | After replace_all(d), the next get_all returns the old cache and not d. |
| Store.ReplaceAllSyncedSeen | app/services/storage/json_store.py:88-89 | With the corrected replace_all, the next get_all returns d. |
| Store.UpsertThenGet | app/services/storage/json_store.py:91-107 | A record upserted under an id is what get_book returns for it next. |
| Store.DeleteThenGet | app/services/storage/json_store.py:97-107 | After delete_book(id), get_book(id) returns None. |
| Store.ExternalChangeSeen | app/services/storage/json_store.py:54-59 | A document written to the file by another process with a later time is what the next read returns. |
| Store.ChangeAfterReadSeen | app/services/storage/json_store.py:38-58 | After a read of a file whose time has not gone back, health reports the file's time as the last-load stamp, and another process's write one tick later is what the next read returns. |
| Store.ExternalChangeMissed | app/services/storage/json_store.py:54-59 | A document written by another process with the time last seen is not noticed: the next read returns the cache. |
| Service.NewRecord | app/services/books.py:53-68 | The created record is accepted iff title and author have text and the year is in range. It holds the fresh id, the trimmed title and author, `total_copies or 1` total copies, all of them available, and both timestamps set to now. |
| Service.NewRecordLoads | app/services/books.py:55-66 | The created record reads back as a book with the payload's isbn, year and genres, and with all copies available (at least one when total_copies >= 0). |
| Service.CreateRejectsOnlyYear | app/services/books.py:55-65 | After BookCreate's validation, create_book can fail only on a year out of range. The stored title and author are the trimmed ones. |
| Service.Apply | app/services/books.py:81-83 | A key the body did not set keeps its stored value. A set key holds the sent value, null included. |
| Service.ApplyGenres | app/services/books.py:81-83 | Unset genres keep the stored list. Sent genres are stored as that list of strings, and a sent null as null. |
| Service.Merge | app/services/books.py:81-83 | Each of the seven body keys of the merged record is the stored value when unset and the sent value when set. The id and both timestamps are kept. The empty body leaves the record as it is. |
| Service.MergeIdempotent | app/services/books.py:81-83 | Applying the same body twice is applying it once. |
| Service.Revised | app/services/books.py:84-91 | The update fails with Fault iff the merged total or available count is null. It fails with Invalid iff available (defaulting to total, total defaulting to 1) exceeds total. Otherwise it returns the merged record stamped now. A successful result that reads as a book has available <= total. |
| Service.RevisedAvailability | app/services/books.py:84-88 | Sending only available_copies = a to a record with t copies succeeds iff a <= t, and is rejected as Invalid otherwise. |
| Service.RevisedEmpty | app/services/books.py:81-89 | The empty body only refreshes updated_at of a record whose counts are in order. |
| Service.RevisedStaysBook | app/services/books.py:81-91 | A successful update without nulls keeps a well-formed record well-formed, with available <= total. |
| Service.NullTitleStored | app/services/books.py:81-89 | A body with "title": null is valid and is stored. It leaves a record that no longer reads as a book. |
| Service.BooksService.constructor | app/services/books.py:17-18 | The service is bound to its store. |
| Service.BooksService.ListBooks | app/services/books.py:24-51 | list_books answers the query over every stored book through a freshly built index. The total counts the matching books. It fails only on a null text under a search. The page is in order. |
| Service.BooksService.Save | app/services/books.py:67 | Storing a record through the store makes the served books the old ones with the record under its id, and the file holds them. |
| Service.BooksService.CreateBook | app/services/books.py:53-68 | With the record dumped to JSON values (the corrected member of the first Findings row), create_book stores the new record under its id and returns it. A rejected book stores nothing. |
| Service.BooksService.CreateBookAsWritten | app/services/books.py:53-68 | create_book as written fails with Fault on every book the validators accept. The served books gain the record all the same, while the file and the write count stay as they were. A rejected book changes nothing. |
| Service.BooksService.GetBook | app/services/books.py:70-74 | get_book returns the stored record, or NotFound when it is missing or empty. |
| Service.BooksService.UpdateBook | app/services/books.py:76-91 | update_book gives NotFound for a missing or empty record, and otherwise the revised record, which is then stored under the id. A rejected update writes nothing: the file, its time, its backups and the write count stay as they were. |
| Service.BooksService.DeleteBook | app/services/books.py:93-96 | delete_book succeeds iff the id was stored, gives NotFound otherwise, and leaves the id absent. A NotFound writes nothing; a success leaves the file and the served books in step. |
| Service.CrudFlow | tests/test_books_api.py:4-36 | With the record dumped to JSON values (the corrected member of the first Findings row): on a fresh file, "The Hobbit" with 3 copies is created with 3 available and equal timestamps. It reads back unchanged and is listed alone by q=hobbit. Setting available copies to 2 succeeds, keeps 3 total and stamps the new time. After a delete, a get gives NotFound. |
| Service.CreateFailsYetServed | app/services/books.py:66-67 | After the as-written create of a valid book under a fresh id fails, get_book returns the book, which the data file does not hold. |
| Service.CreateSavedAndServed | app/services/books.py:53-74 | With the record dumped to JSON values, create returns the book, get_book returns the same book, and the data file holds it. |
| Service.UpdateValidationFlow | tests/test_books_service.py:6-16 | With the record dumped to JSON values (the corrected member of the first Findings row): on a book with one copy, setting five available is Invalid, and the stored record stays as created. |

## Left out

- File system details: paths, the temporary file and atomic rename, fsync, the directory creation, and the `data_file` path in `health`. The file is one abstract document with an integer modification stamp and a map of backups by timestamp.
- Locking and concurrency: the `asyncio.Lock` and the cross-process `FileLock`. Interleavings of coroutines and processes are not modelled; another process's write is a direct change of `Store.Disk`.
- Modification times are floats with the file system's resolution. The model uses integers. A change that keeps the same time is missed by the source too, and `Store.ExternalChangeMissed` shows it.
- The clock, `uuid4` and the outcome of the backup write are parameters (`now`, `currentYear`, `id`, `Store.Env`).
- JSON serialisation is not modelled beyond the failure in the Findings: a record always holds JSON values, the string forms `model_dump(mode="json")` would give. `Store.JsonStore.UpsertBookUnencodable` stands for the upsert of a record that `json.dump` rejects.
- Later writes of a cache that holds an unencodable record fail as well, since every write dumps the whole cached document. Later reads can fail too: the cached record keeps a `datetime` created_at, and the default sort by created_at then compares it with the `str` timestamps of the other records and raises TypeError. The model does not carry either on: `Service.BooksService.CreateBookAsWritten` shows the first failure, and every other write in the model succeeds.
- Failures of the file system are not modelled: a full disk, a failing `open` or `os.replace`, and a data file deleted by another process. Every store method requires `Valid()`, which says the data file exists, so the `FileNotFoundError` of `stat()` on a deleted file is out of the model.
- Aliasing is not modelled: `_read` hands out the cache object itself, and `upsert_book`/`delete_book` change it in place. The model reassigns the cache to the changed document. For a write that succeeds this has the same effect on what is served; for one that fails, `Store.JsonStore.UpsertBookUnencodable` keeps the change in the cache as the source does.
- A `null` in place of a whole record in the books map, and JSON values of types other than the model's fields, are not modelled. Examples are a string year, or a boolean, which Python's `isinstance(year, int)` accepts.
- Python dict and set iteration order is not modelled. `Index.Build` states how often each id is in each bucket, not the order of ids within a bucket. `query`'s candidate order is any enumeration of the candidate set, so the order of equal-key records on a page follows that enumeration.
- Text.Lower: lowers ASCII letters only, where Python's `str.lower()` covers all of Unicode.
- The API layer is not modelled: routers, response models (`BookOut`), exception handlers, pagination bounds (`limit` 1..100, `offset >= 0`), configuration, logging and CORS. The service and the query accept any parameters, and the slicing follows Python for negative values.
- Service.BooksService.ListBooks: states that the result is the query on the served books for some enumeration of the candidates. Which enumeration is chosen is left open, as the source leaves it to the set's iteration order.

## Findings

| source | as written | input that shows it | evidently intended | confidence | as-written member | corrected member |
|---|---|---|---|---|---|---|
| app/services/books.py:66-67 | `model_dump()` leaves the id a `UUID` and both timestamps `datetime` objects. `json.dump` in `_sync_write` raises on them after `upsert_book` has put the record into the cache and before `os.replace`. The request fails with 500, the file is unchanged, and the store goes on serving the unsaved book. | Any valid create body, for example the title "The Hobbit" with an author. | The record is dumped to JSON values (`model_dump(mode="json")`), written to the file and returned. | not executed | Service.CreateFailsYetServed | Service.CreateSavedAndServed |
| app/services/storage/json_store.py:88-89 | `replace_all` writes the new document to the file and records the file's new time, but leaves the cache holding the old document. Later reads see no newer time and keep serving the old cache. | `replace_all(d)` with `d` different from the cached document, then `get_all()`. | The cache becomes `d`, as it does after `upsert_book` and `delete_book`, which write the cache object itself. | not executed | Store.ReplaceAllIsStale | Store.ReplaceAllSyncedSeen |
