/** The persistence layer `JsonStore` (app/services/storage/json_store.py): one JSON document on
    disk, an in-memory cache of it that is reloaded when the file's modification time moves past
    the one last seen, atomic whole-file writes, and a backup copy every n-th write. */
module Store {
  import opened Records

  /** What the environment answers during one write: the modification time the replaced file
      gets, the formatted UTC timestamp naming a backup, and whether writing the backup works. */
  datatype Env = Env(mtime: int, ts: string, backupOk: bool)

  /** The data file and its backups, as other processes see them. */
  class Disk {
    /** The data file's document; None while the file does not exist. */
    var doc: Option<Doc>
    /** The data file's modification time. */
    var mtime: int
    /** The backup files, by the timestamp in their name. */
    var backups: map<string, Doc>

    constructor (doc: Option<Doc>, mtime: int)
      ensures this.doc == doc && this.mtime == mtime && backups == map[]
    {
      this.doc := doc;
      this.mtime := mtime;
      backups := map[];
    }

    /** os.replace of the data file, by this process or another one. */
    method Replace(d: Doc, t: int)
      modifies this
      ensures doc == Some(d) && mtime == t && backups == old(backups)
    {
      doc := Some(d);
      mtime := t;
    }

    /** A backup file named after ts. */
    method SaveBackup(ts: string, d: Doc)
      modifies this
      ensures backups == old(backups)[ts := d] && doc == old(doc) && mtime == old(mtime)
    {
      backups := backups[ts := d];
    }
  }

  /** A positive multiple of k is at least k. */
  lemma {:induction false} MultipleAtLeast(a: int, k: int)
    requires a >= 1 && k >= 1
    ensures a * k >= k
  {
    if a > 1 {
      MultipleAtLeast(a - 1, k);
      assert a * k == (a - 1) * k + k;
    }
  }

  /** Euclidean division is determined by quotient and remainder. */
  lemma DivUnique(n: int, k: int, q: int, r: int)
    requires k >= 1 && n == q * k + r && 0 <= r < k
    ensures n / k == q && n % k == r
  {
    var q', r' := n / k, n % k;
    assert n == q' * k + r';
    assert (q - q') * k == r' - r;
    if q > q' {
      MultipleAtLeast(q - q', k);
    } else if q < q' {
      MultipleAtLeast(q' - q, k);
    }
  }

  /** (w + 1) / k counts one more multiple of k than w / k exactly when k divides w + 1. */
  lemma DivStep(w: nat, k: int)
    requires k >= 1
    ensures (w + 1) / k == w / k + (if (w + 1) % k == 0 then 1 else 0)
  {
    var q, r := w / k, w % k;
    if r + 1 == k {
      DivUnique(w + 1, k, q + 1, 0);
    } else {
      DivUnique(w + 1, k, q, r + 1);
    }
  }

  class JsonStore {
    const disk: Disk
    const enableBackups: bool
    /** max(1, backup_every_n_writes) */
    const backupEvery: int
    /** The cached document. */
    var cache: Doc
    /** The data file's modification time when this store last loaded or wrote it. */
    var lastMtime: int
    /** Writes made by this store. */
    var writes: nat
    /** Backups this store has attempted. */
    ghost var attempts: nat

    /** The file exists, the backup period is positive, and a backup was attempted on exactly
        every backupEvery-th write while backups are enabled. */
    ghost predicate Valid()
      reads this, disk
    {
      && disk.doc.Some? && backupEvery >= 1
      && attempts == (if enableBackups then writes / backupEvery else 0)
    }

    /** The document the next read returns: the file when it changed since it was last seen,
        the cache otherwise. */
    ghost function Current(): Doc
      reads this, disk
      requires disk.doc.Some?
    {
      if disk.mtime > lastMtime then disk.doc.value else cache
    }

    /** The last-load stamp after the next read: the file's time when it is newer, the recorded
        stamp otherwise. */
    ghost function NextStamp(): int
      reads this, disk
    {
      if disk.mtime > lastMtime then disk.mtime else lastMtime
    }

    /** The store serves what the file holds. */
    ghost predicate Coherent()
      reads this, disk
    {
      disk.doc.Some? && Current() == disk.doc.value
    }

    /** Whether the writes-th write takes a backup. */
    predicate BackupDue(n: nat)
      requires backupEvery >= 1
    {
      enableBackups && n % backupEvery == 0
    }

    /** JsonStore(...): a missing data file is created holding {"version": 1, "books": {}},
        then the file is loaded. `now` is the modification time a created file gets. */
    constructor (disk: Disk, enableBackups: bool, backupEveryNWrites: int, now: int)
      modifies disk
      ensures this.disk == disk && this.enableBackups == enableBackups
      ensures backupEvery == if backupEveryNWrites < 1 then 1 else backupEveryNWrites
      ensures Valid() && Coherent() && writes == 0
      ensures disk.doc == if old(disk.doc).None? then Some(InitialDoc) else old(disk.doc)
      ensures cache == disk.doc.value && lastMtime == disk.mtime
      ensures disk.backups == old(disk.backups)
    {
      this.disk := disk;
      this.enableBackups := enableBackups;
      backupEvery := if backupEveryNWrites < 1 then 1 else backupEveryNWrites;
      cache := Doc(None, None);
      lastMtime := 0;
      writes := 0;
      attempts := 0;
      new;
      if disk.doc.None? {
        SyncWrite(InitialDoc, now);
      }
      SyncLoad();
    }

    /** _sync_load: the cache becomes the file's document. */
    method SyncLoad()
      requires disk.doc.Some?
      modifies this
      ensures cache == disk.doc.value && lastMtime == disk.mtime
      ensures writes == old(writes) && attempts == old(attempts)
    {
      cache := disk.doc.value;
      lastMtime := disk.mtime;
    }

    /** _sync_write: the file is replaced by d; the cache is left as it is. */
    method SyncWrite(d: Doc, now: int)
      modifies this, disk
      ensures disk.doc == Some(d) && disk.mtime == now && disk.backups == old(disk.backups)
      ensures lastMtime == now
      ensures cache == old(cache) && writes == old(writes) && attempts == old(attempts)
    {
      disk.Replace(d, now);
      lastMtime := now;
    }

    /** _read: reload when the file changed since it was last seen, then hand out the cache. */
    method Read() returns (d: Doc)
      requires Valid()
      modifies this
      ensures Valid() && d == old(Current()) && cache == d && Current() == d
      ensures old(Coherent()) ==> Coherent()
      ensures writes == old(writes) && lastMtime == old(NextStamp()) && disk.mtime <= lastMtime
    {
      if disk.mtime > lastMtime {
        SyncLoad();
      }
      d := cache;
    }

    /** _write: replace the file by d, count the write and, on every backupEvery-th write with
        backups enabled, try to save a copy of d; a failing backup is ignored. */
    method Write(d: Doc, env: Env)
      requires Valid()
      modifies this, disk
      ensures Valid()
      ensures disk.doc == Some(d) && disk.mtime == env.mtime && lastMtime == env.mtime
      ensures cache == old(cache) && writes == old(writes) + 1
      ensures disk.backups == if BackupDue(writes) && env.backupOk then old(disk.backups)[env.ts := d]
                              else old(disk.backups)
    {
      SyncWrite(d, env.mtime);
      DivStep(writes, backupEvery);
      writes := writes + 1;
      if BackupDue(writes) {
        attempts := attempts + 1;
        if env.backupOk {
          disk.SaveBackup(env.ts, d);
        }
      }
    }

    /** health: the cached version (1 when the key is missing) and the last seen modification
        time, without reloading. */
    method Health() returns (version: int, mtime: int)
      ensures version == cache.version.GetOr(1) && mtime == lastMtime
    {
      version := cache.version.GetOr(1);
      mtime := lastMtime;
    }

    /** get_all */
    method GetAll() returns (d: Doc)
      requires Valid()
      modifies this
      ensures Valid() && d == old(Current()) && Current() == d && writes == old(writes)
      ensures lastMtime == old(NextStamp()) && (old(Coherent()) ==> Coherent())
    {
      d := Read();
    }

    /** replace_all, as written: the file becomes d but the cache keeps the old document, and the
        recorded modification time hides the change from later reads. */
    method ReplaceAll(d: Doc, env: Env)
      requires Valid()
      modifies this, disk
      ensures Valid() && disk.doc == Some(d) && Current() == old(cache)
      ensures disk.mtime == env.mtime && lastMtime == env.mtime && writes == old(writes) + 1
      ensures disk.backups == if BackupDue(writes) && env.backupOk then old(disk.backups)[env.ts := d]
                              else old(disk.backups)
    {
      Write(d, env);
    }

    /** replace_all as evidently intended: the cache follows the file. */
    method ReplaceAllSynced(d: Doc, env: Env)
      requires Valid()
      modifies this, disk
      ensures Valid() && disk.doc == Some(d) && Coherent() && Current() == d
      ensures disk.mtime == env.mtime && lastMtime == env.mtime && writes == old(writes) + 1
      ensures disk.backups == if BackupDue(writes) && env.backupOk then old(disk.backups)[env.ts := d]
                              else old(disk.backups)
    {
      Write(d, env);
      cache := d;
    }

    /** upsert_book: the record is stored under the id, creating the books object if it is
        missing, in the cached document, which is then written out. */
    method UpsertBook(id: string, rec: Record, env: Env)
      requires Valid()
      modifies this, disk
      ensures Valid() && Coherent()
      ensures var before := old(Current());
              disk.doc == Some(before.(books := Some(before.Books()[id := rec])))
      ensures writes == old(writes) + 1
      ensures disk.mtime == env.mtime && lastMtime == env.mtime
      ensures disk.backups == if BackupDue(writes) && env.backupOk then old(disk.backups)[env.ts := disk.doc.value]
                              else old(disk.backups)
    {
      var data := Read();
      cache := data.(books := Some(data.Books()[id := rec]));
      Write(cache, env);
    }

    /** upsert_book with a record json.dump cannot encode: the record is already in the cached
        document when _sync_write raises, before os.replace, so the file, its modification time,
        the backups and the write count stay as they were while the cache keeps the record. */
    method UpsertBookUnencodable(id: string, rec: Record)
      requires Valid()
      modifies this
      ensures Valid() && unchanged(disk) && writes == old(writes)
      ensures var before := old(Current());
              Current() == before.(books := Some(before.Books()[id := rec]))
      ensures Current().Books() == old(Current()).Books()[id := rec]
    {
      var data := Read();
      cache := data.(books := Some(data.Books()[id := rec]));
    }

    /** delete_book: whether the id was stored; only then is the record removed and the document
        written out. */
    method DeleteBook(id: string, env: Env) returns (existed: bool)
      requires Valid()
      modifies this, disk
      ensures Valid() && (old(Coherent()) ==> Coherent())
      ensures existed <==> id in old(Current()).Books()
      ensures existed ==> Coherent()
      ensures existed ==> var before := old(Current());
                          && disk.doc == Some(before.(books := Some(before.Books() - {id})))
                          && writes == old(writes) + 1
                          && disk.mtime == env.mtime && lastMtime == env.mtime
                          && disk.backups == if BackupDue(writes) && env.backupOk
                                             then old(disk.backups)[env.ts := disk.doc.value]
                                             else old(disk.backups)
      ensures !existed ==> && unchanged(disk) && writes == old(writes)
                           && lastMtime == old(NextStamp()) && Current() == old(Current())
      ensures Current().Books() == old(Current()).Books() - {id}
    {
      var data := Read();
      existed := id in data.Books();
      if data.books.Some? {
        assert !existed ==> data.books.value - {id} == data.books.value;
        cache := data.(books := Some(data.books.value - {id}));
      }
      if existed {
        Write(cache, env);
      }
    }

    /** get_book */
    method GetBook(id: string) returns (r: Option<Record>)
      requires Valid()
      modifies this
      ensures Valid() && Current() == old(Current()) && (old(Coherent()) ==> Coherent())
      ensures r == if id in old(Current()).Books() then Some(old(Current()).Books()[id]) else None
      ensures writes == old(writes) && lastMtime == old(NextStamp())
    {
      var data := Read();
      r := if id in data.Books() then Some(data.Books()[id]) else None;
    }

    /** list_books: the number of records and the records. */
    method ListBooks() returns (n: nat, books: map<string, Record>)
      requires Valid()
      modifies this
      ensures Valid() && Current() == old(Current()) && (old(Coherent()) ==> Coherent())
      ensures books == old(Current()).Books() && n == |books| && writes == old(writes)
      ensures lastMtime == old(NextStamp())
    {
      var data := Read();
      books := data.Books();
      n := |books|;
    }
  }

  /** After replace_all the store keeps serving the document it had cached, not the new one. */
  method ReplaceAllIsStale(store: JsonStore, d: Doc, env: Env) returns (got: Doc)
    requires store.Valid() && d != store.cache
    modifies store, store.disk
    ensures got == old(store.cache) && got != d && store.disk.doc == Some(d)
  {
    store.ReplaceAll(d, env);
    got := store.GetAll();
  }

  /** With the cache kept in step, get_all returns what replace_all stored. */
  method ReplaceAllSyncedSeen(store: JsonStore, d: Doc, env: Env) returns (got: Doc)
    requires store.Valid()
    modifies store, store.disk
    ensures got == d && store.disk.doc == Some(d)
  {
    store.ReplaceAllSynced(d, env);
    got := store.GetAll();
  }

  /** A record stored by upsert_book is what get_book then returns. */
  method UpsertThenGet(store: JsonStore, id: string, rec: Record, env: Env) returns (got: Option<Record>)
    requires store.Valid()
    modifies store, store.disk
    ensures got == Some(rec)
  {
    store.UpsertBook(id, rec, env);
    got := store.GetBook(id);
  }

  /** After delete_book, get_book finds nothing under the id. */
  method DeleteThenGet(store: JsonStore, id: string, env: Env) returns (got: Option<Record>)
    requires store.Valid()
    modifies store, store.disk
    ensures got == None
  {
    var _ := store.DeleteBook(id, env);
    got := store.GetBook(id);
  }

  /** A change another process makes to the file is seen by the next read when it moves the
      modification time past the one last seen. */
  method ExternalChangeSeen(store: JsonStore, d: Doc, t: int) returns (got: Doc)
    requires store.Valid() && t > store.lastMtime
    modifies store, store.disk
    ensures got == d
  {
    store.disk.Replace(d, t);
    got := store.GetAll();
  }

  /** A read records the file's time, so a later write by another process one tick on is seen,
      and health reports the recorded time in between. */
  method ChangeAfterReadSeen(store: JsonStore, d: Doc) returns (stamp: int, got: Doc)
    requires store.Valid() && store.disk.mtime >= store.lastMtime
    modifies store, store.disk
    ensures stamp == old(store.disk.mtime) && got == d
  {
    var _ := store.GetAll();
    var _, m := store.Health();
    stamp := m;
    store.disk.Replace(d, store.disk.mtime + 1);
    got := store.GetAll();
  }

  /** A change within the same modification time as the last one seen goes unnoticed. */
  method ExternalChangeMissed(store: JsonStore, d: Doc) returns (got: Doc)
    requires store.Valid()
    modifies store, store.disk
    ensures got == old(store.cache)
  {
    store.disk.Replace(d, store.lastMtime);
    got := store.GetAll();
  }
}
