/**
 * pkg/storage/sql: a per-process cache of entries over one shared table. Each operation has a
 * specification function on (table, cache); the class below is proved against them and
 * SqlHistory.dfy proves what they guarantee over whole runs.
 */
module SqlStore {
  import opened Outcomes
  import opened Values

  /** One `data` record: the JSON blob and the Version column. */
  datatype Row = Row(doc: Doc, version: int)

  type Table = map<Key, Row>

  /** How the database answers a Read: with what it holds, not at all, or with a blob that does not unmarshal. */
  datatype Reply = Healthy | Unreachable | Garbled

  const VERSION := "version"

  // ---------------------------------------------------------------- specification functions

  function Loaded(num: Numerals, rows: Table, key: Key): Entries {
    if key in rows then DecodeAll(num, rows[key].doc)[VERSION := Int64(rows[key].version)]
    else map[VERSION := Int64(0)]
  }

  /** The stored map without the reserved version entry. */
  function Stored(rows: Table, key: Key): Doc {
    if key in rows then rows[key].doc - {VERSION} else map[]
  }

  function AfterRead(num: Numerals, rows: Table, ds: Cache, key: Key, reply: Reply): (Cache, Status) {
    if reply.Unreachable? || (reply.Garbled? && key in rows) then
      (if key in ds then ds else ds[key := map[]], Failed(if reply.Unreachable? then LookupFailed else Corrupt))
    else
      (ds[key := Loaded(num, rows, key)], Done)
  }

  /** The int64 under "version" in the cached scope. */
  function CachedVersion(ds: Cache, key: Key): Option<int> {
    if key in ds && VERSION in ds[key] && ds[key][VERSION].Int64? then Some(ds[key][VERSION].n) else None
  }

  datatype Written = Written(rows: Table, ds: Cache, status: Status)

  /** The Version column an update leaves: gorm's Updates skips zero fields, so no column ever moves to 0. */
  function Column(stored: int, version: int): int {
    if version == 0 then stored else version
  }

  /** The column of a row created at `seed` after n updates: it counts on, but from below zero it stops at -1. */
  function ColumnAfter(seed: int, n: nat): int {
    if seed < 0 <= seed + n then -1 else seed + n
  }

  /** The "version" in that row's blob, which is no longer the column's once that has stopped. */
  function BlobAfter(seed: int, n: nat): int {
    if seed < 0 <= seed + n then 0 else seed + n
  }

  function AfterWrite(num: Numerals, rows: Table, ds: Cache, key: Key, lookup: bool, save: bool): Written {
    match CachedVersion(ds, key)
    case None => Written(rows, ds, Failed(NotInt64))
    case Some(cached) =>
      if !lookup then Written(rows, ds, Failed(LookupFailed))
      else
        // The new version comes from the row; the cached one only seeds a missing row.
        var version := if key in rows then rows[key].version + 1 else cached;
        var entries := ds[key][VERSION := Int64(version)];
        var bumped := ds[key := entries];
        if !Encodable(entries) then Written(rows, bumped, Failed(EncodeFailed))
        else if !save then Written(rows, bumped, Failed(SaveFailed))
        else
          var column := if key in rows then Column(rows[key].version, version) else version;
          Written(rows[key := Row(EncodeAll(num, entries), column)], bumped, Done)
  }

  /** What SetEntry puts in the cache for a value. */
  function Sealed(enc: Encryptor, key: Key, name: string, value: Value, nonce: int): Result<Value, Error> {
    if key.scope == "secret" && name != VERSION then
      if !value.Str? then Err(NotString)
      else
        match enc.encrypt(value.s, key.app, nonce)
        case Err(e) => Err(Crypto(e))
        case Ok(sealed) => Ok(Str(sealed))
    else Ok(value)
  }

  function AfterSet(enc: Encryptor, ds: Cache, key: Key, name: string, value: Value, nonce: int): (Cache, Status) {
    match Sealed(enc, key, name, value, nonce)
    case Err(e) => (ds, Failed(e))
    case Ok(v) => if key in ds then (ds[key := ds[key][name := v]], Done) else (ds, Panicked)
  }

  function AfterDelete(ds: Cache, key: Key, name: string): Cache {
    if key in ds then ds[key := ds[key] - {name}] else ds
  }

  function Fetch(enc: Encryptor, ds: Cache, key: Key, name: string): Result<Value, Error> {
    if key !in ds then Err(NotLoaded)
    else if name !in ds[key] then Ok(Nil)
    else if key.scope != "secret" || name == VERSION then Ok(ds[key][name])
    else if !ds[key][name].Str? then Err(NotString)
    else
      match enc.decrypt(ds[key][name].s, key.app)
      case Err(e) => Err(Crypto(e))
      case Ok(text) => Ok(Str(text))
  }

  function Current(ds: Cache, key: Key): Result<int, Error> {
    if key !in ds then Err(NotLoaded)
    else
      match CachedVersion(ds, key)
      case None => Err(NotInt64)
      case Some(v) => Ok(v)
  }

  function Latest(rows: Table, ds: Cache, key: Key, lookup: bool): Result<int, Error> {
    if !lookup then Err(LookupFailed)
    else if key in rows then Ok(rows[key].version)
    else Ok(CachedVersion(ds, key).GetOr(0))
  }

  // ---------------------------------------------------------------- the service

  class Database {
    var rows: Table

    constructor ()
      ensures rows == map[]
    {
      rows := map[];
    }
  }

  class StorageService {
    const db: Database
    const encryptor: Encryptor
    const numerals: Numerals
    var ds: Cache

    constructor (db: Database, encryptor: Encryptor, numerals: Numerals)
      ensures this.db == db && this.encryptor == encryptor && this.numerals == numerals && ds == map[]
    {
      this.db, this.encryptor, this.numerals, ds := db, encryptor, numerals, map[];
    }

    method Read(key: Key, reply: Reply) returns (status: Status)
      modifies `ds
      ensures (ds, status) == AfterRead(numerals, db.rows, old(ds), key, reply)
    {
      if key !in ds {
        ds := ds[key := map[]];
      }
      var val: Entries := map[VERSION := Int64(0)];
      if reply.Unreachable? {
        return Failed(LookupFailed);
      } else if key in db.rows {
        if reply.Garbled? {
          return Failed(Corrupt);
        }
        val := val + DecodeAll(numerals, db.rows[key].doc);
        val := val[VERSION := Int64(db.rows[key].version)];
        assert val == Loaded(numerals, db.rows, key);
      }
      ds := ds[key := val];
      assert ds == old(ds)[key := val];
      return Done;
    }

    method Write(key: Key, lookup: bool, save: bool) returns (status: Status)
      modifies `ds, db
      ensures Written(db.rows, ds, status) == AfterWrite(numerals, old(db.rows), old(ds), key, lookup, save)
    {
      if key !in ds || VERSION !in ds[key] || !ds[key][VERSION].Int64? {
        return Failed(NotInt64);
      }
      var version := ds[key][VERSION].n;
      if !lookup {
        return Failed(LookupFailed);
      }
      if key in db.rows {
        version := db.rows[key].version + 1;
        // `val` aliases the cache, so the bump stays even when the steps below fail.
        ds := ds[key := ds[key][VERSION := Int64(version)]];
      } else {
        assert ds[key] == ds[key][VERSION := Int64(version)];
        assert ds == ds[key := ds[key]];
      }
      if !Encodable(ds[key]) {
        return Failed(EncodeFailed);
      }
      if !save {
        return Failed(SaveFailed);
      }
      var column := version;
      if key in db.rows && version == 0 {
        // `Updates` leaves out the fields that are zero.
        column := db.rows[key].version;
      }
      db.rows := db.rows[key := Row(EncodeAll(numerals, ds[key]), column)];
      return Done;
    }

    method SetEntry(key: Key, name: string, value: Value, nonce: int) returns (status: Status)
      modifies `ds
      ensures (ds, status) == AfterSet(encryptor, old(ds), key, name, value, nonce)
    {
      var stored := value;
      if key.scope == "secret" && name != VERSION {
        if !value.Str? {
          return Failed(NotString);
        }
        match encryptor.encrypt(value.s, key.app, nonce) {
          case Err(e) => return Failed(Crypto(e));
          case Ok(sealed) => stored := Str(sealed);
        }
      }
      if key !in ds {
        return Panicked;
      }
      ds := ds[key := ds[key][name := stored]];
      return Done;
    }

    /** The map is ranged over in an unspecified order, and the first failure stops the loop. */
    method SetEntries(key: Key, values: Entries, nonces: string -> int) returns (status: Status)
      modifies `ds
      ensures status.Done? <==> AllSettable(encryptor, old(ds), key, values, nonces)
      ensures status.Done? ==> ds == Merged(encryptor, old(ds), key, values, nonces)
      ensures forall other :: other != key ==> (other in ds <==> other in old(ds)) && (other in ds ==> ds[other] == old(ds)[other])
      ensures !status.Done? ==> exists done, name :: StoppedAt(encryptor, old(ds), key, values, nonces, done, name, ds, status)
    {
      var pending := values.Keys;
      ghost var done: set<string> := {};
      MergeNone(encryptor, ds, key, values, nonces);
      while pending != {}
        invariant pending + done == values.Keys && pending !! done
        invariant AllSettable(encryptor, old(ds), key, Only(values, done), nonces)
        invariant ds == Merged(encryptor, old(ds), key, Only(values, done), nonces)
      {
        var name :| name in pending;
        status := SetEntry(key, name, values[name], nonces(name));
        if !status.Done? {
          assert StoppedAt(encryptor, old(ds), key, values, nonces, done, name, ds, status);
          return;
        }
        MergeOne(encryptor, old(ds), key, values, nonces, done, name);
        pending, done := pending - {name}, done + {name};
      }
      assert Only(values, done) == values;
      status := Done;
    }

    method GetEntry(key: Key, name: string) returns (r: Result<Value, Error>)
      ensures r == Fetch(encryptor, ds, key, name)
    {
      if key !in ds {
        return Err(NotLoaded);
      }
      var raw := if name in ds[key] then ds[key][name] else Nil;
      if key.scope == "secret" && name != VERSION {
        if name !in ds[key] {
          return Ok(Nil);
        }
        if !raw.Str? {
          return Err(NotString);
        }
        match encryptor.decrypt(raw.s, key.app) {
          case Err(e) => return Err(Crypto(e));
          case Ok(text) => return Ok(Str(text));
        }
      }
      return Ok(raw);
    }

    method GetEntries(key: Key) returns (r: Result<Entries, Error>)
      ensures r.Ok? <==> Readable(encryptor, ds, key)
      ensures r.Ok? ==> r.value == FetchAll(encryptor, ds, key)
      ensures r.Err? ==> key in ds && exists name :: name in ds[key] && Fetch(encryptor, ds, key, name) == Err(r.error)
    {
      var entries := if key in ds then ds[key] else map[];
      var res: Entries := map[];
      var pending := entries.Keys;
      while pending != {}
        invariant pending <= entries.Keys && res.Keys == entries.Keys - pending
        invariant forall name :: name in res ==> Fetch(encryptor, ds, key, name) == Ok(res[name])
      {
        var name :| name in pending;
        var val := GetEntry(key, name);
        if val.Err? {
          assert name in ds[key] && Fetch(encryptor, ds, key, name).Err?;
          return Err(val.error);
        }
        res := res[name := val.value];
        pending := pending - {name};
      }
      assert res.Keys == entries.Keys;
      return Ok(res);
    }

    method DeleteEntry(key: Key, name: string)
      modifies `ds
      ensures ds == AfterDelete(old(ds), key, name)
    {
      if key in ds {
        ds := ds[key := ds[key] - {name}];
      }
    }

    method GetCurrentVersion(key: Key) returns (r: Result<int, Error>)
      ensures r == Current(ds, key)
    {
      if key !in ds {
        return Err(NotLoaded);
      }
      if VERSION !in ds[key] || !ds[key][VERSION].Int64? {
        return Err(NotInt64);
      }
      return Ok(ds[key][VERSION].n);
    }

    method GetLatestVersion(key: Key, lookup: bool) returns (r: Result<int, Error>)
      ensures r == Latest(db.rows, ds, key, lookup)
    {
      if !lookup {
        return Err(LookupFailed);
      }
      if key in db.rows {
        return Ok(db.rows[key].version);
      }
      var current := GetCurrentVersion(key);
      return Ok(if current.Ok? then current.value else 0);
    }
  }

  // ---------------------------------------------------------------- bulk operations

  function Only(entries: Entries, names: set<string>): Entries {
    map name | name in entries && name in names :: entries[name]
  }

  /** Every value of the map can be stored: what SetEntries needs to succeed. */
  ghost predicate AllSettable(enc: Encryptor, ds: Cache, key: Key, values: Entries, nonces: string -> int) {
    forall name :: name in values ==> key in ds && Sealed(enc, key, name, values[name], nonces(name)).Ok?
  }

  ghost function SealAll(enc: Encryptor, key: Key, values: Entries, nonces: string -> int): Entries
    requires forall name :: name in values ==> Sealed(enc, key, name, values[name], nonces(name)).Ok?
  {
    map name | name in values :: Sealed(enc, key, name, values[name], nonces(name)).value
  }

  /** The cached scope overridden by the sealed values. */
  ghost function Merged(enc: Encryptor, ds: Cache, key: Key, values: Entries, nonces: string -> int): Cache
    requires AllSettable(enc, ds, key, values, nonces)
  {
    if key !in ds then ds else ds[key := ds[key] + SealAll(enc, key, values, nonces)]
  }

  /** SetEntries failed on `name` with that status, having stored exactly the values named in `done`. */
  ghost predicate StoppedAt(enc: Encryptor, before: Cache, key: Key, values: Entries, nonces: string -> int,
                            done: set<string>, name: string, after: Cache, status: Status) {
    && done <= values.Keys && name in values.Keys - done
    && AllSettable(enc, before, key, Only(values, done), nonces)
    && after == Merged(enc, before, key, Only(values, done), nonces)
    && (after, status) == AfterSet(enc, after, key, name, values[name], nonces(name))
  }

  lemma MergeNone(enc: Encryptor, ds: Cache, key: Key, values: Entries, nonces: string -> int)
    ensures AllSettable(enc, ds, key, Only(values, {}), nonces)
    ensures Merged(enc, ds, key, Only(values, {}), nonces) == ds
  {
    if key in ds {
      assert Merged(enc, ds, key, Only(values, {}), nonces)[key] == ds[key];
    }
  }

  /** One more SetEntry extends the merge by one name. */
  lemma MergeOne(enc: Encryptor, ds: Cache, key: Key, values: Entries, nonces: string -> int,
                 done: set<string>, name: string)
    requires key in ds && name in values
    requires AllSettable(enc, ds, key, Only(values, done), nonces)
    requires Sealed(enc, key, name, values[name], nonces(name)).Ok?
    ensures AllSettable(enc, ds, key, Only(values, done + {name}), nonces)
    ensures (Merged(enc, ds, key, Only(values, done + {name}), nonces), Done)
         == AfterSet(enc, Merged(enc, ds, key, Only(values, done), nonces), key, name, values[name], nonces(name))
  {
    var less := SealAll(enc, key, Only(values, done), nonces);
    var more := SealAll(enc, key, Only(values, done + {name}), nonces);
    var v := Sealed(enc, key, name, values[name], nonces(name)).value;
    assert more == less[name := v];
    assert (ds[key] + less)[name := v] == ds[key] + more;
    assert ds[key := ds[key] + less][key := ds[key] + more] == ds[key := ds[key] + more];
  }

  ghost predicate Readable(enc: Encryptor, ds: Cache, key: Key) {
    key in ds ==> forall name :: name in ds[key] ==> Fetch(enc, ds, key, name).Ok?
  }

  ghost function FetchAll(enc: Encryptor, ds: Cache, key: Key): Entries
    requires Readable(enc, ds, key)
  {
    if key !in ds then map[] else map name | name in ds[key] :: Fetch(enc, ds, key, name).value
  }

  // ---------------------------------------------------------------- what single calls do

  /**
   * A successful Write stores the cached scope under one number: each entry in its stored form, the
   * number itself as its literal under "version", no other row and no other cached entry touched.
   */
  lemma WriteStores(num: Numerals, rows: Table, ds: Cache, key: Key, lookup: bool, save: bool)
    requires AfterWrite(num, rows, ds, key, lookup, save).status.Done?
    ensures var w := AfterWrite(num, rows, ds, key, lookup, save);
            && key in ds && VERSION in ds[key] && ds[key][VERSION].Int64?
            && var version := if key in rows then rows[key].version + 1 else ds[key][VERSION].n;
               && w.ds == ds[key := ds[key]["version" := Int64(version)]]
               && key in w.rows && w.rows == rows[key := w.rows[key]]
               && StoresScope(num, w.ds[key], w.rows[key].doc)
               && w.rows[key].doc["version"] == JNumber(num.ofInt(version))
  {
    EncodeAllStores(num, AfterWrite(num, rows, ds, key, lookup, save).ds[key]);
  }

  /** A Read that fails keeps what was cached, and makes an empty scope where there was none. */
  lemma FailedReadKeeps(num: Numerals, rows: Table, ds: Cache, key: Key, reply: Reply)
    requires reply.Unreachable? || (reply.Garbled? && key in rows)
    ensures var (ds', status) := AfterRead(num, rows, ds, key, reply);
            && status == Failed(if reply.Garbled? then Corrupt else LookupFailed) && key in ds' && ds'[key] == (if key in ds then ds[key] else map[])
            && (forall other :: other != key ==> (other in ds' <==> other in ds) && (other in ds ==> ds'[other] == ds[other]))
  {
  }

  /** One that succeeds reads each stored entry its own way, under the column's number; a missing row is version 0 alone. */
  lemma ReadReads(num: Numerals, rows: Table, ds: Cache, key: Key, reply: Reply)
    requires reply.Healthy? || (reply.Garbled? && key !in rows)
    ensures var (ds', status) := AfterRead(num, rows, ds, key, reply);
            && status.Done? && key in ds' && ds' == ds[key := ds'[key]]
            && if key in rows then
                 && ds'[key].Keys == rows[key].doc.Keys + {"version"} && ds'[key]["version"] == Int64(rows[key].version)
                 && forall name :: name in rows[key].doc && name != "version"
                                   ==> ReadAs(num, rows[key].doc[name], ds'[key][name])
               else
                 ds'[key] == map["version" := Int64(0)]
  {
    if key in rows {
      DecodeAllReads(num, rows[key].doc);
    }
  }

  /** A scope that was never read: setting an entry panics, all else is an error; deleting does nothing. */
  lemma UnloadedScope(num: Numerals, enc: Encryptor, rows: Table, ds: Cache, key: Key, name: string, value: Value, nonce: int)
    requires key !in ds
    ensures Fetch(enc, ds, key, name) == Err(NotLoaded) && Current(ds, key) == Err(NotLoaded)
    ensures AfterDelete(ds, key, name) == ds
    ensures AfterWrite(num, rows, ds, key, true, true) == Written(rows, ds, Failed(NotInt64))
    ensures key.scope != "secret" ==> AfterSet(enc, ds, key, name, value, nonce) == (ds, Panicked)
    ensures Latest(rows, ds, key, true) == Ok(if key in rows then rows[key].version else 0)
  {
  }

  /** In an open scope, and under "version" in a secret one, any value is cached and fetched as it is. */
  lemma OpenEntries(enc: Encryptor, ds: Cache, key: Key, name: string, value: Value, nonce: int)
    requires key in ds && (key.scope != "secret" || name == "version")
    ensures AfterSet(enc, ds, key, name, value, nonce) == (ds[key := ds[key][name := value]], Done)
    ensures Fetch(enc, ds, key, name) == Ok(if name in ds[key] then ds[key][name] else Nil)
  {
  }

  /** In a secret scope a string is cached as the encryptor's output and nothing else is accepted. */
  lemma SecretEntries(enc: Encryptor, ds: Cache, key: Key, name: string, value: Value, nonce: int)
    requires key in ds && key.scope == "secret" && name != "version"
    ensures !value.Str? ==> AfterSet(enc, ds, key, name, value, nonce) == (ds, Failed(NotString))
    ensures value.Str? ==>
              match enc.encrypt(value.s, key.app, nonce)
              case Ok(sealed) => AfterSet(enc, ds, key, name, value, nonce) == (ds[key := ds[key][name := Str(sealed)]], Done)
              case Err(e) => AfterSet(enc, ds, key, name, value, nonce) == (ds, Failed(Crypto(e)))
    ensures name !in ds[key] ==> Fetch(enc, ds, key, name) == Ok(Nil)
    ensures name in ds[key] && !ds[key][name].Str? ==> Fetch(enc, ds, key, name) == Err(NotString)
  {
  }
}
