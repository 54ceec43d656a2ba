/**
 * pkg/storage/vault: the same storage interface over a versioned key-value service with soft
 * delete (Vault KV version 2). The service's own behaviour is the class KvService.
 */
module VaultStore {
  import opened Outcomes
  import opened Values

  /** One stored version of a secret; the n-th version of a key is number n, from 1. */
  datatype Version = Version(doc: Doc, deleted: bool)

  type Kv = map<Key, seq<Version>>

  /** What a delete answers: Vault sends no content; any content would replace the metadata. */
  datatype DeleteReply = NoContent | Content(version: Option<int>)

  /** A call that returns a value or an error, or fails a type assertion. */
  datatype Answer<+T> = Returns(value: T) | Errs(error: Error) | Panics

  /** `metadata` holds the version number, None for the empty map of a scope that was not found. */
  datatype State = State(kv: Kv, data: Cache, metadata: map<Key, Option<int>>)

  // ---------------------------------------------------------------- specification functions

  function VersionsOf(kv: Kv, key: Key): seq<Version> {
    if key in kv then kv[key] else []
  }

  /** A read finds the latest version, unless there is none or it is deleted. */
  predicate Live(kv: Kv, key: Key) {
    var versions := VersionsOf(kv, key);
    versions != [] && !versions[|versions| - 1].deleted
  }

  /** The document a reader sees. */
  function Stored(kv: Kv, key: Key): Doc {
    if Live(kv, key) then kv[key][|kv[key]| - 1].doc else map[]
  }

  function Put(kv: Kv, key: Key, doc: Doc): Kv {
    kv[key := VersionsOf(kv, key) + [Version(doc, false)]]
  }

  function SoftDelete(kv: Kv, key: Key): Kv {
    var versions := VersionsOf(kv, key);
    if versions == [] then kv
    else kv[key := versions[|versions| - 1 := versions[|versions| - 1].(deleted := true)]]
  }

  function AfterRead(num: Numerals, s: State, key: Key, reachable: bool): (State, Status) {
    if !reachable then (s, Failed(LookupFailed))
    else if Live(s.kv, key) then
      (s.(data := s.data[key := DecodeAll(num, Stored(s.kv, key))], metadata := s.metadata[key := Some(|s.kv[key]|)]), Done)
    else
      (s.(data := s.data[key := map[]], metadata := s.metadata[key := None]), Done)
  }

  function AfterWrite(num: Numerals, s: State, key: Key, reachable: bool): (State, Status) {
    if key !in s.data || !Encodable(s.data[key]) || !reachable then (s, Failed(SaveFailed))
    else
      var kv := Put(s.kv, key, EncodeAll(num, s.data[key]));
      (s.(kv := kv, metadata := s.metadata[key := Some(|kv[key]|)]), Done)
  }

  /** DeleteEntry deletes the latest stored version, drops the name, and writes the rest back. */
  function AfterDelete(num: Numerals, s: State, key: Key, name: string,
                       deletes: bool, reply: DeleteReply, writes: bool): (State, Status) {
    if !deletes then (s, Failed(SaveFailed))
    else
      var gone := s.(kv := SoftDelete(s.kv, key));
      if key !in s.data then (gone, Panicked)
      else
        var noted := if reply.Content? then gone.(metadata := s.metadata[key := reply.version]) else gone;
        AfterWrite(num, noted.(data := s.data[key := s.data[key] - {name}]), key, writes)
  }

  /** Unlike the SQL backend, a secret scope seals every name, "version" included. */
  function AfterSet(enc: Encryptor, s: State, key: Key, name: string, value: Value, nonce: int): (State, Status) {
    if key.scope == "secret" && !value.Str? then (s, Failed(NotString))
    else
      var stored := if key.scope == "secret" then enc.encrypt(value.s, key.app, nonce) else Ok("");
      if stored.Err? then (s, Failed(Crypto(stored.error)))
      else if key !in s.data then (s, Panicked)
      else
        var v := if key.scope == "secret" then Str(stored.value) else value;
        (s.(data := s.data[key := s.data[key][name := v]]), Done)
  }

  /** On a scope that is not loaded: an error in a secret scope, a failed type assertion elsewhere. */
  function Fetch(enc: Encryptor, s: State, key: Key, name: string): Answer<Value> {
    if key !in s.data then (if key.scope == "secret" then Errs(NotLoaded) else Panics)
    else if name !in s.data[key] then Returns(Nil)
    else if key.scope != "secret" then Returns(s.data[key][name])
    else if !s.data[key][name].Str? then Errs(NotString)
    else
      match enc.decrypt(s.data[key][name].s, key.app)
      case Err(e) => Errs(Crypto(e))
      case Ok(text) => Returns(Str(text))
  }

  /** Every name of the loaded scope can be fetched. */
  ghost predicate Readable(enc: Encryptor, s: State, key: Key) {
    key in s.data && forall name :: name in s.data[key] ==> Fetch(enc, s, key, name).Returns?
  }

  ghost function FetchAll(enc: Encryptor, s: State, key: Key): Entries
    requires Readable(enc, s, key)
  {
    map name | name in s.data[key] :: Fetch(enc, s, key, name).value
  }

  /** None is the failed type assertion on a scope that was never loaded. */
  function Current(s: State, key: Key): Option<int> {
    if key in s.metadata then Some(s.metadata[key].GetOr(-1)) else None
  }

  function Latest(kv: Kv, key: Key): int {
    if VersionsOf(kv, key) == [] then -1 else |kv[key]|
  }

  // ---------------------------------------------------------------- the service

  class KvService {
    var secrets: Kv

    constructor ()
      ensures secrets == map[]
    {
      secrets := map[];
    }

    method Write(key: Key, doc: Doc) returns (version: int)
      modifies this
      ensures secrets == Put(old(secrets), key, doc)
      ensures version == |secrets[key]|
    {
      secrets := secrets[key := VersionsOf(secrets, key) + [Version(doc, false)]];
      version := |secrets[key]|;
    }

    method Delete(key: Key)
      modifies this
      ensures secrets == SoftDelete(old(secrets), key)
    {
      if key in secrets && secrets[key] != [] {
        var last := |secrets[key]| - 1;
        secrets := secrets[key := secrets[key][last := Version(secrets[key][last].doc, true)]];
      }
    }
  }

  class Service {
    const vault: KvService
    const encryptor: Encryptor
    const numerals: Numerals
    var data: Cache
    var metadata: map<Key, Option<int>>

    constructor (vault: KvService, encryptor: Encryptor, numerals: Numerals)
      ensures this.vault == vault && this.encryptor == encryptor && this.numerals == numerals
      ensures data == map[] && metadata == map[]
    {
      this.vault, this.encryptor, this.numerals := vault, encryptor, numerals;
      data, metadata := map[], map[];
    }

    ghost function View(): State
      reads this, vault
    {
      State(vault.secrets, data, metadata)
    }

    method Read(key: Key, reachable: bool) returns (status: Status)
      modifies this
      ensures (View(), status) == AfterRead(numerals, old(View()), key, reachable)
    {
      if !reachable {
        return Failed(LookupFailed);
      }
      var versions := VersionsOf(vault.secrets, key);
      if versions == [] || versions[|versions| - 1].deleted {
        data := data[key := map[]];
        metadata := metadata[key := None];
      } else {
        data := data[key := DecodeAll(numerals, versions[|versions| - 1].doc)];
        metadata := metadata[key := Some(|versions|)];
      }
      return Done;
    }

    method SetEntry(key: Key, name: string, value: Value, nonce: int) returns (status: Status)
      modifies `data
      ensures (View(), status) == AfterSet(encryptor, old(View()), key, name, value, nonce)
    {
      var stored := value;
      if key.scope == "secret" {
        if !value.Str? {
          return Failed(NotString);
        }
        match encryptor.encrypt(value.s, key.app, nonce) {
          case Err(e) => return Failed(Crypto(e));
          case Ok(sealed) => stored := Str(sealed);
        }
      }
      if key !in data {
        return Panicked;
      }
      data := data[key := data[key][name := stored]];
      return Done;
    }

    method GetEntry(key: Key, name: string) returns (r: Answer<Value>)
      ensures r == Fetch(encryptor, View(), key, name)
    {
      if key !in data {
        return if key.scope == "secret" then Errs(NotLoaded) else Panics;
      }
      if name !in data[key] {
        return Returns(Nil);
      }
      if key.scope == "secret" {
        if !data[key][name].Str? {
          return Errs(NotString);
        }
        match encryptor.decrypt(data[key][name].s, key.app) {
          case Err(e) => return Errs(Crypto(e));
          case Ok(text) => return Returns(Str(text));
        }
      }
      return Returns(data[key][name]);
    }

    /** All names or the first failure, in whatever order the map is ranged over. */
    method GetEntries(key: Key) returns (r: Answer<Entries>)
      ensures r.Panics? <==> key !in data
      ensures r.Returns? <==> Readable(encryptor, View(), key)
      ensures r.Returns? ==> r.value == FetchAll(encryptor, View(), key)
      ensures r.Errs? ==> exists name :: name in data[key] && Fetch(encryptor, View(), key, name) == Errs(r.error)
    {
      if key !in data {
        return Panics;
      }
      var res: Entries := map[];
      var pending := data[key].Keys;
      while pending != {}
        invariant pending <= data[key].Keys && res.Keys == data[key].Keys - pending
        invariant forall name :: name in res ==> Fetch(encryptor, View(), key, name) == Returns(res[name])
      {
        var name :| name in pending;
        var val := GetEntry(key, name);
        if val.Errs? {
          assert name in data[key] && Fetch(encryptor, View(), key, name) == Errs(val.error);
          return Errs(val.error);
        }
        res := res[name := val.value];
        pending := pending - {name};
      }
      assert res.Keys == data[key].Keys;
      return Returns(res);
    }

    method Write(key: Key, reachable: bool) returns (status: Status)
      modifies this, vault
      ensures (View(), status) == AfterWrite(numerals, old(View()), key, reachable)
    {
      // A scope that is not loaded is sent as null data, which the service refuses.
      if key !in data || !Encodable(data[key]) || !reachable {
        return Failed(SaveFailed);
      }
      var version := vault.Write(key, EncodeAll(numerals, data[key]));
      metadata := metadata[key := Some(version)];
      return Done;
    }

    method DeleteEntry(key: Key, name: string, deletes: bool, reply: DeleteReply, writes: bool) returns (status: Status)
      modifies this, vault
      ensures (View(), status) == AfterDelete(numerals, old(View()), key, name, deletes, reply, writes)
    {
      if !deletes {
        return Failed(SaveFailed);
      }
      vault.Delete(key);
      if key !in data {
        return Panicked;
      }
      if reply.Content? {
        metadata := metadata[key := reply.version];
      }
      data := data[key := data[key] - {name}];
      status := Write(key, writes);
    }

    method GetCurrentVersion(key: Key) returns (r: Option<int>)
      ensures r == Current(View(), key)
    {
      if key !in metadata {
        return None;
      }
      var versionNumber := -1;
      if metadata[key].Some? {
        versionNumber := metadata[key].value;
      }
      return Some(versionNumber);
    }

    method GetLatestVersion(key: Key, reachable: bool) returns (r: Result<int, Error>)
      ensures r == if reachable then Ok(Latest(vault.secrets, key)) else Err(LookupFailed)
    {
      if !reachable {
        return Err(LookupFailed);
      }
      var versionNumber := -1;
      if key in vault.secrets && vault.secrets[key] != [] {
        versionNumber := |vault.secrets[key]|;
      }
      return Ok(versionNumber);
    }
  }

  // ---------------------------------------------------------------- coherence

  /** What other processes do to the service after a client's sync. */
  datatype Remote = Puts(key: Key, doc: Doc) | Deletes(key: Key)

  function AfterRemote(kv: Kv, others: seq<Remote>): Kv {
    if others == [] then kv
    else
      var kv' := AfterRemote(kv, others[..|others| - 1]);
      match others[|others| - 1]
      case Puts(key, doc) => Put(kv', key, doc)
      case Deletes(key) => SoftDelete(kv', key)
  }

  function PutCount(others: seq<Remote>, key: Key): nat {
    if others == [] then 0
    else
      var o := others[|others| - 1];
      PutCount(others[..|others| - 1], key) + if o.Puts? && o.key == key then 1 else 0
  }

  /** Only puts move the version number: a soft delete changes what is read, not the number. */
  lemma {:induction false} PutsCountVersions(kv: Kv, others: seq<Remote>, key: Key)
    ensures |VersionsOf(AfterRemote(kv, others), key)| == |VersionsOf(kv, key)| + PutCount(others, key)
  {
    if others != [] {
      PutsCountVersions(kv, others[..|others| - 1], key);
    }
  }

  function DeleteCount(others: seq<Remote>, key: Key): nat {
    if others == [] then 0
    else
      var o := others[|others| - 1];
      DeleteCount(others[..|others| - 1], key) + if o.Deletes? && o.key == key then 1 else 0
  }

  /** What a reader who saw `doc` sees after the others: the last of them to touch the key decides. */
  function Seen(doc: Doc, others: seq<Remote>, key: Key): Doc {
    if others == [] then doc
    else
      match others[|others| - 1]
      case Puts(k, d) => if k == key then d else Seen(doc, others[..|others| - 1], key)
      case Deletes(k) => if k == key then map[] else Seen(doc, others[..|others| - 1], key)
  }

  lemma {:induction false} StoredIsSeen(kv: Kv, others: seq<Remote>, key: Key)
    ensures Stored(AfterRemote(kv, others), key) == Seen(Stored(kv, key), others, key)
  {
    if others != [] {
      StoredIsSeen(kv, others[..|others| - 1], key);
    }
  }

  lemma {:induction false} SeenWithoutPuts(doc: Doc, others: seq<Remote>, key: Key)
    requires PutCount(others, key) == 0
    ensures Seen(doc, others, key) == if DeleteCount(others, key) == 0 then doc else map[]
  {
    if others != [] {
      SeenWithoutPuts(doc, others[..|others| - 1], key);
    }
  }

  /** The poller's comparison, with the client's metadata against the service as it is now. */
  predicate Agrees(s: State, kv: Kv, key: Key) {
    Current(s, key) == Some(Latest(kv, key))
  }

  /** The state after a client's sync: a successful Write, or a Read. */
  function Synced(num: Numerals, s: State, key: Key, wrote: bool): State {
    if wrote then AfterWrite(num, s, key, true).0 else AfterRead(num, s, key, true).0
  }

  /** The sync succeeded, and if it was a Read it did not find the latest version deleted. */
  predicate Syncs(num: Numerals, s: State, key: Key, wrote: bool) {
    if wrote then AfterWrite(num, s, key, true).1.Done? else Live(s.kv, key) || VersionsOf(s.kv, key) == []
  }

  /** The cached map is what a reader of the service would get. */
  predicate Fresh(num: Numerals, s: State, kv: Kv, key: Key) {
    key in s.data && EncodeAll(num, s.data[key]) == Stored(kv, key)
  }

  lemma SyncIsFresh(num: Numerals, s: State, key: Key, wrote: bool)
    requires num.exact && Syncs(num, s, key, wrote)
    ensures var s' := Synced(num, s, key, wrote); Fresh(num, s', s'.kv, key)
  {
    ExactRecoding(num, Stored(s.kv, key));
  }

  /**
   * Main result: after a Write, or a Read that found the secret or found no key at all, the
   * versions agree exactly as long as nobody puts that key. Creation is visible here.
   */
  lemma CoherentAfterSync(num: Numerals, s: State, key: Key, wrote: bool, others: seq<Remote>)
    requires Syncs(num, s, key, wrote)
    ensures var s' := Synced(num, s, key, wrote);
            Agrees(s', AfterRemote(s'.kv, others), key) <==> PutCount(others, key) == 0
  {
    PutsCountVersions(Synced(num, s, key, wrote).kv, others, key);
  }

  /**
   * Main result: but agreement does not mean the data is current. The cached map is what a reader
   * would see exactly when the others leave its document showing; while the versions agree, that
   * is when nobody deleted the key, or the map is empty anyway.
   */
  lemma FreshAfterSync(num: Numerals, s: State, key: Key, wrote: bool, others: seq<Remote>)
    requires num.exact && Syncs(num, s, key, wrote)
    ensures var s' := Synced(num, s, key, wrote);
            var kv' := AfterRemote(s'.kv, others);
            && (Fresh(num, s', kv', key) <==> Seen(Stored(s'.kv, key), others, key) == Stored(s'.kv, key))
            && (Agrees(s', kv', key) ==>
                 (Fresh(num, s', kv', key) <==> DeleteCount(others, key) == 0 || s'.data[key] == map[]))
  {
    var s' := Synced(num, s, key, wrote);
    SyncIsFresh(num, s, key, wrote);
    StoredIsSeen(s'.kv, others, key);
    CoherentAfterSync(num, s, key, wrote, others);
    EmptyEncodesEmpty(num, s'.data[key]);
    if PutCount(others, key) == 0 {
      SeenWithoutPuts(Stored(s'.kv, key), others, key);
    }
  }

  lemma EmptyEncodesEmpty(num: Numerals, entries: Entries)
    ensures EncodeAll(num, entries) == map[] <==> entries == map[]
  {
    if EncodeAll(num, entries) == map[] {
      assert entries.Keys == EncodeAll(num, entries).Keys;
    }
  }

  /**
   * The boundary: a Read that finds the latest version soft-deleted caches no version, so it
   * disagrees with the service from the first poll on, whatever happens next.
   */
  lemma DeletedNeverAgrees(num: Numerals, s: State, key: Key, others: seq<Remote>)
    requires VersionsOf(s.kv, key) != [] && !Live(s.kv, key)
    ensures !Agrees(AfterRead(num, s, key, true).0, AfterRemote(s.kv, others), key)
  {
    PutsCountVersions(s.kv, others, key);
  }

  /** The UseNumber client writes back exactly what it read, numbers included. */
  lemma ExactRecoding(num: Numerals, doc: Doc)
    requires num.exact
    ensures EncodeAll(num, DecodeAll(num, doc)) == doc && Encodable(DecodeAll(num, doc))
  {
    forall name | name in doc
      ensures Recode(num, doc[name]) == doc[name]
    {
      ExactRecodes(num, doc[name]);
    }
  }

  /** What another process fetches where this one does: a value as it arrives through JSON, an error as it is. */
  ghost predicate Crosses(num: Numerals, mine: Answer<Value>, theirs: Answer<Value>) {
    if mine.Returns? then theirs.Returns? && ArrivesAs(num, mine.value, theirs.value) else theirs == mine
  }

  /** After a Write and the others, another process's Read: the others left the document showing. */
  function ReadBack(num: Numerals, s: State, theirs: State, key: Key, others: seq<Remote>): State {
    var w := AfterWrite(num, s, key, true).0;
    AfterRead(num, theirs.(kv := AfterRemote(w.kv, others)), key, true).0
  }

  /**
   * Main result: a loaded scope, however it was filled, crosses to another process name by name,
   * each value as it arrives through JSON (an int64, say, as its literal), as long as what others
   * do in between leaves it showing.
   */
  lemma ScopeCrossesProcesses(num: Numerals, enc: Encryptor, s: State, theirs: State, key: Key, others: seq<Remote>)
    requires key in s.data && Encodable(s.data[key])
    requires Seen(EncodeAll(num, s.data[key]), others, key) == EncodeAll(num, s.data[key])
    ensures AfterWrite(num, s, key, true).1.Done?
    ensures var r := ReadBack(num, s, theirs, key, others);
            && key in r.data && r.data[key].Keys == s.data[key].Keys
            && forall name :: name in s.data[key] ==> Crosses(num, Fetch(enc, s, key, name), Fetch(enc, r, key, name))
  {
    var w := AfterWrite(num, s, key, true).0;
    StoredIsSeen(w.kv, others, key);
    assert Stored(w.kv, key) == EncodeAll(num, s.data[key]);
    var r := ReadBack(num, s, theirs, key, others);
    ReadDecodes(num, theirs.(kv := AfterRemote(w.kv, others)), key);
    forall name | name in s.data[key]
      ensures Crosses(num, Fetch(enc, s, key, name), Fetch(enc, r, key, name))
    {
      RecodedArrives(num, s.data[key][name]);
      assert r.data[key][name] == Decode(num, Encode(num, s.data[key][name]));
    }
  }

  lemma ReadDecodes(num: Numerals, s: State, key: Key)
    ensures var r := AfterRead(num, s, key, true).0; key in r.data && r.data[key] == DecodeAll(num, Stored(s.kv, key))
  {
  }

  /** And a value that JSON keeps comes out of a secret scope as the very value that was set. */
  lemma ValueCrossesProcesses(num: Numerals, enc: Encryptor, s: State, theirs: State, key: Key, name: string,
                              value: Value, nonce: int, others: seq<Remote>)
    requires Inverts(enc) && CanEncode(value) && Survives(num, value)
    requires key in s.data && Encodable(s.data[key]) && AfterSet(enc, s, key, name, value, nonce).1.Done?
    requires var doc := EncodeAll(num, AfterSet(enc, s, key, name, value, nonce).0.data[key]);
             Seen(doc, others, key) == doc
    ensures var s' := AfterSet(enc, s, key, name, value, nonce).0;
            && AfterWrite(num, s', key, true).1.Done?
            && Fetch(enc, ReadBack(num, s', theirs, key, others), key, name) == Returns(value)
  {
    var s' := AfterSet(enc, s, key, name, value, nonce).0;
    assert s'.data[key] == s.data[key][name := s'.data[key][name]];
    ScopeCrossesProcesses(num, enc, s', theirs, key, others);
    RecodingKeeps(num, value);
    SurvivorArrives(num, value, Fetch(enc, ReadBack(num, s', theirs, key, others), key, name).value);
  }

  /** Only the value itself arrives where JSON keeps it. */
  lemma {:induction false} SurvivorArrives(num: Numerals, v: Value, w: Value)
    requires Survives(num, v) && ArrivesAs(num, v, w)
    ensures w == v
  {
    match v {
      case Slice(items) =>
        forall i | 0 <= i < |items|
          ensures w.items[i] == items[i]
        {
          SurvivorArrives(num, items[i], w.items[i]);
        }
      case Map(fields) =>
        forall k | k in fields
          ensures w.fields[k] == fields[k]
        {
          SurvivorArrives(num, fields[k], w.fields[k]);
        }
      case _ =>
    }
  }

  // ---------------------------------------------------------------- what single calls do

  /** A successful Write puts one version, the cached scope entry by entry in its stored form, and notes its number. */
  lemma WriteStores(num: Numerals, s: State, key: Key, reachable: bool)
    requires AfterWrite(num, s, key, reachable).1.Done?
    ensures var s' := AfterWrite(num, s, key, reachable).0;
            var before := VersionsOf(s.kv, key);
            && key in s.data && s'.data == s.data && key in s'.kv && s'.kv == s.kv[key := s'.kv[key]]
            && |s'.kv[key]| == |before| + 1 && s'.kv[key][..|before|] == before
            && !s'.kv[key][|before|].deleted && StoresScope(num, s.data[key], s'.kv[key][|before|].doc)
            && s'.metadata == s.metadata[key := Some(|before| + 1)]
  {
    EncodeAllStores(num, s.data[key]);
  }

  /** A Read finds the latest version unless there is none or it is deleted, and then nothing. */
  lemma ReadReads(num: Numerals, s: State, key: Key)
    ensures var (s', status) := AfterRead(num, s, key, true);
            var versions := VersionsOf(s.kv, key);
            && status.Done? && s'.kv == s.kv && key in s'.data && s'.data == s.data[key := s'.data[key]]
            && if versions != [] && !versions[|versions| - 1].deleted then
                 && s'.metadata == s.metadata[key := Some(|versions|)]
                 && s'.data[key].Keys == versions[|versions| - 1].doc.Keys
                 && forall name :: name in s'.data[key]
                                   ==> ReadAs(num, versions[|versions| - 1].doc[name], s'.data[key][name])
               else
                 s'.data[key] == map[] && s'.metadata == s.metadata[key := None] && Current(s', key) == Some(-1)
    ensures AfterRead(num, s, key, false) == (s, Failed(LookupFailed))
  {
    if Live(s.kv, key) {
      DecodeAllReads(num, Stored(s.kv, key));
    }
  }

  /**
   * DeleteEntry soft-deletes the latest version first. If it can then write, one version more holds
   * the cached scope without the name; if not, the version noted is the one the delete answered with.
   */
  lemma DeleteWritesRest(num: Numerals, s: State, key: Key, name: string, reply: DeleteReply, writes: bool)
    requires key in s.data && Encodable(s.data[key])
    ensures var (s', status) := AfterDelete(num, s, key, name, true, reply, writes);
            var before := VersionsOf(s.kv, key);
            && s'.data == s.data[key := s.data[key] - {name}] && (status.Done? <==> writes)
            && (before != [] ==> key in s'.kv && s'.kv[key][|before| - 1] == Version(before[|before| - 1].doc, true))
            && (writes ==> key in s'.kv && |s'.kv[key]| == |before| + 1 && !s'.kv[key][|before|].deleted
                           && StoresScope(num, s.data[key] - {name}, s'.kv[key][|before|].doc)
                           && Current(s', key) == Some(|before| + 1))
            && (!writes ==> |VersionsOf(s'.kv, key)| == |before|
                            && s'.metadata == (if reply.Content? then s.metadata[key := reply.version] else s.metadata))
    ensures AfterDelete(num, s, key, name, false, reply, writes) == (s, Failed(SaveFailed))
  {
    EncodeAllStores(num, s.data[key] - {name});
  }

  /** A scope that was never read. */
  lemma UnloadedScope(num: Numerals, enc: Encryptor, s: State, key: Key, name: string, value: Value, nonce: int)
    requires key !in s.data && key !in s.metadata
    ensures Fetch(enc, s, key, name) == if key.scope == "secret" then Errs(NotLoaded) else Panics
    ensures Current(s, key) == None
    ensures AfterWrite(num, s, key, true) == (s, Failed(SaveFailed))
    ensures key.scope != "secret" ==> AfterSet(enc, s, key, name, value, nonce) == (s, Panicked)
  {
  }

  /** A loaded scope: any value in an open one; in a secret one strings only, sealed, "version" not excepted. */
  lemma LoadedEntries(enc: Encryptor, s: State, key: Key, name: string, value: Value, nonce: int)
    requires key in s.data
    ensures key.scope != "secret" ==>
              && AfterSet(enc, s, key, name, value, nonce) == (s.(data := s.data[key := s.data[key][name := value]]), Done)
              && Fetch(enc, s, key, name) == Returns(if name in s.data[key] then s.data[key][name] else Nil)
    ensures key.scope == "secret" && !value.Str? ==> AfterSet(enc, s, key, name, value, nonce) == (s, Failed(NotString))
    ensures key.scope == "secret" && value.Str? ==>
              match enc.encrypt(value.s, key.app, nonce)
              case Ok(sealed) =>
                AfterSet(enc, s, key, name, value, nonce) == (s.(data := s.data[key := s.data[key][name := Str(sealed)]]), Done)
              case Err(e) => AfterSet(enc, s, key, name, value, nonce) == (s, Failed(Crypto(e)))
    ensures key.scope == "secret" && name !in s.data[key] ==> Fetch(enc, s, key, name) == Returns(Nil)
    ensures key.scope == "secret" && name in s.data[key] && !s.data[key][name].Str? ==>
              Fetch(enc, s, key, name) == Errs(NotString)
  {
  }
}
