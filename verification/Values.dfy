/** Dynamic Go values, the JSON documents they are stored as, and encryptors. */
module Values {
  import opened Outcomes

  /** What a backend keeps: a JSON value. */
  datatype Json =
    | JNull
    | JBool(b: bool)
    | JNumber(literal: string)
    | JString(s: string)
    | JArray(items: seq<Json>)
    | JObject(fields: map<string, Json>)

  type Doc = map<string, Json>

  /** What an `interface{}` holds in memory. `Unencodable` is any value json.Marshal rejects. */
  datatype Value =
    | Nil
    | Bool(b: bool)
    | Str(s: string)
    | Int64(n: int)
    | Float64(x: real)
    | JsonNumber(literal: string)
    | Slice(items: seq<Value>)
    | Map(fields: map<string, Value>)
    | Unencodable

  type Entries = map<string, Value>

  datatype Key = Key(app: string, scope: string)

  /** A process's loaded scopes; a key is absent while its scope is not loaded. */
  type Cache = map<Key, Entries>

  datatype Error = LookupFailed | Corrupt | NotLoaded | NotInt64 | NotString | EncodeFailed | SaveFailed | Crypto(text: string)

  datatype Status = Done | Failed(error: Error) | Panicked

  /**
   * The literals Go prints for its number types, and how a client reads a literal back: the SQL
   * backend as the nearest double, the Vault client (`UseNumber`) as the literal itself.
   */
  datatype Numerals = Numerals(ofInt: int -> string, ofFloat: real -> string, toFloat: string -> real, exact: bool)

  /** json.Marshal takes it: nothing in it, at any depth, is of a kind it rejects. */
  predicate CanEncode(v: Value) {
    match v
    case Slice(items) => forall i :: 0 <= i < |items| ==> CanEncode(items[i])
    case Map(fields) => forall k :: k in fields ==> CanEncode(fields[k])
    case Unencodable => false
    case _ => true
  }

  predicate Encodable(entries: Entries) {
    forall name :: name in entries ==> CanEncode(entries[name])
  }

  /** json.Marshal of one value. */
  function Encode(num: Numerals, v: Value): Json {
    match v
    case Nil => JNull
    case Bool(b) => JBool(b)
    case Str(s) => JString(s)
    case Int64(n) => JNumber(num.ofInt(n))
    case Float64(x) => JNumber(num.ofFloat(x))
    case JsonNumber(l) => JNumber(l)
    case Slice(items) => JArray(seq(|items|, i requires 0 <= i < |items| => Encode(num, items[i])))
    case Map(fields) => JObject(map k | k in fields :: Encode(num, fields[k]))
    case Unencodable => JNull
  }

  /** json.Unmarshal into an `interface{}`: every number, however deep, is read the client's way. */
  function Decode(num: Numerals, j: Json): (v: Value)
    ensures CanEncode(v)
  {
    match j
    case JNull => Nil
    case JBool(b) => Bool(b)
    case JNumber(l) => if num.exact then JsonNumber(l) else Float64(num.toFloat(l))
    case JString(s) => Str(s)
    case JArray(items) => Slice(seq(|items|, i requires 0 <= i < |items| => Decode(num, items[i])))
    case JObject(fields) => Map(map k | k in fields :: Decode(num, fields[k]))
  }

  function EncodeAll(num: Numerals, entries: Entries): Doc {
    map name | name in entries :: Encode(num, entries[name])
  }

  function DecodeAll(num: Numerals, doc: Doc): Entries {
    map name | name in doc :: Decode(num, doc[name])
  }

  /** The values that come back from the store as they went in: no number that the client reads as something else. */
  predicate Survives(num: Numerals, v: Value) {
    match v
    case Int64(_) => false
    case Float64(x) => !num.exact && num.toFloat(num.ofFloat(x)) == x
    case JsonNumber(_) => num.exact
    case Slice(items) => forall i :: 0 <= i < |items| ==> Survives(num, items[i])
    case Map(fields) => forall k :: k in fields ==> Survives(num, fields[k])
    case Unencodable => false
    case _ => true
  }

  /** One trip through JSON keeps exactly those. */
  lemma {:induction false} RecodingKeeps(num: Numerals, v: Value)
    requires CanEncode(v)
    ensures Decode(num, Encode(num, v)) == v <==> Survives(num, v)
  {
    match v {
      case Slice(items) =>
        forall i | 0 <= i < |items|
          ensures Decode(num, Encode(num, items[i])) == items[i] <==> Survives(num, items[i])
        {
          RecodingKeeps(num, items[i]);
        }
        var back := Decode(num, Encode(num, v));
        assert forall i :: 0 <= i < |items| ==> back.items[i] == Decode(num, Encode(num, items[i]));
        assert back == v <==> forall i :: 0 <= i < |items| ==> back.items[i] == items[i];
      case Map(fields) =>
        forall k | k in fields
          ensures Decode(num, Encode(num, fields[k])) == fields[k] <==> Survives(num, fields[k])
        {
          RecodingKeeps(num, fields[k]);
        }
        var back := Decode(num, Encode(num, v));
        assert back.fields.Keys == fields.Keys;
        assert forall k :: k in fields ==> back.fields[k] == Decode(num, Encode(num, fields[k]));
        assert back == v <==> forall k :: k in fields ==> back.fields[k] == fields[k];
      case _ =>
    }
  }

  /** The document after one trip through the client. */
  function Recode(num: Numerals, j: Json): Json {
    Encode(num, Decode(num, j))
  }

  /** The exact client writes back every literal it read, at any depth. */
  lemma {:induction false} ExactRecodes(num: Numerals, j: Json)
    requires num.exact
    ensures Recode(num, j) == j
  {
    match j {
      case JArray(items) =>
        forall i | 0 <= i < |items|
          ensures Recode(num, items[i]) == items[i]
        {
          ExactRecodes(num, items[i]);
        }
        assert Recode(num, j).items == items;
      case JObject(fields) =>
        forall k | k in fields
          ensures Recode(num, fields[k]) == fields[k]
        {
          ExactRecodes(num, fields[k]);
        }
        assert Recode(num, j).fields == fields;
      case _ =>
    }
  }

  /** Every float64 read from a literal prints as one that reads back as itself, as Go's shortest form does. */
  ghost predicate PrintsExactly(num: Numerals) {
    forall literal :: num.toFloat(num.ofFloat(num.toFloat(literal))) == num.toFloat(literal)
  }

  /** The second trip changes nothing any more. */
  lemma {:induction false} RecodingSettles(num: Numerals, j: Json)
    requires PrintsExactly(num)
    ensures Recode(num, Recode(num, j)) == Recode(num, j)
  {
    match j {
      case JArray(items) =>
        forall i | 0 <= i < |items|
          ensures Recode(num, Recode(num, items[i])) == Recode(num, items[i])
        {
          RecodingSettles(num, items[i]);
        }
        assert forall i :: 0 <= i < |items| ==> Recode(num, j).items[i] == Recode(num, items[i]);
        assert Recode(num, Recode(num, j)).items == Recode(num, j).items;
      case JObject(fields) =>
        forall k | k in fields
          ensures Recode(num, Recode(num, fields[k])) == Recode(num, fields[k])
        {
          RecodingSettles(num, fields[k]);
        }
        assert forall k :: k in fields ==> Recode(num, j).fields[k] == Recode(num, fields[k]);
        assert Recode(num, Recode(num, j)).fields == Recode(num, j).fields;
      case _ =>
    }
  }

  /** Every number in it, at any depth, prints back as the literal it was read from. */
  predicate NumbersRecode(num: Numerals, j: Json) {
    match j
    case JNumber(l) => num.exact || num.ofFloat(num.toFloat(l)) == l
    case JArray(items) => forall i :: 0 <= i < |items| ==> NumbersRecode(num, items[i])
    case JObject(fields) => forall k :: k in fields ==> NumbersRecode(num, fields[k])
    case _ => true
  }

  /** A trip through the client leaves a document alone exactly if its numbers recode. */
  lemma {:induction false} IntactIffNumbersRecode(num: Numerals, j: Json)
    ensures Recode(num, j) == j <==> NumbersRecode(num, j)
  {
    match j {
      case JArray(items) =>
        forall i | 0 <= i < |items|
          ensures Recode(num, items[i]) == items[i] <==> NumbersRecode(num, items[i])
        {
          IntactIffNumbersRecode(num, items[i]);
        }
        assert forall i :: 0 <= i < |items| ==> Recode(num, j).items[i] == Recode(num, items[i]);
        assert Recode(num, j) == j <==> forall i :: 0 <= i < |items| ==> Recode(num, j).items[i] == items[i];
      case JObject(fields) =>
        forall k | k in fields
          ensures Recode(num, fields[k]) == fields[k] <==> NumbersRecode(num, fields[k])
        {
          IntactIffNumbersRecode(num, fields[k]);
        }
        assert Recode(num, j).fields.Keys == fields.Keys;
        assert forall k :: k in fields ==> Recode(num, j).fields[k] == Recode(num, fields[k]);
        assert Recode(num, j) == j <==> forall k :: k in fields ==> Recode(num, j).fields[k] == fields[k];
      case _ =>
    }
  }

  /** No number at any depth. */
  predicate Numberless(j: Json) {
    match j
    case JNumber(_) => false
    case JArray(items) => forall i :: 0 <= i < |items| ==> Numberless(items[i])
    case JObject(fields) => forall k :: k in fields ==> Numberless(fields[k])
    case _ => true
  }

  lemma {:induction false} NumberlessRecodes(num: Numerals, j: Json)
    requires Numberless(j)
    ensures NumbersRecode(num, j)
  {
    match j {
      case JArray(items) =>
        forall i | 0 <= i < |items|
          ensures NumbersRecode(num, items[i])
        {
          NumberlessRecodes(num, items[i]);
        }
      case JObject(fields) =>
        forall k | k in fields
          ensures NumbersRecode(num, fields[k])
        {
          NumberlessRecodes(num, fields[k]);
        }
      case _ =>
    }
  }

  // ---------------------------------------------------------------- what is stored and what arrives

  /** The JSON value a Go value is stored as: a number as the literal Go prints for it, all else as itself. */
  ghost predicate StoredAs(num: Numerals, v: Value, j: Json) {
    match v
    case Nil => j == JNull
    case Bool(b) => j == JBool(b)
    case Str(s) => j == JString(s)
    case Int64(n) => j == JNumber(num.ofInt(n))
    case Float64(x) => j == JNumber(num.ofFloat(x))
    case JsonNumber(l) => j == JNumber(l)
    case Slice(items) =>
      j.JArray? && |j.items| == |items| && forall i :: 0 <= i < |items| ==> StoredAs(num, items[i], j.items[i])
    case Map(fields) =>
      j.JObject? && j.fields.Keys == fields.Keys && forall k :: k in fields ==> StoredAs(num, fields[k], j.fields[k])
    case Unencodable => false
  }

  /** The Go value a client reads a JSON value as: a number its own way, all else as itself. */
  ghost predicate ReadAs(num: Numerals, j: Json, v: Value) {
    match j
    case JNull => v == Nil
    case JBool(b) => v == Bool(b)
    case JNumber(l) => v == if num.exact then JsonNumber(l) else Float64(num.toFloat(l))
    case JString(s) => v == Str(s)
    case JArray(items) =>
      v.Slice? && |v.items| == |items| && forall i :: 0 <= i < |items| ==> ReadAs(num, items[i], v.items[i])
    case JObject(fields) =>
      v.Map? && v.fields.Keys == fields.Keys && forall k :: k in fields ==> ReadAs(num, fields[k], v.fields[k])
  }

  /** What another process fetches where the first one stored `v`: an integer, say, as the float64 of its literal. */
  ghost predicate ArrivesAs(num: Numerals, v: Value, w: Value) {
    match v
    case Int64(n) => w == if num.exact then JsonNumber(num.ofInt(n)) else Float64(num.toFloat(num.ofInt(n)))
    case Float64(x) => w == if num.exact then JsonNumber(num.ofFloat(x)) else Float64(num.toFloat(num.ofFloat(x)))
    case JsonNumber(l) => w == if num.exact then JsonNumber(l) else Float64(num.toFloat(l))
    case Slice(items) =>
      w.Slice? && |w.items| == |items| && forall i :: 0 <= i < |items| ==> ArrivesAs(num, items[i], w.items[i])
    case Map(fields) =>
      w.Map? && w.fields.Keys == fields.Keys && forall k :: k in fields ==> ArrivesAs(num, fields[k], w.fields[k])
    case _ => w == v
  }

  /** Main result: json.Marshal prints each kind of value, at any depth, as StoredAs says. */
  lemma {:induction false} EncodeStores(num: Numerals, v: Value)
    requires CanEncode(v)
    ensures StoredAs(num, v, Encode(num, v))
  {
    match v {
      case Slice(items) =>
        forall i | 0 <= i < |items|
          ensures StoredAs(num, items[i], Encode(num, items[i]))
        {
          EncodeStores(num, items[i]);
        }
      case Map(fields) =>
        forall k | k in fields
          ensures StoredAs(num, fields[k], Encode(num, fields[k]))
        {
          EncodeStores(num, fields[k]);
        }
        assert Encode(num, v).fields.Keys == fields.Keys;
      case _ =>
    }
  }

  /** Main result: json.Unmarshal reads each kind of value, at any depth, as ReadAs says. */
  lemma {:induction false} DecodeReads(num: Numerals, j: Json)
    ensures ReadAs(num, j, Decode(num, j))
  {
    match j {
      case JArray(items) =>
        forall i | 0 <= i < |items|
          ensures ReadAs(num, items[i], Decode(num, items[i]))
        {
          DecodeReads(num, items[i]);
        }
      case JObject(fields) =>
        forall k | k in fields
          ensures ReadAs(num, fields[k], Decode(num, fields[k]))
        {
          DecodeReads(num, fields[k]);
        }
        assert Decode(num, j).fields.Keys == fields.Keys;
      case _ =>
    }
  }

  /** Main result: stored by one process and read by another, a value arrives as ArrivesAs says. */
  lemma {:induction false} StoredArrives(num: Numerals, v: Value, j: Json, w: Value)
    requires StoredAs(num, v, j) && ReadAs(num, j, w)
    ensures ArrivesAs(num, v, w)
  {
    match v {
      case Slice(items) =>
        forall i | 0 <= i < |items|
          ensures ArrivesAs(num, items[i], w.items[i])
        {
          StoredArrives(num, items[i], j.items[i], w.items[i]);
        }
      case Map(fields) =>
        forall k | k in fields
          ensures ArrivesAs(num, fields[k], w.fields[k])
        {
          StoredArrives(num, fields[k], j.fields[k], w.fields[k]);
        }
      case _ =>
    }
  }

  lemma RecodedArrives(num: Numerals, v: Value)
    requires CanEncode(v)
    ensures ArrivesAs(num, v, Decode(num, Encode(num, v)))
  {
    EncodeStores(num, v);
    DecodeReads(num, Encode(num, v));
    StoredArrives(num, v, Encode(num, v), Decode(num, Encode(num, v)));
  }

  /** A document is the stored form of a whole scope. */
  ghost predicate StoresScope(num: Numerals, entries: Entries, doc: Doc) {
    doc.Keys == entries.Keys && forall name :: name in entries ==> StoredAs(num, entries[name], doc[name])
  }

  lemma EncodeAllStores(num: Numerals, entries: Entries)
    requires Encodable(entries)
    ensures StoresScope(num, entries, EncodeAll(num, entries))
  {
    forall name | name in entries
      ensures StoredAs(num, entries[name], Encode(num, entries[name]))
    {
      EncodeStores(num, entries[name]);
    }
  }

  lemma DecodeAllReads(num: Numerals, doc: Doc)
    ensures DecodeAll(num, doc).Keys == doc.Keys
    ensures forall name :: name in doc ==> ReadAs(num, doc[name], DecodeAll(num, doc)[name])
  {
    forall name | name in doc
      ensures ReadAs(num, doc[name], Decode(num, doc[name]))
    {
      DecodeReads(num, doc[name]);
    }
  }

  /**
   * An encryptor. The last argument of `encrypt` is the randomness the call draws (AES-GCM
   * seals the same text differently every time).
   */
  datatype Encryptor = Encryptor(
    encrypt: (string, string, int) -> Result<string, string>,
    decrypt: (string, string) -> Result<string, string>)

  ghost predicate Inverts(enc: Encryptor) {
    forall text, app, nonce, sealed ::
      enc.encrypt(text, app, nonce) == Ok(sealed) ==> enc.decrypt(sealed, app) == Ok(text)
  }

  ghost predicate SealedBy(enc: Encryptor, app: string, sealed: string) {
    exists text, nonce :: enc.encrypt(text, app, nonce) == Ok(sealed)
  }

  /** pkg/encryptor/plaintext: the identity, except that it rejects the empty string both ways. */
  function Plaintext(): Encryptor {
    Encryptor(
      (text: string, app: string, nonce: int) => if text == "" then Err("Encrypted value is empty!") else Ok(text),
      (sealed: string, app: string) => if sealed == "" then Err("Decrypted value is empty!") else Ok(sealed))
  }

  lemma PlaintextInverts(app: string, sealed: string)
    ensures Inverts(Plaintext())
    ensures Plaintext().encrypt(sealed, app, 0).Ok? ==> Plaintext().encrypt(sealed, app, 0).value == sealed
    ensures SealedBy(Plaintext(), app, sealed) <==> sealed != ""
  {
    if sealed != "" {
      assert Plaintext().encrypt(sealed, app, 0) == Ok(sealed);
    }
  }
}
