/**
 The committed contents of one store: a map from key to the serializer's text for
 the value. `SqliteDB` keeps them in table `d (key text, value text)` with a unique
 index on `key`; `LevelDB` keeps them as native key/value pairs. At this level both
 are the same map, and the two backends differ only in how `set` reaches it.
 */
module Store {
  import opened Wrappers
  import opened Serialization

  type Table = map<string, string>

  /** The two interchangeable storage engines. */
  datatype Backend = Sqlite | LevelDb

  /**
   `NotFound` is the `KeyError` that `get` raises; `UniqueViolation` is the integrity
   error SQLite raises when an `INSERT` meets the unique index on `key`.
   */
  datatype Error = NotFound | UniqueViolation(key: string)

  /** What a store directory holds before it is opened. */
  datatype Disk = Missing | Existing(table: Table)

  // ---- the relational engine's primitives, as the SQL statements the backend issues ----

  /** The lookup of one key's stored value: the single matching row's value, or no row. */
  function Select(t: Table, key: string): (row: Option<string>)
    ensures row.Some? <==> key in t
    ensures row.Some? ==> row.value == t[key]
  {
    if key in t then Some(t[key]) else None
  }

  /** The update statement: rewrites the value of the row with the given key, if there is one. */
  function Update(t: Table, key: string, text: string): (r: Table)
    ensures r.Keys == t.Keys
    ensures forall k :: k in r ==> r[k] == if k == key then text else t[k]
  {
    map k | k in t :: if k == key then text else t[k]
  }

  /** The insert statement: adds a row, unless the unique index already holds the key. */
  function InsertRow(t: Table, key: string, text: string): (r: Result<Table, Error>)
    ensures r.Failure? <==> key in t
    ensures r.Failure? ==> r.error == UniqueViolation(key)
    ensures r.Success? ==> r.value.Keys == t.Keys + {key}
    ensures r.Success? ==> r.value[key] == text && forall k :: k in t ==> r.value[k] == t[k]
  {
    if key in t then Failure(UniqueViolation(key)) else Success(t[key := text])
  }

  // ---- the store contract ----

  /** Opening a store: a directory without data starts empty, one with data is resumed as it is. */
  function Open(d: Disk): (t: Table)
    ensures d.Missing? ==> |t| == 0
    ensures d.Existing? ==> t == d.table
  {
    match d
    case Missing => map[]
    case Existing(table) => table
  }

  /** Closing a store leaves its committed contents in the directory. */
  function Close(t: Table): (d: Disk)
    ensures d.Existing?
  {
    Existing(t)
  }

  /** `get`: the deserialized stored value, or `KeyError` when the key is absent. */
  function Get<V>(t: Table, codec: Serializer<V>, key: string): (r: Result<V, Error>)
    ensures r.Failure? <==> key !in t
    ensures r.Failure? ==> r.error == NotFound
    ensures r.Success? ==> r.value == codec.deserialize(t[key])
  {
    match Select(t, key)
    case None => Failure(NotFound)
    case Some(text) => Success(codec.deserialize(text))
  }

  /**
   Stores already-serialized text under `key`. SQLite checks first and then acts: if the
   lookup finds the key it issues `UPDATE`, otherwise `INSERT`, which cannot meet the
   unique index because the key was just found absent. LevelDB overwrites with `put`.
   */
  function Upsert(backend: Backend, t: Table, key: string, text: string): (r: Table)
    ensures key in r && r[key] == text
    ensures forall k :: k != key ==> (k in r <==> k in t)
    ensures forall k :: k != key && k in t ==> r[k] == t[k]
    ensures |r| == if key in t then |t| else |t| + 1
  {
    match backend
    case Sqlite =>
      if Select(t, key).Some? then Update(t, key, text)
      else
        var inserted := InsertRow(t, key, text);
        assert inserted.Success?;
        inserted.value
    case LevelDb => t[key := text]
  }

  /** `set`: serializes the value and upserts it. */
  function Set<V>(backend: Backend, t: Table, codec: Serializer<V>, key: string, v: V): (r: Table)
    ensures r.Keys == t.Keys + {key}
    ensures r[key] == codec.serialize(v)
    ensures forall k :: k != key && k in t ==> r[k] == t[k]
    ensures |r| == if key in t then |t| else |t| + 1
  {
    Upsert(backend, t, key, codec.serialize(v))
  }

  /** On both engines `set` is an overwrite of the key's entry, so the two engines agree. */
  lemma UpsertIsOverwrite(backend: Backend, t: Table, key: string, text: string)
    ensures Upsert(backend, t, key, text) == t[key := text]
  {
    var r := Upsert(backend, t, key, text);
    assert r.Keys == t[key := text].Keys;
  }

  /** Reading back a key just set yields the value that was set (given the codec's round trip). */
  lemma GetAfterSet<V(!new)>(backend: Backend, t: Table, codec: Serializer<V>, key: string, v: V)
    requires RoundTrips(codec)
    ensures Get(Set(backend, t, codec, key, v), codec, key) == Success(v)
  {
  }

  /** Setting one key does not change what `get` returns for any other key. */
  lemma GetAfterSetOther<V>(backend: Backend, t: Table, codec: Serializer<V>, key: string, v: V, other: string)
    requires other != key
    ensures Get(Set(backend, t, codec, key, v), codec, other) == Get(t, codec, other)
  {
  }

  /** The upsert law: a second `set` of the same key replaces the first. */
  lemma SetTwice<V(!new)>(backend: Backend, t: Table, codec: Serializer<V>, key: string, v1: V, v2: V)
    requires RoundTrips(codec)
    ensures Get(Set(backend, Set(backend, t, codec, key, v1), codec, key, v2), codec, key) == Success(v2)
    ensures |Set(backend, Set(backend, t, codec, key, v1), codec, key, v2)| == |Set(backend, t, codec, key, v1)|
  {
  }

  /** Closing and reopening the same directory gives back the committed contents. */
  lemma ReopenKeepsContents(t: Table)
    ensures Open(Close(t)) == t
  {
  }
}
