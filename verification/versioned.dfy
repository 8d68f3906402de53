/** The versioned in-memory store of internal/storage/versioned.go: each key
    maps to a record object carrying the value, its vector clock, a timestamp
    and a tombstone flag. Records are objects because the store flips a stored
    record's tombstone in place; the byte slice and the clock inside a record are
    values, so a record's copy shares nothing with it. */
module Versioned {
  import opened Base
  import opened VectorClock

  /** A reading of time.Now(); the model never inspects it. */
  type Timestamp = int

  /** The contents of one record at a point in time. */
  datatype Record = Record(value: seq<Byte>, version: Clock, timestamp: Timestamp, tombstone: bool)

  class VersionedValue {
    var value: seq<Byte>
    var version: Clock
    var timestamp: Timestamp
    var tombstone: bool

    function Snapshot(): (r: Record)
      reads this
      ensures r.value == value && r.version == version
      ensures r.timestamp == timestamp && r.tombstone == tombstone
    {
      Record(value, version, timestamp, tombstone)
    }

    /** NewVersionedValue: keeps the given value and clock, stamps the record with
        the clock reading `now` (time.Now() in the source) and clears the tombstone. */
    constructor (value: seq<Byte>, version: Clock, now: Timestamp)
      ensures Snapshot() == Record(value, version, now, false)
    {
      this.value := value;
      this.version := version;
      this.timestamp := now;
      this.tombstone := false;
    }
  }

  /** VersionedValue.Copy: nil for nil, otherwise a new record equal to the original.
      Being a fresh object, later updates of the copy never reach the original. */
  method Copy(vv: VersionedValue?) returns (c: VersionedValue?)
    ensures vv == null <==> c == null
    ensures c != null ==> fresh(c) && c.Snapshot() == vv.Snapshot()
    ensures IsEmpty(c) <==> IsEmpty(vv)
  {
    if vv == null {
      return null;
    }
    c := new VersionedValue(vv.value, vv.version, vv.timestamp);
    c.tombstone := vv.tombstone;
  }

  /** VersionedValue.IsEmpty: a nil record or one whose value has no bytes. A deleted
      record keeps its bytes, so deletion does not make a record empty. */
  predicate IsEmpty(vv: VersionedValue?): (e: bool)
    reads vv
    ensures vv == null ==> e
    ensures !e ==> vv != null && |vv.value| > 0
  {
    vv == null || |vv.value| == 0
  }

  /** A record that was just created holds no data exactly when its value is empty. */
  lemma NewRecordEmptiness(vv: VersionedValue, value: seq<Byte>, version: Clock, now: Timestamp)
    requires vv.Snapshot() == Record(value, version, now, false)
    ensures IsEmpty(vv) <==> value == []
  {
  }

  /** The store's contents after DeleteVersioned(key): the record under `key`, if any,
      marked deleted; every field but the tombstone, and every other key, as before. */
  function Tombstoned(m: map<string, Record>, key: string): (r: map<string, Record>)
    ensures r.Keys == m.Keys
    ensures key in m ==> r[key].tombstone && r[key].value == m[key].value
                         && r[key].version == m[key].version && r[key].timestamp == m[key].timestamp
    ensures forall k :: k in m && k != key ==> r[k] == m[k]
  {
    if key in m then m[key := m[key].(tombstone := true)] else m
  }

  /** Deleting twice is deleting once. */
  lemma TombstonedIdempotent(m: map<string, Record>, key: string)
    ensures Tombstoned(Tombstoned(m, key), key) == Tombstoned(m, key)
  {
  }

  /** A put after a delete wins: the key holds the new record, with its own tombstone flag. */
  lemma PutAfterDelete(m: map<string, Record>, key: string, rec: Record)
    ensures Tombstoned(m, key)[key := rec][key] == rec
  {
  }

  class VersionedInMemory {
    var data: map<string, VersionedValue>

    /** No two keys share a record object, so an in-place update of one key's
        record never shows under another key. PutVersioned keeps this by storing
        a fresh copy. */
    ghost predicate Valid()
      reads this
    {
      forall k, k' :: k in data && k' in data && k != k' ==> data[k] != data[k']
    }

    /** The records the store holds, as values. */
    ghost function Contents(): (m: map<string, Record>)
      reads this, data.Values
      ensures m.Keys == data.Keys
    {
      map k | k in data :: data[k].Snapshot()
    }

    /** NewVersionedInMemory: an empty store. */
    constructor ()
      ensures Valid() && data == map[]
    {
      data := map[];
    }

    /** A copy of the record under `key` and true, or nil and false. The store is not changed. */
    method GetVersioned(key: string) returns (v: VersionedValue?, found: bool)
      ensures found <==> key in Contents()
      ensures found ==> v != null && fresh(v) && v.Snapshot() == Contents()[key]
      ensures found ==> (IsEmpty(v) <==> IsEmpty(data[key]))
      ensures !found ==> v == null
    {
      if key !in data {
        return null, false;
      }
      v := Copy(data[key]);
      found := true;
    }

    /** A nil record is refused and nothing changes; otherwise a copy of it is stored under `key`. */
    method PutVersioned(key: string, value: VersionedValue?) returns (err: Option<string>)
      requires Valid()
      modifies this
      ensures Valid()
      ensures value == null ==> err == Some("cannot store nil versioned value") && data == old(data)
      ensures value != null ==> err == None && key in data && fresh(data[key])
                                && Contents() == old(Contents())[key := value.Snapshot()]
    {
      if value == null {
        return Some("cannot store nil versioned value");
      }
      var c := Copy(value);
      data := data[key := c];
      err := None;
    }

    /** Marks the record under `key` deleted, in place; an absent key is a no-op. Never fails. */
    method DeleteVersioned(key: string) returns (err: Option<string>)
      requires Valid()
      modifies data.Values
      ensures Valid() && data == old(data)
      ensures err == None
      ensures Contents() == Tombstoned(old(Contents()), key)
      ensures forall k :: k in data ==> (IsEmpty(data[k]) <==> old(IsEmpty(data[k])))
    {
      if key in data {
        var value := data[key];
        value.tombstone := true;
      }
      err := None;
    }
  }
}
