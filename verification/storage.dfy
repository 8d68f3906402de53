/** The plain in-memory store of internal/storage/storage.go, which the
    coordinator keeps its own replica in. Byte slices are sequence values here,
    so the defensive copies the source makes on the way in (Put) and on the way
    out (Get) are implicit: nothing a caller holds can alias stored data. */
module Storage {
  import opened Base

  type Bytes = seq<Byte>

  /** What Get answers for `key` over the map `data`: the stored bytes and true,
      or no bytes (Go's nil slice) and false. */
  function Lookup(data: map<string, Bytes>, key: string): (r: (Bytes, bool))
    ensures r.1 <==> key in data
    ensures r.1 ==> r.0 == data[key]
    ensures !r.1 ==> r.0 == []
  {
    if key in data then (data[key], true) else ([], false)
  }

  /** A Put followed by a Get of the same key returns the bytes written. */
  lemma GetAfterPut(data: map<string, Bytes>, key: string, value: Bytes)
    ensures Lookup(data[key := value], key) == (value, true)
  {
  }

  /** A Delete followed by a Get of the same key finds nothing. */
  lemma GetAfterDelete(data: map<string, Bytes>, key: string)
    ensures Lookup(data - {key}, key) == ([], false)
  {
  }

  /** Put and Delete on one key leave every other key's answer unchanged. */
  lemma OtherKeysUnaffected(data: map<string, Bytes>, key: string, value: Bytes, other: string)
    requires other != key
    ensures Lookup(data[key := value], other) == Lookup(data, other)
    ensures Lookup(data - {key}, other) == Lookup(data, other)
  {
  }

  /** Deleting an absent key changes nothing. */
  lemma DeleteAbsent(data: map<string, Bytes>, key: string)
    requires key !in data
    ensures data - {key} == data
  {
  }

  class InMemory {
    var data: map<string, Bytes>

    /** NewInMemory: an empty store. */
    constructor ()
      ensures data == map[]
    {
      data := map[];
    }

    method Get(key: string) returns (value: Bytes, ok: bool)
      ensures (value, ok) == Lookup(data, key)
      ensures ok <==> key in data
    {
      if key !in data {
        return [], false;
      }
      value := data[key];
      ok := true;
    }

    /** Put never fails: the result is always no error. */
    method Put(key: string, value: Bytes) returns (err: Option<string>)
      modifies this
      ensures err == None
      ensures data == old(data)[key := value]
    {
      data := data[key := value];
      err := None;
    }

    /** Delete never fails, and deleting an absent key is a no-op. */
    method Delete(key: string) returns (err: Option<string>)
      modifies this
      ensures err == None
      ensures data == old(data) - {key}
    {
      data := data - {key};
      err := None;
    }
  }
}
