/** The client-facing message types of pkg/api/types.go that the coordinator
    builds. They carry no logic. */
module Api {
  import opened Base
  import opened VectorClock

  /** A read answer. The source's `Versions` field is never filled by the
      coordinator, so it is not represented. */
  datatype GetResponse = GetResponse(key: string, value: seq<Byte>, found: bool)

  /** Go's zero GetResponse: empty key, no value, not found. */
  const ZeroGetResponse: GetResponse := GetResponse("", [], false)

  /** A write answer: the version the value was stored under. */
  datatype PutResponse = PutResponse(version: Clock)
}
