# A Dafny model of the DHT node's core

This project models a node of a small Dynamo-style distributed key-value store
(the Go repository amir-deris/DHT). It covers six parts:

- **The consistent-hashing ring** (`ring.dfy`, module `HashRing`). Every physical node
  owns `vnodeCount` virtual nodes, placed on a 64-bit circle by a hash of their ids. The
  virtual nodes are kept sorted by position. A key's *preference list* comes from a walk
  clockwise from the key's hash that collects distinct physical nodes until N are found
  or the circle is complete.
- **The version vector** (`vectorclock.dfy`, module `VectorClock`): Compare and Bump.
  Bump uses uint64 arithmetic.
- **The plain in-memory store** (`storage.dfy`, module `Storage`). The coordinator keeps
  its own replica there.
- **The versioned store** (`versioned.dfy`, module `Versioned`). Records carry a vector
  clock, a timestamp and a tombstone flag. Deletion marks the stored record in place.
- **Node configuration** (`config.dfy`, module `Config`). Validate applies defaults,
  checks the quorums and parses the comma-separated seed list.
- **The HTTP coordinator** (`server.dfy`, module `Server`). GET, PUT and DELETE on
  `/kv/<key>`. Reads and writes fan out along the preference list and stop as soon as R
  answers or W acknowledgements are in.

Three supporting modules model the Go standard library the core relies on:

- `strconv.dfy`: `fmt`'s `%d` and `strconv.Atoi`.
- `strings.dfy`: `strings.Split` and `strings.TrimSpace`.
- `base.dfy`: Option and Go's fixed-width integers.

`api.dfy` holds the response types of `pkg/api/types.go`.

State lives where the source keeps it, as classes with fields:

- the ring's sorted virtual nodes and its node table (`HashRing.Ring`);
- the stores' maps (`Storage.InMemory`, `Versioned.VersionedInMemory`);
- the configuration's fields (`Config.Config`);
- a record's tombstone (`Versioned.VersionedValue`).

Every loop of the source that builds a result step by step is a method with loop
invariants, proved against a specification function. The one exception is the copy loop of
`GetNodes` (ring.go:150-153), which is a map comprehension. The main specification
functions are:

- `HashRing.FirstDistinct` over `HashRing.Walk`, for the preference list;
- `Server.Answers` over per-replica outcomes, for the quorum fan-outs;
- `VectorClock.Comparison`, for Compare;
- `Config.ParseSeeds`, for the seed loop.

The remote replicas are oracles:

- `peerWrite(n)` says whether node n acknowledges a replicated write.
- `peerRead(n)` gives the bytes node n returns with a 200 answer, or None for any failure.

A replica that does not hold the key answers 404. The coordinator's remote read treats any
non-200 status as an error, so such a replica contributes no answer. `OnlyLocalAnswers`
states the consequence for a read that fans out, that is, one whose preference list has two
or more nodes and whose R is not 1. When no remote replica holds the key, such a read with
R >= 2 can never reach its quorum, and it answers 503, not 404. With a one-node list, as on
the single-node ring a freshly built server holds, the read is local and answers 404.

The context tests of the vector clock expect `Compare(nil, New())` to be -1 and
`Compare(New(), nil)` to be 1. Compare as written returns 0 for both, because ranging over a
nil map and over an empty map both visit nothing. The model follows the code: a nil clock
is the empty clock, and `CompareReflexive` gives 0.

The ring's hash (MD5 truncated to 64 bits) is a function `string -> Uint64` given when the
ring is built. Every ring property holds for any such function.

## Model

| member | source | states |
|---|---|---|
| Strconv.NatToDecimal | internal/ring/ring.go:56 | `%d` of a natural number is a non-empty string of decimal digits |
| Strconv.IntToDecimal | internal/server/server.go:145 | `%d` of an integer is non-empty and starts with a digit exactly when the integer is not negative |
| Strconv.Atoi | internal/server/server.go:348 | a successful parse yields a 64-bit integer from a string starting with a sign or a digit |
| Strconv.DigitsValueOfDecimal | internal/ring/ring.go:56 | the decimal rendering of n reads back as n |
| Strconv.AtoiOfDecimal | internal/server/server.go:345-351 | Atoi inverts `%d` on every 64-bit integer |
| Strings.Split | internal/config/config.go:48 | splitting yields at least one piece, and no piece contains the separator |
| Strings.JoinSplit | internal/config/config.go:48 | joining the pieces of a split with the separator restores the string |
| Strings.SplitJoin | internal/config/config.go:48 | splitting the join of separator-free pieces restores the pieces |
| Strings.SplitAfterPiece | internal/config/config.go:48 | a separator-free prefix followed by the separator is split off as the first piece |
| Strings.SplitNoSeparator | internal/config/config.go:48 | a string without the separator is a single piece |
| Strings.TrimLeft | internal/config/config.go:50 | the result is no longer than the input and does not start with white space |
| Strings.TrimRight | internal/config/config.go:50 | the result is no longer than the input and does not end with white space |
| Strings.TrimSpace | internal/config/config.go:50 | the result neither starts nor ends with white space |
| Strings.TrimLeftSuffix | internal/config/config.go:50 | TrimLeft removes only a prefix made of white space |
| Strings.TrimRightPrefix | internal/config/config.go:50 | TrimRight removes only a suffix made of white space |
| Strings.TrimSpaceIsInfix | internal/config/config.go:50 | TrimSpace returns an infix whose surroundings are all white space |
| Strings.TrimSpaceOfTrimmed | internal/config/config.go:50 | trimming an already trimmed string changes nothing |
| Strings.TrimSpaceOfBlank | internal/config/config.go:50-51 | a string made only of white space trims to empty, so it is not kept as a seed |
| VectorClock.Compare | internal/clock/vectorclock.go:8-34 | the two flag-clearing passes return 1 iff a strictly dominates b, -1 iff b strictly dominates a, 0 otherwise |
| VectorClock.Dominates | internal/clock/vectorclock.go:10-26 | a dominates b when every key of b is in a with a counter at least as large; the flags the two loops clear |
| VectorClock.Comparison | internal/clock/vectorclock.go:27-33 | the result Compare returns: 1 when a strictly dominates b, -1 when b strictly dominates a, 0 otherwise; always -1, 0 or 1 |
| VectorClock.CompareReflexive | internal/clock/vectorclock.go:8-34 | a clock compares equal (0) to itself |
| VectorClock.CompareAntisymmetric | internal/clock/vectorclock.go:8-34 | swapping the arguments negates the result |
| VectorClock.DominatesAntisymmetric | internal/clock/vectorclock.go:8-34 | two clocks that dominate each other are equal |
| VectorClock.DominatesTransitive | internal/clock/vectorclock.go:8-34 | domination is transitive |
| VectorClock.CompareZero | internal/clock/vectorclock.go:8-34 | the result is 0 exactly for equal or concurrent clocks |
| VectorClock.CompareTransitive | internal/clock/vectorclock.go:8-34 | "happened before" (-1) is transitive |
| VectorClock.DisjointConcurrent | internal/clock/vectorclock.go:8-34 | non-empty clocks over disjoint node sets are concurrent |
| VectorClock.EmptyIsBottom | internal/clock/vectorclock.go:8-34 | the empty clock is before every non-empty clock |
| VectorClock.Bumped | internal/clock/vectorclock.go:36-39 | Bump adds the key if absent, sets its counter to the old one plus 1 modulo 2^64, and leaves every other entry alone |
| VectorClock.VectorClock.Bump | internal/clock/vectorclock.go:37-39 | the clock's entries become the bumped entries |
| VectorClock.BumpIsLater | internal/clock/vectorclock.go:37-39 | below the maximum, a bumped clock is strictly later than the original |
| VectorClock.BumpAtMaximumGoesBack | internal/clock/vectorclock.go:38 | bumping a counter at the uint64 maximum wraps it to 0 and makes the clock strictly earlier |
| HashRing.InsertByHash | internal/ring/ring.go:69-71 | inserting into a sorted sequence keeps it sorted and adds exactly that virtual node |
| HashRing.SortByHash | internal/ring/ring.go:68-71 | the sort's result is sorted by position and is a permutation of its input |
| HashRing.ConsSorted | internal/ring/ring.go:69-71 | a virtual node no later than every node of a sorted sequence can go in front of it |
| HashRing.HashLowerBound | internal/ring/ring.go:69-71 | a lower bound on the positions of the inputs bounds the positions of any permutation of them |
| HashRing.OwnersPermutation | internal/ring/ring.go:68-71 | reordering virtual nodes does not change how many each physical node owns |
| HashRing.WithoutOwner | internal/ring/ring.go:85-92 | the filtered virtual nodes are exactly those not owned by the removed node |
| HashRing.WithoutOwnerStep | internal/ring/ring.go:87-91 | filtering one more virtual node keeps it exactly when another node owns it |
| HashRing.WithoutOwnerSorted | internal/ring/ring.go:85-92 | filtering keeps the virtual nodes sorted |
| HashRing.WithoutOwnerCounts | internal/ring/ring.go:85-92 | filtering drops every virtual node of the removed node and no other node's |
| HashRing.Search | internal/ring/ring.go:166-169 | the bisection returns the first index whose position is at least the hash |
| HashRing.FindSuccessorIndex | internal/ring/ring.go:164-177 | the result is the first virtual node clockwise from the hash, or 0 (wrap-around) when none lies at or past it |
| HashRing.ClampReplicas | internal/ring/ring.go:109-111 | N is kept when 0 < N <= node count; a non-positive N or one above the node count becomes the node count |
| HashRing.VnodeId | internal/ring/ring.go:56 | a virtual node id is the node id, "-vnode-" and the number in decimal |
| HashRing.VnodeIdInjective | internal/ring/ring.go:55-56 | two virtual nodes of one node with equal ids have equal numbers, so a node's ids are pairwise different |
| HashRing.Walk | internal/ring/ring.go:122-125 | one turn round the circle from the start visits every position once, beginning at the start |
| HashRing.WalkStep | internal/ring/ring.go:124-125 | step i of the walk is the virtual node at (start + i) mod length |
| HashRing.FirstDistinct | internal/ring/ring.go:118-131 | the collected owners are distinct, all met on the walk, and at most N of them |
| HashRing.FirstDistinctStep | internal/ring/ring.go:127-130 | each step keeps an owner unless N are collected or it was seen before |
| HashRing.CollectStep | internal/ring/ring.go:123-130 | below N, a step adds the owner to the list and to the seen set exactly when it is new |
| HashRing.FirstDistinctStable | internal/ring/ring.go:123 | once N owners are collected, walking further changes nothing, so the loop may stop early |
| HashRing.FirstDistinctCovers | internal/ring/ring.go:123-131 | a walk that collects fewer than N owners has collected every owner it met |
| HashRing.FirstDistinctHead | internal/ring/ring.go:123-130 | the first owner met heads the list |
| HashRing.DistinctCard | internal/ring/ring.go:119-130 | a list without repeats has as many elements as its length |
| HashRing.WalkOwners | internal/ring/ring.go:123-125 | the walk meets the owner of every virtual node and no one else |
| HashRing.WalkMeetsAllNodes | internal/ring/ring.go:123-125 | under the ring invariant, one turn meets exactly the physical nodes of the ring |
| HashRing.FirstDistinctLength | internal/ring/ring.go:118-131 | when at least m distinct owners are met, exactly m are collected |
| HashRing.FirstDistinctShape | internal/ring/ring.go:118-131 | collecting m owners from a walk that meets at least m yields m owners led by the walk's first |
| HashRing.PreferenceListOf | internal/ring/ring.go:109-131 | the first min(N, node count) distinct owners met walking clockwise from the key's successor; no repeats, all owners of virtual nodes |
| HashRing.PreferenceListShape | internal/ring/ring.go:101-134 | the list has min(N, node count) entries (all nodes for N <= 0), no repeats, only ring members, and starts with the owner of the key's successor virtual node |
| HashRing.AddKeepsInvariant | internal/ring/ring.go:44-74 | adding an absent node's virtual nodes and sorting keeps the ring sorted, with every node owning vnodeCount virtual nodes |
| HashRing.RepeatMultiset | internal/ring/ring.go:55-66 | vnodeCount virtual nodes of one owner count vnodeCount times for it |
| HashRing.RemoveKeepsInvariant | internal/ring/ring.go:77-98 | removal keeps the ring invariant, and the removed node is in no preference list afterwards |
| HashRing.EmptyRingIffNoNodes | internal/ring/ring.go:105-107 | "no nodes in ring" is reported exactly when the ring has no physical nodes |
| HashRing.CollectOwners | internal/ring/ring.go:118-131 | the clockwise loop with its seen set returns exactly the first N distinct owners of the walk |
| HashRing.Ring.NewVnodes | internal/ring/ring.go:55-66 | the node's virtual nodes are numbered 0..k-1 and named and placed by id |
| HashRing.Ring.MakeVnode | internal/ring/ring.go:56-63 | virtual node i of a node: id VnodeId, owner the node, position the hash of the id |
| HashRing.Ring.PreferenceList | internal/ring/ring.go:101-134 | on a non-empty ring, the key's list has min(N, node count) entries, at least one, no repeats, only ring members, led by the owner of the key's successor virtual node |
| HashRing.Ring.constructor | internal/ring/ring.go:31-41 | an empty ring; a non-positive count becomes 100 virtual nodes per node |
| HashRing.Ring.AddNode | internal/ring/ring.go:44-74 | a known node is an error with nothing changed; otherwise the node is recorded and its virtual nodes are added with the ring re-sorted; the invariant is kept |
| HashRing.Ring.RemoveNode | internal/ring/ring.go:77-98 | an unknown node is an error with nothing changed; otherwise its virtual nodes and its entry go, the rest in order; the invariant is kept |
| HashRing.Ring.GetPreferenceList | internal/ring/ring.go:101-134 | an empty ring is an error; otherwise the list is the specified one and has the shape above |
| HashRing.Ring.GetNodeAddress | internal/ring/ring.go:137-143 | the node's address and true, or "" and false |
| HashRing.Ring.GetNodes | internal/ring/ring.go:146-155 | a copy of the node table, which names the owner of every virtual node |
| HashRing.Ring.Size | internal/ring/ring.go:158-162 | the number of physical nodes |
| Storage.Lookup | internal/storage/storage.go:21-32 | Get answers the stored bytes and true, or no bytes and false |
| Storage.GetAfterPut | internal/storage/storage.go:21-41 | reading a key after writing it returns the written bytes |
| Storage.GetAfterDelete | internal/storage/storage.go:21-47 | reading a key after deleting it finds nothing |
| Storage.OtherKeysUnaffected | internal/storage/storage.go:34-47 | Put and Delete on one key leave every other key's answer unchanged |
| Storage.DeleteAbsent | internal/storage/storage.go:43-47 | deleting an absent key changes nothing |
| Storage.InMemory.constructor | internal/storage/storage.go:17-19 | a new store is empty |
| Storage.InMemory.Get | internal/storage/storage.go:21-32 | the answer is the lookup of the key in the store |
| Storage.InMemory.Put | internal/storage/storage.go:34-41 | never fails; the key now maps to the bytes |
| Storage.InMemory.Delete | internal/storage/storage.go:43-47 | never fails; the key is gone, nothing else changes |
| Versioned.VersionedValue.Snapshot | internal/storage/versioned.go:12-17 | the record's fields as a value |
| Versioned.VersionedValue.constructor | internal/storage/versioned.go:20-27 | the given value and clock, the current time, no tombstone |
| Versioned.Copy | internal/storage/versioned.go:30-45 | nil for nil; otherwise a fresh record with equal fields, empty exactly when the original is |
| Versioned.NewRecordEmptiness | internal/storage/versioned.go:48-50 | a new record is empty exactly when its value has no bytes |
| Versioned.IsEmpty | internal/storage/versioned.go:48-50 | a record is empty when nil or when its value has no bytes; Copy, GetVersioned and DeleteVersioned keep every record's emptiness |
| Versioned.Tombstoned | internal/storage/versioned.go:102-107 | only the tombstone of the key's record changes, and an absent key is a no-op |
| Versioned.TombstonedIdempotent | internal/storage/versioned.go:102-107 | deleting twice is deleting once |
| Versioned.PutAfterDelete | internal/storage/versioned.go:92-107 | a put after a delete stores the new record, tombstone included |
| Versioned.VersionedInMemory.Contents | internal/storage/versioned.go:63-66 | the records held, as values, under the same keys |
| Versioned.VersionedInMemory.constructor | internal/storage/versioned.go:69-73 | a new store is empty |
| Versioned.VersionedInMemory.GetVersioned | internal/storage/versioned.go:82-89 | a fresh copy of the key's record, as empty as the stored one, and true; or nil and false; the store is unchanged |
| Versioned.VersionedInMemory.PutVersioned | internal/storage/versioned.go:92-99 | nil is refused with nothing changed; otherwise a fresh copy is stored and no record is shared between keys |
| Versioned.VersionedInMemory.DeleteVersioned | internal/storage/versioned.go:102-107 | never fails; the contents become the tombstoned contents, and no record changes whether it is empty |
| Config.DefaultNodeID | internal/config/config.go:62-68 | the host name when the lookup gives a non-empty one, otherwise "node-unknown"; never empty |
| Config.Defaulted | internal/config/config.go:35-43 | a positive parameter is kept and a non-positive one takes its default, so the result is positive |
| Config.ReplicationError | internal/config/config.go:44-46 | the message starts with "unexpected replication configuration(R=", then gives R, W and N in decimal, and ends with a parenthesis |
| Config.ParseSeeds | internal/config/config.go:48-54 | the seeds are trimmed, non-empty, and no more than the pieces |
| Config.ParseSeedsStep | internal/config/config.go:49-53 | one more piece appends its trimmed text exactly when that text is not empty |
| Config.ParseSeedsBlank | internal/config/config.go:50-51 | pieces that are all white space contribute no seed |
| Config.ParseSeedsOfJoin | internal/config/config.go:47-54 | trimmed, comma-free seeds joined by commas parse back to themselves |
| Config.ParseSeedsOfTrimmed | internal/config/config.go:50-53 | trimmed non-empty pieces are kept unchanged and in order |
| Config.ParseSeedsAppend | internal/config/config.go:49-54 | parsing two runs of pieces is parsing each in turn |
| Config.Config.constructor | internal/config/config.go:11-24 | the flag values as given, no seeds parsed |
| Config.Config.ParseSeedsCSV | internal/config/config.go:47-55 | the parsed seeds are appended and no other field changes |
| Config.Config.ApplyDefaults | internal/config/config.go:28-43 | every unset field takes its default; the seeds are untouched |
| Config.Config.Validate | internal/config/config.go:27-60 | defaults applied; the error is reported exactly when R > N or W > N, with nothing parsed; otherwise the seeds are parsed and the result is a valid configuration with a non-empty node id |
| Server.Answers | internal/server/server.go:214-240 | a fan-out collects at most one answer per replica |
| Server.AnswersStep | internal/server/server.go:359-385 | visiting one more replica adds its answer, if it gives one |
| Server.AnswersPrefix | internal/server/server.go:359-362 | the answers of the first i replicas begin the answers of the whole list |
| Server.EarlyExit | internal/server/server.go:214-217 | stopping as soon as q answers are in yields exactly the first min(q, all) answers of the whole list |
| Server.Reach | internal/server/server.go:214-217 | the number of replicas a fan-out visits: it stops before the first replica at which q answers are in, or at the end of the list |
| Server.AnswersMonotone | internal/server/server.go:214-240 | the answer count never drops as more replicas are visited |
| Server.ReachUnique | internal/server/server.go:214-217 | any stopping point of the fan-out is Reach |
| Server.FanOutExit | internal/server/server.go:214-241 | a fan-out that stopped visited Reach replicas and holds the first min(q, all) answers |
| Server.ShortFanOutVisitsAll | internal/server/server.go:214-217 | when the whole list gives fewer than q answers, every replica is visited |
| Server.FanOutVisitsFirst | internal/server/server.go:214-217 | with a positive quorum, the first replica is always visited |
| Server.LocalResponse | internal/server/server.go:127-132 | the local answer reports the key found exactly when the store holds it, with its bytes |
| Server.WriteOutcome | internal/server/server.go:219-239 | a replica acknowledges a write when it is this node, or a node the ring knows that acknowledges the remote write |
| Server.ReadOutcome | internal/server/server.go:364-384 | this node answers with its local response; a known node answers found with the bytes it returns; anything else gives no answer |
| Server.WriteOutcomes | internal/server/server.go:219-239 | each replica's write outcome, in list order |
| Server.ReadOutcomes | internal/server/server.go:364-384 | each replica's read outcome, in list order |
| Server.WriteStep | internal/server/server.go:219-239 | the acknowledgement count grows by one exactly when the replica is this node, or a known node that acknowledges |
| Server.ReadStep | internal/server/server.go:364-384 | one more replica adds the local answer for this node, a found answer for a known node that replies, and nothing otherwise |
| Server.AlwaysAnswers | internal/server/server.go:364-372 | a replica that always answers contributes its answer to the full fan-out |
| Server.LocalReadCounts | internal/server/server.go:365-372 | this node's answer, found or not, is among the read answers whenever it is on the list |
| Server.LocalWriteCounts | internal/server/server.go:220-226 | this node's acknowledgement is among the write acknowledgements whenever it is on the list |
| Server.RemoteAnswersFound | internal/server/server.go:397-409 | every answer other than the local one reports the key found |
| Server.OnlyLocalAnswers | internal/server/server.go:397-399 | when no remote replica holds the key, a list with no repeats yields only the local answer |
| Server.HeaderValue | internal/server/server.go:346 | the header's value, or "" when the request does not carry it |
| Server.GetQuorumFromHeader | internal/server/server.go:345-354 | a present header whose Atoi parse is positive gives that number (so "+3" and "007" count); an absent header, a failed parse or a non-positive value gives the default |
| Server.QuorumFromPositiveHeader | internal/server/server.go:346-350 | a header holding a positive decimal integer sets the quorum to it |
| Server.QuorumIgnoresNonPositiveHeader | internal/server/server.go:349-353 | a header holding zero or a negative integer leaves the default |
| Server.FirstFound | internal/server/server.go:152-158 | the first response that found the key, or the zero response when none did |
| Server.GetReply | internal/server/server.go:133-138 | 200 with the response when it found the key, 404 otherwise |
| Server.PreferenceListError | internal/server/server.go:119-123 | 500 with "failed to get preference list for key: " and the key |
| Server.HTTPServer.constructor | internal/server/server.go:35-47 | an empty store and a ring of 20 virtual nodes per node holding only this node at its bind address |
| Server.HTTPServer.WriteReplica | internal/server/server.go:219-239 | the acknowledgement is the replica's write outcome; only this node's visit writes the local store |
| Server.HTTPServer.ReadReplica | internal/server/server.go:364-384 | the answer is the replica's read outcome |
| Server.HTTPServer.WriteVisit | internal/server/server.go:214-239 | one iteration: the count grows by the replica's acknowledgement, and the local store takes the value exactly when the replica is this node |
| Server.HTTPServer.ReadQuorumOf | internal/server/server.go:117 | the request's R: the header's positive value or the configured R, positive whenever the configured R is |
| Server.HTTPServer.WriteQuorumOf | internal/server/server.go:168 | the request's W: the header's positive value or the configured W, positive whenever the configured W is |
| Server.HTTPServer.PrefListOf | internal/server/server.go:119 | the key's list for the configured N: min(N, node count) entries, at least one, no repeats, only ring members |
| Server.HTTPServer.GetOutcome | internal/server/server.go:116-165 | what handleGet answers: 500 on an empty ring; the local answer for a one-node list or R = 1; otherwise 503 exactly when fewer than R answers exist, else the first found among the first R (200) or not found (404) |
| Server.HTTPServer.PutOutcome | internal/server/server.go:167-208 | what handlePut answers and stores: 400 for an unreadable body and 500 for an empty ring, both with the store unchanged; otherwise 200 with version {this node: 1} or 503 exactly when a fan-out gets fewer than W acknowledgements; the store takes the value on the local path, and on a fan-out exactly when this node is among the replicas visited |
| Server.HTTPServer.FailedPutKeepsLocalWrite | internal/server/server.go:198-202 | a 503 write rolls nothing back: when this node is on the list, its store keeps the value |
| Server.HTTPServer.FirstReplicaStoresLocally | internal/server/server.go:214-226 | with a positive W, a coordinator that heads the key's list always stores the value locally |
| Server.HTTPServer.WriteToNodes | internal/server/server.go:210-242 | the fan-out visits exactly Reach replicas of the list, stopping before the first at which W acknowledgements are in; the count is min(W, acknowledgements of the whole list); the local store holds the value exactly when this node is among the replicas visited |
| Server.HTTPServer.ReadFromNodes | internal/server/server.go:356-387 | the responses are the first min(R, all) answers of the list, in list order |
| Server.HTTPServer.HandleGet | internal/server/server.go:116-165 | the reply is the one GetOutcome describes, and the status is 200, 404, 500 or 503 |
| Server.HTTPServer.HandlePut | internal/server/server.go:167-208 | the reply and the new store are the ones PutOutcome describes, and the server stays valid |
| Server.HTTPServer.PutAlongList | internal/server/server.go:186-207 | with the list known: 200 with version {this node: 1}, or 503 exactly when a fan-out (list of two or more, W not 1) gets fewer than W acknowledgements; the local path stores the value, and a fan-out stores it exactly when this node is among the replicas visited |
| Server.HTTPServer.HandleDelete | internal/server/server.go:276-283 | always 204; the key is removed from the local store only |
| Server.HTTPServer.HandleKV | internal/server/server.go:96-114 | an empty key is 400; GET answers as GetOutcome describes with the store untouched; PUT answers and stores as PutOutcome describes; DELETE removes the key locally with 204; any other method is 405 with the store untouched |

## Left out

- Transport and framing are not modelled: HTTP, JSON encoding, the mux, `Start`/`Stop`,
  `handleHealth`, `handleReady` and the internal storage endpoint `handleInternalStorage`.
  The remote calls `writeToRemoteNode` and `readFromRemoteNode` are replaced by the
  `peerWrite` and `peerRead` oracles. Their contract is the one visible in the code: a
  remote read succeeds only with status 200, and then always reports the key found.
- A request is a value: the path, the method name, a map of canonical header names
  (no canonicalisation of header case), and the body. A body that cannot be read is
  `None`.
- There is no concurrency: the ring's and stores' mutexes, `LockForOperation` and the
  atomic ready flag are not modelled. Each operation runs alone.
- MD5 and its 64-bit truncation are an arbitrary hash function parameter. `time.Now` is a
  timestamp parameter. `os.Hostname` is an optional parameter, where None means the lookup
  failed.
- The ring's `ringSize` field is never read, so it is not represented.
- `sort.Slice` is not stable. The model's sort picks one order among virtual nodes at
  equal positions, so with hash collisions the preference list may differ from the source.
- `VersionedValue.Copy` calls the clock's `Copy` method, which is not among the modelled
  files. Clocks, byte slices and the version map are values in the model, so copying them
  is implicit.
- `Config.Config.Validate`: the final "node-id must be set" error is unreachable, because
  the default node id is never empty. The model proves `nodeID != ""` instead of modelling
  that branch.
- `Strconv.Atoi` assumes Go's `int` is 64 bits wide. Strings are sequences of characters
  with no encoding.
- `HashRing.Ring.AddNode`: the contract states sortedness and the multiset of virtual
  nodes, not the exact order `sort.Slice` produces.
- `VectorClock.BumpIsLater` requires the counter to be below the uint64 maximum.
  `VectorClock.BumpAtMaximumGoesBack` states what happens at the maximum.
- The logging that `writeToNodes` does with `fmt.Printf` on a failed local write, an
  unknown node and a failed remote write (server.go:224, 232, 238) is output only, and is
  not modelled.
- `VectorClock.VectorClock.Bump`: nil clocks are not represented, because a clock is a
  map value. In the source, Bump on a nil clock panics (an assignment to an entry of a nil
  map). No modelled caller bumps a nil clock. Compare treats nil as the empty clock, and so
  does the model.
- `pkg/api`'s `Versions` field of the read answer, the replication request types,
  `internal/membership` and `cmd/dhtnode/main.go` are not part of this model.
- The source's error branches for a failing local `Put` or `Delete` are kept. They are
  unreachable, because the in-memory store never fails.
