/** The quorum coordinator of internal/server/server.go. A key's preference list
    comes from the ring; reads and writes fan out along it, stopping as soon as
    R answers (reads) or W acknowledgements (writes) are in, and the HTTP
    handlers turn the outcome into a status code. The coordinator's own replica
    is the plain in-memory store; every other replica is reached over HTTP,
    which the model replaces by oracles: `peerWrite(n)` says whether node n
    acknowledges a write, `peerRead(n)` the bytes node n returns with a 200
    answer to a read (None for any failure, and for the 404 a replica without
    the key gives, which the coordinator also treats as a failure). Requests are
    values: the key, the method name, the headers and the body. */
module Server {
  import opened Base
  import opened Strconv
  import opened HashRing
  import opened Storage
  import opened Config
  import opened Api

  const ReadConsistencyHeader: string := "X-Consistency-R"
  const WriteConsistencyHeader: string := "X-Consistency-W"

  /** Virtual nodes per physical node in the coordinator's ring. */
  const ServerVnodeCount: int := 20

  // The messages of the `{"error": ...}` bodies.
  const BodyReadMessage: string := "failed to read request body"
  const PreferenceListMessage: string := "failed to get preference list for key: "
  const InsufficientWriteMessage: string := "insufficient replicas available for write quorum for key: "
  const StoreFailedMessage: string := "failed to store value"
  const DeleteFailedMessage: string := "failed to delete key"
  const EmptyKeyMessage: string := "key cannot be empty"
  const MethodNotAllowedMessage: string := "method not allowed: "

  const StatusOK: int := 200
  const StatusNoContent: int := 204
  const StatusBadRequest: int := 400
  const StatusNotFound: int := 404
  const StatusMethodNotAllowed: int := 405
  const StatusInternalServerError: int := 500
  const StatusServiceUnavailable: int := 503

  /** A response body: a read answer, a write answer, an `{"error": message}` object, or nothing. */
  datatype Body = GetBody(get: GetResponse) | PutBody(put: PutResponse) | ErrorBody(message: string) | NoBody

  datatype Reply = Reply(status: int, body: Body)

  function Min(a: int, b: int): int { if a <= b then a else b }
  function Max(a: int, b: int): int { if a >= b then a else b }

  // ---------------------------------------------------------------------------
  // Early-exit fan-out: the answers collected from a sequence of per-replica outcomes

  /** The answers among the outcomes, in order. */
  function Answers<T>(os: seq<Option<T>>): (r: seq<T>)
    ensures |r| <= |os|
  {
    if os == [] then []
    else
      var last := os[|os| - 1];
      Answers(os[..|os| - 1]) + (if last.Some? then [last.value] else [])
  }

  /** Visiting one more replica adds its answer, if it gave one. */
  lemma AnswersStep<T>(os: seq<Option<T>>, i: nat)
    requires i < |os|
    ensures Answers(os[..i + 1]) == Answers(os[..i]) + (if os[i].Some? then [os[i].value] else [])
  {
    assert os[..i + 1][..i] == os[..i];
  }

  /** The answers of the first i replicas begin the answers of all of them. */
  lemma {:induction false} AnswersPrefix<T>(os: seq<Option<T>>, i: nat)
    requires i <= |os|
    ensures Answers(os[..i]) <= Answers(os)
    decreases |os|
  {
    if i < |os| {
      var init := os[..|os| - 1];
      assert init[..i] == os[..i];
      AnswersPrefix(init, i);
    } else {
      assert os[..i] == os;
    }
  }

  /** A walk that stops before replica i, with fewer than q answers before its last
      step and at least q when it stopped (or at the end of the list), has collected
      exactly the first min(q, all) answers. */
  lemma EarlyExit<T>(os: seq<Option<T>>, i: nat, q: int)
    requires i <= |os|
    requires i == 0 || |Answers(os[..i - 1])| < q
    requires i == |os| || |Answers(os[..i])| >= q
    ensures Answers(os[..i]) == Answers(os)[..Min(Max(q, 0), |Answers(os)|)]
  {
    AnswersPrefix(os, i);
    var a := Answers(os[..i]);
    var all := Answers(os);
    if i > 0 {
      AnswersStep(os, i - 1);
      assert |a| <= q;
    }
    if i == |os| {
      assert os[..i] == os;
    }
    assert a == all[..|a|];
  }

  /** How many replicas a fan-out with quorum q visits: it stops before the first
      replica at which q answers are already in, or at the end of the list. */
  function Reach<T>(os: seq<Option<T>>, q: int): (i: nat)
    ensures i <= |os|
    ensures i == 0 || |Answers(os[..i - 1])| < q
    ensures i == |os| || |Answers(os[..i])| >= q
  {
    if os == [] then 0
    else
      var init := os[..|os| - 1];
      var r := Reach(init, q);
      assert init[..r] == os[..r];
      assert r > 0 ==> init[..r - 1] == os[..r - 1];
      if r < |init| || |Answers(init)| >= q then r else |os|
  }

  /** The answer count never drops as the fan-out visits more replicas. */
  lemma AnswersMonotone<T>(os: seq<Option<T>>, i: nat, j: nat)
    requires i <= j <= |os|
    ensures |Answers(os[..i])| <= |Answers(os[..j])|
  {
    assert os[..j][..i] == os[..i];
    AnswersPrefix(os[..j], i);
  }

  /** A stopping point of the fan-out is unique: it is Reach. */
  lemma ReachUnique<T>(os: seq<Option<T>>, q: int, i: nat)
    requires i <= |os|
    requires i == 0 || |Answers(os[..i - 1])| < q
    requires i == |os| || |Answers(os[..i])| >= q
    ensures i == Reach(os, q)
  {
    var r := Reach(os, q);
    if i < r {
      AnswersMonotone(os, i, r - 1);
    } else if r < i {
      AnswersMonotone(os, r, i - 1);
    }
  }

  /** Where a fan-out that stopped at i stands: it visited Reach replicas and holds
      the first min(q, all) answers. */
  lemma FanOutExit<T>(os: seq<Option<T>>, i: nat, q: int)
    requires i <= |os|
    requires i == 0 || |Answers(os[..i - 1])| < q
    requires i == |os| || |Answers(os[..i])| >= q
    ensures i == Reach(os, q)
    ensures Answers(os[..i]) == Answers(os)[..Min(Max(q, 0), |Answers(os)|)]
  {
    EarlyExit(os, i, q);
    ReachUnique(os, q, i);
  }

  /** A fan-out whose whole list gives fewer than q answers visits every replica. */
  lemma ShortFanOutVisitsAll<T>(os: seq<Option<T>>, q: int)
    requires |Answers(os)| < q
    ensures Reach(os, q) == |os|
  {
    assert os[..|os|] == os;
    AnswersMonotone(os, Reach(os, q), |os|);
  }

  /** A fan-out with a positive quorum visits at least the first replica. */
  lemma FanOutVisitsFirst<T>(os: seq<Option<T>>, q: int)
    requires q > 0 && |os| > 0
    ensures Reach(os, q) >= 1
  {
    assert os[..0] == [];
  }

  // ---------------------------------------------------------------------------
  // Per-replica outcomes

  /** The answer the coordinator's own replica gives to a read of `key`. */
  function LocalResponse(data: map<string, Bytes>, key: string): (r: GetResponse)
    ensures r.key == key && (r.found <==> key in data)
    ensures r.found ==> r.value == data[key]
  {
    var (value, found) := Lookup(data, key);
    GetResponse(key, value, found)
  }

  /** Whether replica n acknowledges a write: the local replica always does (its
      store never fails); another node only if the ring knows it and it acknowledges. */
  function WriteOutcome(n: NodeID, self: NodeID, nodes: map<NodeID, string>, peerWrite: NodeID -> bool): (o: Option<NodeID>)
    ensures o.Some? ==> o.value == n
    ensures n == self ==> o.Some?
    ensures n != self && n !in nodes ==> o.None?
  {
    if n == self || (n in nodes && peerWrite(n)) then Some(n) else None
  }

  function WriteOutcomes(ps: seq<NodeID>, self: NodeID, nodes: map<NodeID, string>,
                         peerWrite: NodeID -> bool): (os: seq<Option<NodeID>>)
    ensures |os| == |ps| && forall j :: 0 <= j < |ps| ==> os[j] == WriteOutcome(ps[j], self, nodes, peerWrite)
  {
    seq(|ps|, j requires 0 <= j < |ps| => WriteOutcome(ps[j], self, nodes, peerWrite))
  }

  /** What replica n answers to a read of `key`: the local replica always answers,
      found or not; another node answers only with a hit, and a node the ring does
      not know, or a failed request, gives nothing. */
  function ReadOutcome(key: string, n: NodeID, self: NodeID, nodes: map<NodeID, string>, local: GetResponse,
                       peerRead: NodeID -> Option<Bytes>): (o: Option<GetResponse>)
    ensures n == self ==> o == Some(local)
    ensures n != self && o.Some? ==> o.value.found && o.value.key == key && n in nodes
    ensures n != self && n !in nodes ==> o.None?
  {
    if n == self then Some(local)
    else if n in nodes && peerRead(n).Some? then Some(GetResponse(key, peerRead(n).value, true))
    else None
  }

  function ReadOutcomes(key: string, ps: seq<NodeID>, self: NodeID, nodes: map<NodeID, string>, local: GetResponse,
                        peerRead: NodeID -> Option<Bytes>): (os: seq<Option<GetResponse>>)
    ensures |os| == |ps|
    ensures forall j :: 0 <= j < |ps| ==> os[j] == ReadOutcome(key, ps[j], self, nodes, local, peerRead)
  {
    seq(|ps|, j requires 0 <= j < |ps| => ReadOutcome(key, ps[j], self, nodes, local, peerRead))
  }

  /** One more replica in a write fan-out adds one acknowledgement exactly when it acknowledges. */
  lemma WriteStep(ps: seq<NodeID>, self: NodeID, nodes: map<NodeID, string>, peerWrite: NodeID -> bool, i: nat)
    requires i < |ps|
    ensures var os := WriteOutcomes(ps, self, nodes, peerWrite);
            |Answers(os[..i + 1])|
            == |Answers(os[..i])| + (if ps[i] == self || (ps[i] in nodes && peerWrite(ps[i])) then 1 else 0)
    ensures self in ps[..i + 1] <==> self in ps[..i] || ps[i] == self
  {
    AnswersStep(WriteOutcomes(ps, self, nodes, peerWrite), i);
    assert ps[..i + 1] == ps[..i] + [ps[i]];
  }

  /** One more replica in a read fan-out adds its answer, if it gives one. */
  lemma ReadStep(key: string, ps: seq<NodeID>, self: NodeID, nodes: map<NodeID, string>, local: GetResponse,
                 peerRead: NodeID -> Option<Bytes>, i: nat)
    requires i < |ps|
    ensures var os := ReadOutcomes(key, ps, self, nodes, local, peerRead);
            Answers(os[..i + 1])
            == Answers(os[..i]) + (if ps[i] == self then [local]
                                   else if ps[i] in nodes && peerRead(ps[i]).Some?
                                   then [GetResponse(key, peerRead(ps[i]).value, true)]
                                   else [])
  {
    AnswersStep(ReadOutcomes(key, ps, self, nodes, local, peerRead), i);
  }

  /** A replica that always answers contributes its answer to the full fan-out. */
  lemma {:induction false} AlwaysAnswers<T>(os: seq<Option<T>>, j: nat)
    requires j < |os| && os[j].Some?
    ensures os[j].value in Answers(os)
  {
    AnswersStep(os, j);
    AnswersPrefix(os, j + 1);
    var a := Answers(os[..j + 1]);
    assert a[|a| - 1] == os[j].value;
    assert Answers(os)[|a| - 1] == a[|a| - 1];
  }

  /** The local replica's answer is among the read answers whenever it is on the list. */
  lemma LocalReadCounts(key: string, ps: seq<NodeID>, self: NodeID, nodes: map<NodeID, string>,
                        local: GetResponse, peerRead: NodeID -> Option<Bytes>)
    requires self in ps
    ensures local in Answers(ReadOutcomes(key, ps, self, nodes, local, peerRead))
  {
    var j :| 0 <= j < |ps| && ps[j] == self;
    AlwaysAnswers(ReadOutcomes(key, ps, self, nodes, local, peerRead), j);
  }

  /** Every answer but the local one reports the key found. */
  lemma {:induction false} RemoteAnswersFound(key: string, ps: seq<NodeID>, self: NodeID, nodes: map<NodeID, string>,
                                              local: GetResponse, peerRead: NodeID -> Option<Bytes>)
    ensures forall r :: r in Answers(ReadOutcomes(key, ps, self, nodes, local, peerRead)) && r != local ==>
              r.found && r.key == key
  {
    if ps != [] {
      var init := ps[..|ps| - 1];
      assert ReadOutcomes(key, ps, self, nodes, local, peerRead)[..|ps| - 1]
             == ReadOutcomes(key, init, self, nodes, local, peerRead);
      RemoteAnswersFound(key, init, self, nodes, local, peerRead);
    }
  }

  /** When no remote replica returns the key, a list on which this node appears at
      most once yields at most one answer: a key missing on every remote replica
      cannot reach a read quorum of two or more. */
  lemma {:induction false} OnlyLocalAnswers(key: string, ps: seq<NodeID>, self: NodeID, nodes: map<NodeID, string>,
                                            local: GetResponse, peerRead: NodeID -> Option<Bytes>)
    requires forall n :: n != self ==> peerRead(n).None?
    requires Distinct(ps)
    ensures |Answers(ReadOutcomes(key, ps, self, nodes, local, peerRead))| == if self in ps then 1 else 0
  {
    if ps != [] {
      var init := ps[..|ps| - 1];
      assert ReadOutcomes(key, ps, self, nodes, local, peerRead)[..|ps| - 1]
             == ReadOutcomes(key, init, self, nodes, local, peerRead);
      assert ps == init + [ps[|ps| - 1]];
      assert Distinct(init);
      OnlyLocalAnswers(key, init, self, nodes, local, peerRead);
    }
  }

  /** The local replica's acknowledgement is among the write acknowledgements whenever it is on the list. */
  lemma LocalWriteCounts(ps: seq<NodeID>, self: NodeID, nodes: map<NodeID, string>, peerWrite: NodeID -> bool)
    requires self in ps
    ensures self in Answers(WriteOutcomes(ps, self, nodes, peerWrite))
  {
    var j :| 0 <= j < |ps| && ps[j] == self;
    AlwaysAnswers(WriteOutcomes(ps, self, nodes, peerWrite), j);
  }

  // ---------------------------------------------------------------------------
  // Quorum headers

  /** http.Header.Get: the header's value, or "" when it is absent. */
  function HeaderValue(headers: map<string, string>, name: string): (v: string)
    ensures name in headers ==> v == headers[name]
    ensures v != "" ==> name in headers
  {
    if name in headers then headers[name] else ""
  }

  /** getQuorumFromHeader: the header's value when it is a positive decimal integer, else the default. */
  function GetQuorumFromHeader(headers: map<string, string>, name: string, default: int): (q: int)
    ensures q == default || q > 0
    ensures HeaderValue(headers, name) == "" ==> q == default
    ensures q != default ==> Atoi(HeaderValue(headers, name)) == Some(q)
    ensures var v := HeaderValue(headers, name);
            v != "" && Atoi(v).Some? && Atoi(v).value > 0 ==> q == Atoi(v).value
    ensures var v := HeaderValue(headers, name);
            v == "" || Atoi(v).None? || Atoi(v).value <= 0 ==> q == default
  {
    var v := HeaderValue(headers, name);
    if v != "" && Atoi(v).Some? && Atoi(v).value > 0 then Atoi(v).value else default
  }

  /** A header holding a positive integer in decimal sets the quorum to that integer. */
  lemma QuorumFromPositiveHeader(headers: map<string, string>, name: string, default: int, n: int)
    requires 0 < n <= MaxInt64
    ensures GetQuorumFromHeader(headers[name := IntToDecimal(n)], name, default) == n
  {
    AtoiOfDecimal(n);
  }

  /** A header holding zero or a negative integer leaves the default in place. */
  lemma QuorumIgnoresNonPositiveHeader(headers: map<string, string>, name: string, default: int, n: int)
    requires MinInt64 <= n <= 0
    ensures GetQuorumFromHeader(headers[name := IntToDecimal(n)], name, default) == default
  {
    AtoiOfDecimal(n);
  }

  // ---------------------------------------------------------------------------
  // Choosing the answer of a quorum read

  /** `r` is what a quorum read returns from `responses`: the first response that
      found the key, or Go's zero response when none did. */
  predicate IsFirstFound(responses: seq<GetResponse>, r: GetResponse) {
    if exists i :: 0 <= i < |responses| && responses[i].found then
      exists i :: 0 <= i < |responses| && responses[i] == r && r.found
                  && forall j :: 0 <= j < i ==> !responses[j].found
    else
      r == ZeroGetResponse
  }

  /** handleGet's scan of the quorum's answers for the first that found the key. */
  method FirstFound(responses: seq<GetResponse>) returns (r: GetResponse)
    ensures IsFirstFound(responses, r)
    ensures r.found <==> exists i :: 0 <= i < |responses| && responses[i].found
    ensures r.found ==> r in responses
  {
    var i := 0;
    while i < |responses|
      invariant 0 <= i <= |responses|
      invariant forall j :: 0 <= j < i ==> !responses[j].found
    {
      if responses[i].found {
        return responses[i];
      }
      i := i + 1;
    }
    return ZeroGetResponse;
  }

  /** The reply to a read answered by `resp`: 200 when it found the key, 404 otherwise. */
  function GetReply(resp: GetResponse): (reply: Reply)
    ensures reply.body == GetBody(resp)
    ensures reply.status == StatusOK <==> resp.found
    ensures reply.status == StatusOK || reply.status == StatusNotFound
  {
    Reply(if resp.found then StatusOK else StatusNotFound, GetBody(resp))
  }

  function PreferenceListError(key: string): (r: Reply)
    ensures r.status == StatusInternalServerError && r.body.ErrorBody?
    ensures |r.body.message| == |PreferenceListMessage| + |key|
    ensures r.body.message[|PreferenceListMessage|..] == key
  {
    Reply(StatusInternalServerError, ErrorBody(PreferenceListMessage + key))
  }

  class HTTPServer {
    const cfg: Config
    const store: InMemory
    const ring: Ring

    ghost predicate Valid()
      reads this, ring
    {
      ring.Valid()
    }

    /** NewHTTPServer: an empty store and a ring of 20 virtual nodes per node holding
        only this node, at its bind address. */
    constructor (cfg: Config, hash: string -> Uint64)
      ensures Valid() && this.cfg == cfg && fresh(store) && fresh(ring)
      ensures store.data == map[]
      ensures ring.nodes == map[cfg.nodeID := cfg.bindAddr] && ring.hash == hash
      ensures ring.vnodeCount == ServerVnodeCount
    {
      var r := new Ring(ServerVnodeCount, hash);
      var _ := r.AddNode(cfg.nodeID, cfg.bindAddr);
      this.cfg := cfg;
      this.store := new InMemory();
      this.ring := r;
    }

    /** Whether each replica on the list would acknowledge a write. */
    ghost function WriteOutcomesOf(prefList: seq<NodeID>, peerWrite: NodeID -> bool): seq<Option<NodeID>>
      reads this, cfg, ring
    {
      WriteOutcomes(prefList, cfg.nodeID, ring.nodes, peerWrite)
    }

    /** The acknowledgements the whole list would give to a write. */
    ghost function WriteAcks(prefList: seq<NodeID>, peerWrite: NodeID -> bool): seq<NodeID>
      reads this, cfg, ring
    {
      Answers(WriteOutcomesOf(prefList, peerWrite))
    }

    /** The answers the whole list would give to a read of `key`. */
    ghost function ReadAnswers(key: string, prefList: seq<NodeID>, peerRead: NodeID -> Option<Bytes>): seq<GetResponse>
      reads this, cfg, ring, store
    {
      Answers(ReadOutcomes(key, prefList, cfg.nodeID, ring.nodes, LocalResponse(store.data, key), peerRead))
    }

    /** One step of writeToNodes: this node stores the value in its own store; another
        node is looked up in the ring and, when known, sent the write. */
    method WriteReplica(key: string, value: Bytes, nodeID: NodeID, peerWrite: NodeID -> bool) returns (acked: bool)
      modifies store
      ensures WriteOutcome(nodeID, cfg.nodeID, ring.nodes, peerWrite) == if acked then Some(nodeID) else None
      ensures store.data == if nodeID == cfg.nodeID then old(store.data)[key := value] else old(store.data)
    {
      if nodeID == cfg.nodeID {
        var err := store.Put(key, value);
        return err == None;
      }
      var (_, known) := ring.GetNodeAddress(nodeID);
      if !known {
        return false;
      }
      acked := peerWrite(nodeID);
    }

    /** One step of readFromNodes: this node answers from its own store; another node
        is looked up in the ring and, when known, asked. */
    method ReadReplica(key: string, nodeID: NodeID, peerRead: NodeID -> Option<Bytes>) returns (resp: Option<GetResponse>)
      ensures resp == ReadOutcome(key, nodeID, cfg.nodeID, ring.nodes, LocalResponse(store.data, key), peerRead)
    {
      if nodeID == cfg.nodeID {
        var value, found := store.Get(key);
        return Some(GetResponse(key, value, found));
      }
      var (_, known) := ring.GetNodeAddress(nodeID);
      if !known {
        return None;
      }
      var answer := peerRead(nodeID);
      if answer.None? {
        return None;
      }
      resp := Some(GetResponse(key, answer.value, true));
    }

    /** One iteration of writeToNodes' loop: visit replica i and count its acknowledgement. */
    method WriteVisit(key: string, value: Bytes, prefList: seq<NodeID>, i: nat, peerWrite: NodeID -> bool,
                      ghost os: seq<Option<NodeID>>, count: int) returns (count': int)
      requires i < |prefList| && os == WriteOutcomes(prefList, cfg.nodeID, ring.nodes, peerWrite)
      requires count == |Answers(os[..i])|
      modifies store
      ensures count' == |Answers(os[..i + 1])|
      ensures cfg.nodeID in prefList[..i + 1] <==> cfg.nodeID in prefList[..i] || prefList[i] == cfg.nodeID
      ensures store.data == if prefList[i] == cfg.nodeID then old(store.data)[key := value] else old(store.data)
    {
      WriteStep(prefList, cfg.nodeID, ring.nodes, peerWrite, i);
      var acked := WriteReplica(key, value, prefList[i], peerWrite);
      count' := if acked then count + 1 else count;
    }

    /** writeToNodes: visits the list in order while fewer than W replicas have
        acknowledged, writing locally for this node and asking the others. Returns
        min(W, acknowledgements of the whole list) (0 when W <= 0), the acknowledgements
        of the `contacted` replicas visited, which is Reach: every one of them was visited
        while fewer than W had acknowledged. The local store takes the value exactly when
        this node is among them. */
    method WriteToNodes(key: string, value: Bytes, prefList: seq<NodeID>, writeQuorum: int,
                        peerWrite: NodeID -> bool) returns (successCount: int, ghost contacted: nat)
      modifies store
      ensures successCount == Min(Max(writeQuorum, 0), |old(WriteAcks(prefList, peerWrite))|)
      ensures contacted == Reach(old(WriteOutcomesOf(prefList, peerWrite)), writeQuorum)
      ensures successCount == |Answers(old(WriteOutcomesOf(prefList, peerWrite))[..contacted])|
      ensures store.data == if old(cfg.nodeID) in prefList[..contacted] then old(store.data)[key := value]
                            else old(store.data)
    {
      var self := cfg.nodeID;
      ghost var os := WriteOutcomes(prefList, self, ring.nodes, peerWrite);
      ghost var before := store.data;
      successCount := 0;
      var i := 0;
      while i < |prefList| && successCount < writeQuorum
        invariant 0 <= i <= |prefList|
        invariant successCount == |Answers(os[..i])|
        invariant i > 0 ==> |Answers(os[..i - 1])| < writeQuorum
        invariant store.data == if self in prefList[..i] then before[key := value] else before
      {
        successCount := WriteVisit(key, value, prefList, i, peerWrite, os, successCount);
        i := i + 1;
      }
      contacted := i;
      FanOutExit(os, i, writeQuorum);
    }

    /** readFromNodes: the first min(R, all) answers of the list, in list order (none
        when R <= 0). The local replica answers even when it does not hold the key. */
    method ReadFromNodes(key: string, prefList: seq<NodeID>, readQuorum: int,
                         peerRead: NodeID -> Option<Bytes>) returns (responses: seq<GetResponse>)
      ensures responses == ReadAnswers(key, prefList, peerRead)[..Min(Max(readQuorum, 0), |ReadAnswers(key, prefList, peerRead)|)]
      ensures |responses| <= Max(readQuorum, 0)
    {
      var self := cfg.nodeID;
      ghost var local := LocalResponse(store.data, key);
      ghost var os := ReadOutcomes(key, prefList, self, ring.nodes, local, peerRead);
      responses := [];
      var i := 0;
      while i < |prefList|
        invariant 0 <= i <= |prefList|
        invariant responses == Answers(os[..i])
        invariant i > 0 ==> |Answers(os[..i - 1])| < readQuorum
      {
        if |responses| >= readQuorum {
          break;
        }
        ReadStep(key, prefList, self, ring.nodes, local, peerRead, i);
        var resp := ReadReplica(key, prefList[i], peerRead);
        if resp.Some? {
          responses := responses + [resp.value];
        }
        i := i + 1;
      }
      EarlyExit(os, i, readQuorum);
    }

    /** The read quorum of a request: the X-Consistency-R header, else the configured R. */
    function ReadQuorumOf(headers: map<string, string>): (q: int)
      reads this, cfg
      ensures q == cfg.readQuorum || q > 0
      ensures cfg.readQuorum > 0 ==> q > 0
    {
      GetQuorumFromHeader(headers, ReadConsistencyHeader, cfg.readQuorum)
    }

    /** The write quorum of a request: the X-Consistency-W header, else the configured W. */
    function WriteQuorumOf(headers: map<string, string>): (q: int)
      reads this, cfg
      ensures q == cfg.writeQuorum || q > 0
      ensures cfg.writeQuorum > 0 ==> q > 0
    {
      GetQuorumFromHeader(headers, WriteConsistencyHeader, cfg.writeQuorum)
    }

    /** The key's preference list for the configured replication factor. */
    function PrefListOf(key: string): (pl: seq<NodeID>)
      requires Valid() && |ring.vnodes| > 0
      reads this, cfg, ring
      ensures |pl| == ClampReplicas(cfg.replicationFactor, |ring.nodes|) && |pl| > 0
      ensures Distinct(pl) && forall x :: x in pl ==> x in ring.nodes
    {
      ring.PreferenceList(key, cfg.replicationFactor)
    }

    /** The answers a quorum read of `key` collects from the whole list: the first R. */
    ghost function QuorumAnswers(key: string, prefList: seq<NodeID>, readQuorum: int,
                                 peerRead: NodeID -> Option<Bytes>): seq<GetResponse>
      reads this, cfg, ring, store
    {
      var all := ReadAnswers(key, prefList, peerRead);
      all[..Min(Max(readQuorum, 0), |all|)]
    }

    /** What handleGet answers for `key`. An empty ring is an internal error. A one-node
        list or R = 1 reads only the local store. Otherwise fewer than R answers is 503,
        and with R answers the reply is the first of them that found the key (200), or
        not found (404). */
    ghost predicate GetOutcome(key: string, headers: map<string, string>, peerRead: NodeID -> Option<Bytes>,
                               reply: Reply)
      requires Valid()
      reads this, cfg, ring, store
    {
      && (|ring.vnodes| == 0 ==> reply == PreferenceListError(key))
      && (|ring.vnodes| > 0 ==>
            var pl := PrefListOf(key);
            var r := ReadQuorumOf(headers);
            && (|pl| == 1 || r == 1 ==> reply == GetReply(LocalResponse(store.data, key)))
            && (|pl| != 1 && r != 1 ==>
                  (reply.status == StatusServiceUnavailable <==> |ReadAnswers(key, pl, peerRead)| < r))
            && (|pl| != 1 && r != 1 && |ReadAnswers(key, pl, peerRead)| >= r ==>
                  reply.body.GetBody? && reply == GetReply(reply.body.get)
                  && IsFirstFound(QuorumAnswers(key, pl, r, peerRead), reply.body.get)))
    }

    /** What handlePut answers for `key`, and the local store's contents `after` it given
        those `before`. `body` is None when the request body cannot be read (400). An
        empty ring is an internal error. A one-node list or W = 1 writes only the local
        store. Otherwise the write fans out and succeeds when W replicas acknowledge; the
        local store changes exactly when this node is among the replicas visited before W
        acknowledgements were in. Every success answers with the version {this node: 1}. */
    ghost predicate PutOutcome(key: string, headers: map<string, string>, body: Option<Bytes>,
                               peerWrite: NodeID -> bool, before: map<string, Bytes>,
                               after: map<string, Bytes>, reply: Reply)
      requires Valid()
      reads this, cfg, ring
    {
      && (body.None? ==> reply == Reply(StatusBadRequest, ErrorBody(BodyReadMessage)) && after == before)
      && (body.Some? && |ring.vnodes| == 0 ==> reply == PreferenceListError(key) && after == before)
      && (body.Some? && |ring.vnodes| > 0 ==>
            var pl := PrefListOf(key);
            var w := WriteQuorumOf(headers);
            && (reply.status == StatusOK || reply.status == StatusServiceUnavailable)
            && (reply.status == StatusOK ==> reply.body == PutBody(PutResponse(map[cfg.nodeID := 1])))
            && (reply.status == StatusServiceUnavailable <==>
                  |pl| != 1 && w != 1 && |WriteAcks(pl, peerWrite)| < w)
            && (|pl| == 1 || w == 1 ==> after == before[key := body.value])
            && (|pl| != 1 && w != 1 ==>
                  after == if cfg.nodeID in pl[..Reach(WriteOutcomesOf(pl, peerWrite), w)]
                           then before[key := body.value] else before))
    }

    /** A write that fails its quorum (503) rolls nothing back: when this node is on
        the list, its store keeps the new value. */
    lemma FailedPutKeepsLocalWrite(key: string, headers: map<string, string>, body: Option<Bytes>,
                                   peerWrite: NodeID -> bool, before: map<string, Bytes>,
                                   after: map<string, Bytes>, reply: Reply)
      requires Valid() && |ring.vnodes| > 0 && body.Some?
      requires PutOutcome(key, headers, body, peerWrite, before, after, reply)
      requires reply.status == StatusServiceUnavailable && cfg.nodeID in PrefListOf(key)
      ensures after == before[key := body.value]
    {
      var pl := PrefListOf(key);
      var os := WriteOutcomesOf(pl, peerWrite);
      ShortFanOutVisitsAll(os, WriteQuorumOf(headers));
      assert pl[..|pl|] == pl;
    }

    /** With a positive write quorum, a coordinator that heads the key's preference list
        always stores the value locally, whatever the reply. */
    lemma FirstReplicaStoresLocally(key: string, headers: map<string, string>, body: Option<Bytes>,
                                    peerWrite: NodeID -> bool, before: map<string, Bytes>,
                                    after: map<string, Bytes>, reply: Reply)
      requires Valid() && |ring.vnodes| > 0 && body.Some? && WriteQuorumOf(headers) > 0
      requires PutOutcome(key, headers, body, peerWrite, before, after, reply)
      requires PrefListOf(key)[0] == cfg.nodeID
      ensures after == before[key := body.value]
    {
      var pl := PrefListOf(key);
      var w := WriteQuorumOf(headers);
      if |pl| != 1 && w != 1 {
        FanOutVisitsFirst(WriteOutcomesOf(pl, peerWrite), w);
        assert pl[0] in pl[..Reach(WriteOutcomesOf(pl, peerWrite), w)];
      }
    }

    /** handleGet: the reply is GetOutcome's; the store is not changed. */
    method HandleGet(key: string, headers: map<string, string>, peerRead: NodeID -> Option<Bytes>)
      returns (reply: Reply)
      requires Valid()
      ensures GetOutcome(key, headers, peerRead, reply)
      ensures reply.status in {StatusOK, StatusNotFound, StatusInternalServerError, StatusServiceUnavailable}
    {
      var readQuorum := GetQuorumFromHeader(headers, ReadConsistencyHeader, cfg.readQuorum);
      var preferenceList, err := ring.GetPreferenceList(key, cfg.replicationFactor);
      if err.Some? {
        return PreferenceListError(key);
      }
      if |preferenceList| == 1 || readQuorum == 1 {
        var value, found := store.Get(key);
        return GetReply(GetResponse(key, value, found));
      }
      var responses := ReadFromNodes(key, preferenceList, readQuorum, peerRead);
      if |responses| < readQuorum {
        var message := "expected " + IntToDecimal(readQuorum) + " replicas, got " + IntToDecimal(|responses|);
        return Reply(StatusServiceUnavailable, ErrorBody(message));
      }
      var response := FirstFound(responses);
      reply := GetReply(response);
    }

    /** handlePut: the reply and the new store are PutOutcome's. */
    method HandlePut(key: string, headers: map<string, string>, body: Option<Bytes>, peerWrite: NodeID -> bool)
      returns (reply: Reply)
      requires Valid()
      modifies store
      ensures Valid()
      ensures PutOutcome(key, headers, body, peerWrite, old(store.data), store.data, reply)
    {
      var writeQuorum := GetQuorumFromHeader(headers, WriteConsistencyHeader, cfg.writeQuorum);
      if body.None? {
        reply := Reply(StatusBadRequest, ErrorBody(BodyReadMessage));
      } else {
        var preferenceList, err := ring.GetPreferenceList(key, cfg.replicationFactor);
        if err.Some? {
          reply := PreferenceListError(key);
        } else {
          reply := PutAlongList(key, body.value, preferenceList, writeQuorum, peerWrite);
        }
      }
    }

    /** handlePut once the preference list is known: a one-node list or W = 1 writes
        locally; otherwise the write fans out and fails with 503 below W
        acknowledgements. Success carries the version {this node: 1}. */
    method PutAlongList(key: string, value: Bytes, pl: seq<NodeID>, w: int, peerWrite: NodeID -> bool)
      returns (reply: Reply)
      modifies store
      ensures reply.status == StatusOK || reply.status == StatusServiceUnavailable
      ensures reply.status == StatusOK ==> reply.body == PutBody(PutResponse(map[cfg.nodeID := 1]))
      ensures reply.status == StatusServiceUnavailable <==>
                |pl| != 1 && w != 1 && |old(WriteAcks(pl, peerWrite))| < w
      ensures |pl| == 1 || w == 1 ==> store.data == old(store.data)[key := value]
      ensures |pl| != 1 && w != 1 ==>
                store.data == if cfg.nodeID in pl[..Reach(old(WriteOutcomesOf(pl, peerWrite)), w)]
                              then old(store.data)[key := value] else old(store.data)
    {
      var version := map[cfg.nodeID := 1];
      if |pl| == 1 || w == 1 {
        var putErr := store.Put(key, value);
        if putErr.Some? {
          reply := Reply(StatusInternalServerError, ErrorBody(StoreFailedMessage));
        } else {
          reply := Reply(StatusOK, PutBody(PutResponse(version)));
        }
      } else {
        var successCount, contacted := WriteToNodes(key, value, pl, w, peerWrite);
        if successCount < w {
          reply := Reply(StatusServiceUnavailable, ErrorBody(InsufficientWriteMessage + key));
        } else {
          reply := Reply(StatusOK, PutBody(PutResponse(version)));
        }
      }
    }

    /** handleDelete: removes the key from the local store only; always 204. */
    method HandleDelete(key: string) returns (reply: Reply)
      modifies store
      ensures reply == Reply(StatusNoContent, NoBody)
      ensures store.data == old(store.data) - {key}
    {
      var err := store.Delete(key);
      if err.Some? {
        return Reply(StatusInternalServerError, ErrorBody(DeleteFailedMessage));
      }
      reply := Reply(StatusNoContent, NoBody);
    }

    /** handleKV: the key is the request path after "/kv/"; an empty key is a bad
        request, GET, PUT and DELETE go to their handlers, any other method is refused. */
    method HandleKV(path: string, httpMethod: string, headers: map<string, string>, body: Option<Bytes>,
                    peerRead: NodeID -> Option<Bytes>, peerWrite: NodeID -> bool)
      returns (reply: Reply)
      requires Valid()
      requires |path| >= 4 && path[..4] == "/kv/"
      modifies store
      ensures path[4..] == "" ==>
                reply == Reply(StatusBadRequest, ErrorBody(EmptyKeyMessage)) && store.data == old(store.data)
      ensures path[4..] != "" && httpMethod !in {"GET", "PUT", "DELETE"} ==>
                reply == Reply(StatusMethodNotAllowed, ErrorBody(MethodNotAllowedMessage + httpMethod))
                && store.data == old(store.data)
      ensures Valid()
      ensures path[4..] != "" && httpMethod == "GET" ==>
                store.data == old(store.data) && GetOutcome(path[4..], headers, peerRead, reply)
      ensures path[4..] != "" && httpMethod == "PUT" ==>
                PutOutcome(path[4..], headers, body, peerWrite, old(store.data), store.data, reply)
      ensures path[4..] != "" && httpMethod == "DELETE" ==>
                reply.status == StatusNoContent && store.data == old(store.data) - {path[4..]}
    {
      var key := path[4..];
      if key == "" {
        return Reply(StatusBadRequest, ErrorBody(EmptyKeyMessage));
      }
      if httpMethod == "GET" {
        reply := HandleGet(key, headers, peerRead);
      } else if httpMethod == "PUT" {
        reply := HandlePut(key, headers, body, peerWrite);
      } else if httpMethod == "DELETE" {
        reply := HandleDelete(key);
      } else {
        reply := Reply(StatusMethodNotAllowed, ErrorBody(MethodNotAllowedMessage + httpMethod));
      }
    }
  }
}
