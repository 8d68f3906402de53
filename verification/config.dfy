/** Node configuration, internal/config/config.go: Validate fills in defaults for
    the node id, the bind address and the N/R/W replication parameters, rejects
    quorums larger than N, and parses the comma-separated seed list. The host
    name lookup (os.Hostname) is a parameter: None stands for a failed lookup. */
module Config {
  import opened Base
  import opened Strconv
  import opened Strings

  const DefaultBindAddr: string := ":8080"
  const DefaultReplicationFactor: int := 3
  const DefaultReadQuorum: int := 2
  const DefaultWriteQuorum: int := 2

  /** The node id used when none is configured. */
  const UnknownNodeID: string := "node-unknown"

  /** generateDefaultNodeID: the host name when the lookup succeeds with a non-empty
      name, otherwise "node-unknown". Never empty. */
  function DefaultNodeID(hostname: Option<string>): (id: string)
    ensures id != ""
    ensures hostname.Some? && hostname.value != "" ==> id == hostname.value
    ensures hostname.None? || hostname.value == "" ==> id == UnknownNodeID
  {
    if hostname.Some? && hostname.value != "" then hostname.value else UnknownNodeID
  }

  /** A replication parameter after defaulting: non-positive values take the default. */
  function Defaulted(v: int, default: int): (r: int)
    requires default > 0
    ensures r > 0
    ensures v > 0 ==> r == v
    ensures v <= 0 ==> r == default
  {
    if v <= 0 then default else v
  }

  const ReplicationErrorPrefix: string := "unexpected replication configuration(R="

  /** The error Validate reports when a quorum exceeds the replication factor: the
      prefix, then R, W and N in decimal, closed by a parenthesis. */
  function ReplicationError(r: int, w: int, n: int): (msg: string)
    ensures |msg| > |ReplicationErrorPrefix| && msg[..|ReplicationErrorPrefix|] == ReplicationErrorPrefix
    ensures msg[|msg| - 1] == ')'
  {
    var rest := IntToDecimal(r) + " W=" + IntToDecimal(w) + " N=" + IntToDecimal(n) + ")";
    ReplicationErrorPrefix + rest
  }

  /** A seed as Validate keeps it: non-empty, no white space at either end. */
  predicate IsSeed(s: string) {
    s != "" && !IsSpace(s[0]) && !IsSpace(s[|s| - 1])
  }

  /** The seeds contributed by the comma-separated pieces: each piece trimmed of
      white space, empty ones dropped, in order. */
  function ParseSeeds(parts: seq<string>): (seeds: seq<string>)
    ensures |seeds| <= |parts|
    ensures forall i :: 0 <= i < |seeds| ==> IsSeed(seeds[i])
  {
    if parts == [] then []
    else
      var seeds := ParseSeeds(parts[..|parts| - 1]);
      var s := TrimSpace(parts[|parts| - 1]);
      if s != "" then seeds + [s] else seeds
  }

  /** Parsing one more piece appends that piece's seed, if it has one. */
  lemma ParseSeedsStep(parts: seq<string>, i: nat)
    requires i < |parts|
    ensures ParseSeeds(parts[..i + 1])
            == ParseSeeds(parts[..i]) + (if TrimSpace(parts[i]) != "" then [TrimSpace(parts[i])] else [])
  {
    assert parts[..i + 1][..i] == parts[..i];
  }

  /** Pieces that are only white space contribute nothing. */
  lemma {:induction false} ParseSeedsBlank(parts: seq<string>)
    requires forall i :: 0 <= i < |parts| ==> AllSpace(parts[i])
    ensures ParseSeeds(parts) == []
  {
    if parts != [] {
      ParseSeedsBlank(parts[..|parts| - 1]);
      TrimSpaceOfBlank(parts[|parts| - 1]);
    }
  }

  /** A list of non-empty, already trimmed seeds without commas survives being joined
      with commas and parsed back. */
  lemma {:induction false} ParseSeedsOfJoin(seeds: seq<string>)
    requires |seeds| >= 1
    requires forall i :: 0 <= i < |seeds| ==> IsSeed(seeds[i]) && ',' !in seeds[i]
    ensures ParseSeeds(Split(Join(seeds, ','), ',')) == seeds
  {
    SplitJoin(seeds, ',');
    ParseSeedsOfTrimmed(seeds);
  }

  lemma {:induction false} ParseSeedsOfTrimmed(seeds: seq<string>)
    requires forall i :: 0 <= i < |seeds| ==> IsSeed(seeds[i])
    ensures ParseSeeds(seeds) == seeds
  {
    if seeds != [] {
      assert seeds == seeds[..|seeds| - 1] + [seeds[|seeds| - 1]];
      ParseSeedsOfTrimmed(seeds[..|seeds| - 1]);
      TrimSpaceOfTrimmed(seeds[|seeds| - 1]);
    }
  }

  /** Parsing the pieces of two lists is parsing each list in turn. */
  lemma {:induction false} ParseSeedsAppend(a: seq<string>, b: seq<string>)
    ensures ParseSeeds(a + b) == ParseSeeds(a) + ParseSeeds(b)
    decreases |b|
  {
    if b != [] {
      var b' := b[..|b| - 1];
      assert (a + b)[..|a + b| - 1] == a + b';
      assert (a + b)[|a + b| - 1] == b[|b| - 1];
      ParseSeedsAppend(a, b');
    } else {
      assert a + b == a;
    }
  }

  class Config {
    var nodeID: string
    var bindAddr: string
    var seedsCSV: string
    var seeds: seq<string>
    var replicationFactor: int
    var readQuorum: int
    var writeQuorum: int

    /** A configuration as flag parsing leaves it: no seeds parsed yet. */
    constructor (nodeID: string, bindAddr: string, seedsCSV: string,
                 replicationFactor: int, readQuorum: int, writeQuorum: int)
      ensures this.nodeID == nodeID && this.bindAddr == bindAddr && this.seedsCSV == seedsCSV
      ensures this.replicationFactor == replicationFactor
      ensures this.readQuorum == readQuorum && this.writeQuorum == writeQuorum
      ensures seeds == []
    {
      this.nodeID := nodeID;
      this.bindAddr := bindAddr;
      this.seedsCSV := seedsCSV;
      this.seeds := [];
      this.replicationFactor := replicationFactor;
      this.readQuorum := readQuorum;
      this.writeQuorum := writeQuorum;
    }

    /** What a configuration that passed Validate guarantees. */
    predicate Validated()
      reads this
    {
      && nodeID != ""
      && bindAddr != ""
      && 0 < readQuorum <= replicationFactor
      && 0 < writeQuorum <= replicationFactor
    }

    /** Validate's seed loop: each comma-separated piece of seedsCSV, trimmed, is
        appended to seeds unless it is empty. Nothing else changes. */
    method ParseSeedsCSV()
      modifies this
      ensures seeds == old(seeds) + ParseSeeds(Split(seedsCSV, ','))
      ensures nodeID == old(nodeID) && bindAddr == old(bindAddr) && seedsCSV == old(seedsCSV)
      ensures replicationFactor == old(replicationFactor)
      ensures readQuorum == old(readQuorum) && writeQuorum == old(writeQuorum)
    {
      var parts := Split(seedsCSV, ',');
      var i := 0;
      while i < |parts|
        invariant 0 <= i <= |parts|
        invariant seeds == old(seeds) + ParseSeeds(parts[..i])
        invariant nodeID == old(nodeID) && bindAddr == old(bindAddr) && seedsCSV == old(seedsCSV)
        invariant replicationFactor == old(replicationFactor)
        invariant readQuorum == old(readQuorum) && writeQuorum == old(writeQuorum)
      {
        ParseSeedsStep(parts, i);
        var s := TrimSpace(parts[i]);
        if s != "" {
          seeds := seeds + [s];
        }
        i := i + 1;
      }
      assert parts[..i] == parts;
    }

    /** Validate's defaulting: every unset field takes its default. Seeds untouched. */
    method ApplyDefaults(hostname: Option<string>)
      modifies this
      ensures nodeID == if old(nodeID) == "" then DefaultNodeID(hostname) else old(nodeID)
      ensures bindAddr == if old(bindAddr) == "" then DefaultBindAddr else old(bindAddr)
      ensures replicationFactor == Defaulted(old(replicationFactor), DefaultReplicationFactor)
      ensures readQuorum == Defaulted(old(readQuorum), DefaultReadQuorum)
      ensures writeQuorum == Defaulted(old(writeQuorum), DefaultWriteQuorum)
      ensures seedsCSV == old(seedsCSV) && seeds == old(seeds)
    {
      if nodeID == "" {
        nodeID := DefaultNodeID(hostname);
      }
      if bindAddr == "" {
        bindAddr := DefaultBindAddr;
      }
      if replicationFactor <= 0 {
        replicationFactor := DefaultReplicationFactor;
      }
      if readQuorum <= 0 {
        readQuorum := DefaultReadQuorum;
      }
      if writeQuorum <= 0 {
        writeQuorum := DefaultWriteQuorum;
      }
    }

    /** Config.Validate: applies the defaults, then fails with the replication error
        when either quorum exceeds N (seeds left alone); otherwise parses a non-empty
        seed list and succeeds, leaving a configuration that satisfies Validated(). */
    method Validate(hostname: Option<string>) returns (err: Option<string>)
      modifies this
      ensures nodeID == if old(nodeID) == "" then DefaultNodeID(hostname) else old(nodeID)
      ensures bindAddr == if old(bindAddr) == "" then DefaultBindAddr else old(bindAddr)
      ensures replicationFactor == Defaulted(old(replicationFactor), DefaultReplicationFactor)
      ensures readQuorum == Defaulted(old(readQuorum), DefaultReadQuorum)
      ensures writeQuorum == Defaulted(old(writeQuorum), DefaultWriteQuorum)
      ensures seedsCSV == old(seedsCSV)
      ensures err.Some? <==> readQuorum > replicationFactor || writeQuorum > replicationFactor
      ensures err.Some? ==> err.value == ReplicationError(readQuorum, writeQuorum, replicationFactor)
                            && seeds == old(seeds)
      ensures err.None? ==> Validated()
      ensures err.None? && seedsCSV == "" ==> seeds == old(seeds)
      ensures err.None? && seedsCSV != "" ==> seeds == old(seeds) + ParseSeeds(Split(seedsCSV, ','))
    {
      ApplyDefaults(hostname);
      if readQuorum > replicationFactor || writeQuorum > replicationFactor {
        return Some(ReplicationError(readQuorum, writeQuorum, replicationFactor));
      }
      if seedsCSV != "" {
        ParseSeedsCSV();
      }
      return None;
    }
  }
}
