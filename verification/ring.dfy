/** The consistent-hashing ring of internal/ring/ring.go: every physical node
    owns `vnodeCount` virtual nodes placed on a 64-bit circle by a hash of their
    id; a key's preference list is found by walking the circle clockwise from
    the key's own hash. The hash (MD5 truncated to its first 8 bytes in the
    source) is an arbitrary function supplied when the ring is built. */
module HashRing {
  import opened Base
  import opened Strconv

  type NodeID = string

  /** A virtual node: its id, the physical node that owns it, its position on the circle. */
  datatype VNode = VNode(id: string, nodeID: NodeID, hash: Uint64)

  /** Virtual nodes per physical node when New is given a non-positive count. */
  const DefaultVnodeCount: nat := 100

  predicate SortedByHash(vs: seq<VNode>) {
    forall i, j :: 0 <= i < j < |vs| ==> vs[i].hash <= vs[j].hash
  }

  /** The owners of a sequence of virtual nodes, position by position. */
  function Owners(vs: seq<VNode>): (os: seq<NodeID>)
    ensures |os| == |vs| && forall i :: 0 <= i < |vs| ==> os[i] == vs[i].nodeID
  {
    seq(|vs|, i requires 0 <= i < |vs| => vs[i].nodeID)
  }

  predicate Distinct(s: seq<NodeID>) {
    forall i, j :: 0 <= i < j < |s| ==> s[i] != s[j]
  }

  function Elems(s: seq<NodeID>): set<NodeID> {
    set x | x in s
  }

  /** The ring invariant: positions sorted, every virtual node owned by a known
      physical node, and every physical node owning exactly `count` of them. */
  ghost predicate RingInvariant(vs: seq<VNode>, nodes: map<NodeID, string>, count: nat) {
    && count > 0
    && SortedByHash(vs)
    && (forall v :: v in vs ==> v.nodeID in nodes)
    && (forall n :: n in nodes ==> multiset(Owners(vs))[n] == count)
  }

  /** `fmt.Sprintf("%s-vnode-%d", nodeID, i)`. */
  function VnodeId(nodeID: NodeID, i: nat): (id: string)
    ensures |id| > |nodeID| + 7 && id[..|nodeID| + 7] == nodeID + "-vnode-"
    ensures '0' <= id[|id| - 1] <= '9'
  {
    nodeID + "-vnode-" + NatToDecimal(i)
  }

  /** A node's virtual node ids are pairwise different: the number is recoverable from the id. */
  lemma VnodeIdInjective(nodeID: NodeID, i: nat, j: nat)
    requires VnodeId(nodeID, i) == VnodeId(nodeID, j)
    ensures i == j
  {
    var prefix := nodeID + "-vnode-";
    assert NatToDecimal(i) == VnodeId(nodeID, i)[|prefix|..];
    assert NatToDecimal(j) == VnodeId(nodeID, j)[|prefix|..];
    DigitsValueOfDecimal(i);
    DigitsValueOfDecimal(j);
  }

  // ---------------------------------------------------------------------------
  // Sorting by position (sort.Slice with "Hash <" as the less function)

  lemma HashLowerBound(r: seq<VNode>, t: seq<VNode>, v: VNode, h: int)
    requires multiset(r) == multiset(t) + multiset{v}
    requires v.hash >= h && forall x :: x in t ==> x.hash >= h
    ensures forall i :: 0 <= i < |r| ==> r[i].hash >= h
  {
    forall i | 0 <= i < |r|
      ensures r[i].hash >= h
    {
      assert r[i] in multiset(r);
    }
  }

  /** A node no later than every node of a sorted sequence can go in front of it. */
  lemma ConsSorted(x: VNode, r: seq<VNode>)
    requires SortedByHash(r) && forall i :: 0 <= i < |r| ==> x.hash <= r[i].hash
    ensures SortedByHash([x] + r)
  {
  }

  /** Inserts one virtual node into a sorted sequence. */
  function InsertByHash(v: VNode, s: seq<VNode>): (r: seq<VNode>)
    requires SortedByHash(s)
    ensures SortedByHash(r) && multiset(r) == multiset(s) + multiset{v}
  {
    if s == [] || v.hash <= s[0].hash then
      ConsSorted(v, s);
      [v] + s
    else
      var rest := InsertByHash(v, s[1..]);
      assert s == [s[0]] + s[1..];
      HashLowerBound(rest, s[1..], v, s[0].hash);
      ConsSorted(s[0], rest);
      [s[0]] + rest
  }

  /** An order sort.Slice may produce: sorted by position, a permutation of the
      input. (sort.Slice is not stable; among equal positions this picks one order.) */
  function SortByHash(s: seq<VNode>): (r: seq<VNode>)
    ensures SortedByHash(r) && multiset(r) == multiset(s)
  {
    if s == [] then []
    else
      assert s == s[..|s| - 1] + [s[|s| - 1]];
      InsertByHash(s[|s| - 1], SortByHash(s[..|s| - 1]))
  }

  lemma OwnersAppend(a: seq<VNode>, b: seq<VNode>)
    ensures Owners(a + b) == Owners(a) + Owners(b)
  {
  }

  lemma OwnersSnoc(a: seq<VNode>, x: VNode)
    ensures Owners(a + [x]) == Owners(a) + [x.nodeID]
  {
    OwnersAppend(a, [x]);
    assert Owners([x]) == [x.nodeID];
  }

  /** Taking out the virtual node at j takes one copy of it, and of its owner, out of the counts. */
  lemma RemoveAt(b: seq<VNode>, j: nat)
    requires j < |b|
    ensures multiset(b[..j] + b[j + 1..]) == multiset(b) - multiset{b[j]}
    ensures multiset(Owners(b)) == multiset(Owners(b[..j] + b[j + 1..])) + multiset{b[j].nodeID}
  {
    var l, r := b[..j], b[j + 1..];
    assert b == l + [b[j]] + r;
    assert Owners([b[j]]) == [b[j].nodeID];
    OwnersAppend(l + [b[j]], r);
    OwnersAppend(l, [b[j]]);
    OwnersAppend(l, r);
    assert Owners(b) == Owners(l) + [b[j].nodeID] + Owners(r);
  }

  /** Permuting virtual nodes permutes their owners: ownership counts do not depend on order. */
  lemma {:induction false} OwnersPermutation(a: seq<VNode>, b: seq<VNode>)
    requires multiset(a) == multiset(b)
    ensures multiset(Owners(a)) == multiset(Owners(b))
  {
    if a == [] {
      assert |b| == |multiset(b)| == 0;
    } else {
      var x := a[|a| - 1];
      var a' := a[..|a| - 1];
      assert a == a' + [x];
      assert x in multiset(b);
      var j :| 0 <= j < |b| && b[j] == x;
      var b' := b[..j] + b[j + 1..];
      RemoveAt(b, j);
      assert multiset(a) == multiset(a') + multiset{x};
      assert multiset(a') == multiset(b');
      OwnersPermutation(a', b');
      OwnersSnoc(a', x);
    }
  }

  // ---------------------------------------------------------------------------
  // Removing a node's virtual nodes

  /** The virtual nodes not owned by `n`, in their original order. */
  function WithoutOwner(vs: seq<VNode>, n: NodeID): (r: seq<VNode>)
    ensures forall v :: v in r <==> v in vs && v.nodeID != n
  {
    if vs == [] then []
    else
      var p := WithoutOwner(vs[..|vs| - 1], n);
      var last := vs[|vs| - 1];
      assert vs == vs[..|vs| - 1] + [last];
      if last.nodeID != n then p + [last] else p
  }

  /** Filtering one more virtual node keeps it unless `n` owns it. */
  lemma WithoutOwnerStep(vs: seq<VNode>, i: nat, n: NodeID)
    requires i < |vs|
    ensures WithoutOwner(vs[..i + 1], n) == WithoutOwner(vs[..i], n) + (if vs[i].nodeID != n then [vs[i]] else [])
  {
    assert vs[..i + 1][..i] == vs[..i];
  }

  /** Filtering keeps the surviving virtual nodes sorted. */
  lemma {:induction false} WithoutOwnerSorted(vs: seq<VNode>, n: NodeID)
    requires SortedByHash(vs)
    ensures SortedByHash(WithoutOwner(vs, n))
  {
    if vs != [] {
      var init := vs[..|vs| - 1];
      var last := vs[|vs| - 1];
      WithoutOwnerSorted(init, n);
      var p := WithoutOwner(init, n);
      forall i | 0 <= i < |p|
        ensures p[i].hash <= last.hash
      {
        assert p[i] in init;
      }
    }
  }

  /** Filtering removes every virtual node of `n` and no other. */
  lemma {:induction false} WithoutOwnerCounts(vs: seq<VNode>, n: NodeID)
    ensures forall m :: multiset(Owners(WithoutOwner(vs, n)))[m] == if m == n then 0 else multiset(Owners(vs))[m]
  {
    if vs != [] {
      var init := vs[..|vs| - 1];
      var last := vs[|vs| - 1];
      WithoutOwnerCounts(init, n);
      var p := WithoutOwner(init, n);
      assert vs == init + [last];
      assert Owners([last]) == [last.nodeID];
      OwnersAppend(init, [last]);
      if last.nodeID != n {
        OwnersAppend(p, [last]);
        assert Owners(WithoutOwner(vs, n)) == Owners(p) + [last.nodeID];
      }
    }
  }

  // ---------------------------------------------------------------------------
  // Finding a key's position (findSuccessorIndex over sort.Search)

  /** sort.Search's bisection over [lo, hi), for the predicate "hash >= h". */
  function Search(vs: seq<VNode>, h: Uint64, lo: nat, hi: nat): (i: nat)
    requires SortedByHash(vs) && lo <= hi <= |vs|
    requires forall j :: 0 <= j < lo ==> vs[j].hash < h
    requires forall j :: hi <= j < |vs| ==> vs[j].hash >= h
    ensures lo <= i <= hi
    ensures forall j :: 0 <= j < i ==> vs[j].hash < h
    ensures forall j :: i <= j < |vs| ==> vs[j].hash >= h
    decreases hi - lo
  {
    if lo < hi then
      var m := (lo + hi) / 2;
      if vs[m].hash < h then Search(vs, h, m + 1, hi) else Search(vs, h, lo, m)
    else
      lo
  }

  /** findSuccessorIndex: the first virtual node clockwise from h, wrapping to 0 past the end. */
  function FindSuccessorIndex(vs: seq<VNode>, h: Uint64): (idx: nat)
    requires SortedByHash(vs)
    ensures |vs| == 0 ==> idx == 0
    ensures |vs| > 0 ==> idx < |vs|
    ensures (exists j :: 0 <= j < |vs| && vs[j].hash >= h) ==>
              vs[idx].hash >= h && forall j :: 0 <= j < idx ==> vs[j].hash < h
    ensures (forall j :: 0 <= j < |vs| ==> vs[j].hash < h) ==> idx == 0
  {
    var i := Search(vs, h, 0, |vs|);
    if i == |vs| then 0 else i
  }

  // ---------------------------------------------------------------------------
  // The clockwise walk that builds a preference list

  /** GetPreferenceList's N: non-positive or too large means "all nodes". */
  function ClampReplicas(n: int, nodeCount: nat): (r: nat)
    ensures r <= nodeCount
    ensures 0 < n <= nodeCount ==> r == n
    ensures n <= 0 || n > nodeCount ==> r == nodeCount
  {
    if n <= 0 || n > nodeCount then nodeCount else n
  }

  /** The owners met walking clockwise once around the circle from `start`:
      the circle rotated to begin at `start`. */
  function Walk(vs: seq<VNode>, start: nat): (w: seq<NodeID>)
    requires start < |vs|
    ensures |w| == |vs| && w[0] == vs[start].nodeID
  {
    Owners(vs[start..] + vs[..start])
  }

  /** Going once around a circle of len positions: k mod len for 0 <= k < 2 len. */
  lemma ModOnce(k: nat, len: nat)
    requires 0 < len && k < 2 * len
    ensures k % len == if k < len then k else k - len
  {
    if k >= len {
      assert k == (k - len) + 1 * len;
    }
  }

  /** Step i of the walk visits position (start + i) mod |vs|, as the source's index arithmetic does. */
  lemma WalkStep(vs: seq<VNode>, start: nat, i: nat)
    requires start < |vs| && i < |vs|
    ensures Walk(vs, start)[i] == vs[(start + i) % |vs|].nodeID
  {
    ModOnce(start + i, |vs|);
    var r := vs[start..] + vs[..start];
    assert Walk(vs, start)[i] == r[i].nodeID;
    if start + i < |vs| {
      assert r[i] == vs[start + i];
    } else {
      assert r[i] == vs[start + i - |vs|];
    }
  }

  /** The distinct owners of a walk, in order of first appearance, stopping once n are collected. */
  function FirstDistinct(w: seq<NodeID>, n: int): (r: seq<NodeID>)
    ensures Distinct(r)
    ensures forall x :: x in r ==> x in w
    ensures |r| <= |w| && (|r| <= n || r == [])
  {
    if w == [] then []
    else
      var p := FirstDistinct(w[..|w| - 1], n);
      var x := w[|w| - 1];
      if |p| >= n || x in p then p else p + [x]
  }

  /** One more step of the walk: its owner is kept unless n are already collected or it was seen. */
  lemma FirstDistinctStep(w: seq<NodeID>, i: nat, n: int)
    requires i < |w|
    ensures var p := FirstDistinct(w[..i], n);
            FirstDistinct(w[..i + 1], n) == if |p| >= n || w[i] in p then p else p + [w[i]]
  {
    assert w[..i + 1][..i] == w[..i];
  }

  /** A step of the collecting loop while fewer than n owners are collected. */
  lemma CollectStep(w: seq<NodeID>, i: nat, n: int, list: seq<NodeID>)
    requires i < |w| && list == FirstDistinct(w[..i], n) && |list| < n
    ensures w[i] in list ==> FirstDistinct(w[..i + 1], n) == list
    ensures w[i] !in list ==> FirstDistinct(w[..i + 1], n) == list + [w[i]]
                              && Elems(list + [w[i]]) == Elems(list) + {w[i]}
  {
    FirstDistinctStep(w, i, n);
  }

  /** Once n owners are collected, walking further changes nothing. */
  lemma {:induction false} FirstDistinctStable(w: seq<NodeID>, i: nat, n: int)
    requires i <= |w| && |FirstDistinct(w[..i], n)| >= n
    ensures FirstDistinct(w, n) == FirstDistinct(w[..i], n)
    decreases |w| - i
  {
    if i < |w| {
      assert w[..i + 1][..i] == w[..i];
      FirstDistinctStable(w, i + 1, n);
    } else {
      assert w[..i] == w;
    }
  }

  /** A walk that stops short of n owners has collected every owner it met. */
  lemma {:induction false} FirstDistinctCovers(w: seq<NodeID>, n: int)
    requires |FirstDistinct(w, n)| < n
    ensures Elems(FirstDistinct(w, n)) == Elems(w)
  {
    if w != [] {
      var w' := w[..|w| - 1];
      var x := w[|w| - 1];
      assert |FirstDistinct(w', n)| < n;
      FirstDistinctCovers(w', n);
      assert w == w' + [x];
      assert Elems(w) == Elems(w') + {x};
    }
  }

  /** The walk's first owner heads the list. */
  lemma {:induction false} FirstDistinctHead(w: seq<NodeID>, n: int)
    requires n >= 1 && |w| > 0
    ensures |FirstDistinct(w, n)| > 0 && FirstDistinct(w, n)[0] == w[0]
  {
    if |w| > 1 {
      FirstDistinctHead(w[..|w| - 1], n);
    }
  }

  lemma {:induction false} DistinctCard(s: seq<NodeID>)
    requires Distinct(s)
    ensures |Elems(s)| == |s|
  {
    if s != [] {
      var s' := s[..|s| - 1];
      var x := s[|s| - 1];
      assert Distinct(s');
      DistinctCard(s');
      assert s == s' + [x];
      assert x !in Elems(s');
      assert Elems(s) == Elems(s') + {x};
    }
  }

  /** The walk visits the owner of every virtual node, and only those. */
  lemma WalkOwners(vs: seq<VNode>, start: nat)
    requires start < |vs|
    ensures forall j :: 0 <= j < |vs| ==> vs[j].nodeID in Walk(vs, start)
    ensures forall x :: x in Walk(vs, start) ==> exists v :: v in vs && v.nodeID == x
  {
    var r := vs[start..] + vs[..start];
    var w := Walk(vs, start);
    forall j | 0 <= j < |vs|
      ensures vs[j].nodeID in w
    {
      if j >= start {
        assert w[j - start] == vs[j].nodeID;
      } else {
        assert w[|vs| - start + j] == vs[j].nodeID;
      }
    }
    forall x | x in w
      ensures exists v :: v in vs && v.nodeID == x
    {
      var i :| 0 <= i < |w| && w[i] == x;
      assert r[i] in vs;
    }
  }

  /** Under the invariant, one turn around the circle meets every physical node and nothing else. */
  lemma WalkMeetsAllNodes(vs: seq<VNode>, nodes: map<NodeID, string>, count: nat, start: nat)
    requires RingInvariant(vs, nodes, count) && start < |vs|
    ensures Elems(Walk(vs, start)) == nodes.Keys
  {
    WalkOwners(vs, start);
    forall x | x in nodes
      ensures x in Elems(Walk(vs, start))
    {
      assert x in multiset(Owners(vs));
      var j :| 0 <= j < |vs| && Owners(vs)[j] == x;
    }
  }

  /** A walk that meets at least m distinct owners yields exactly m of them. */
  lemma FirstDistinctLength(w: seq<NodeID>, m: nat)
    requires m <= |Elems(w)|
    ensures |FirstDistinct(w, m)| == m
  {
    var pl := FirstDistinct(w, m);
    DistinctCard(pl);
    if |pl| < m {
      FirstDistinctCovers(w, m);
    }
  }

  /** The preference list for a key with hash `keyHash` and requested size n. */
  function PreferenceListOf(vs: seq<VNode>, nodeCount: nat, keyHash: Uint64, n: int): (pl: seq<NodeID>)
    requires SortedByHash(vs) && |vs| > 0
    ensures Distinct(pl) && |pl| <= ClampReplicas(n, nodeCount)
    ensures forall x :: x in pl ==> exists v :: v in vs && v.nodeID == x
  {
    WalkOwners(vs, FindSuccessorIndex(vs, keyHash));
    FirstDistinct(Walk(vs, FindSuccessorIndex(vs, keyHash)), ClampReplicas(n, nodeCount))
  }

  /** Collecting m <= |Elems(w)| distinct owners from a non-empty walk yields exactly m of
      them, all from the walk, led by its first owner. */
  lemma {:induction false} FirstDistinctShape(w: seq<NodeID>, m: nat)
    requires 1 <= m <= |Elems(w)|
    ensures |FirstDistinct(w, m)| == m
    ensures FirstDistinct(w, m)[0] == w[0]
  {
    FirstDistinctLength(w, m);
    FirstDistinctHead(w, m);
  }

  /** The list has exactly min(N, |nodes|) entries (all nodes for N <= 0), no repeats,
      only known nodes, and starts with the owner of the key's successor virtual node. */
  lemma PreferenceListShape(vs: seq<VNode>, nodes: map<NodeID, string>, count: nat, keyHash: Uint64, n: int)
    requires RingInvariant(vs, nodes, count) && |vs| > 0
    ensures |PreferenceListOf(vs, |nodes|, keyHash, n)| == ClampReplicas(n, |nodes|)
    ensures Distinct(PreferenceListOf(vs, |nodes|, keyHash, n))
    ensures forall x :: x in PreferenceListOf(vs, |nodes|, keyHash, n) ==> x in nodes
    ensures PreferenceListOf(vs, |nodes|, keyHash, n)[0] == vs[FindSuccessorIndex(vs, keyHash)].nodeID
  {
    var start := FindSuccessorIndex(vs, keyHash);
    WalkMeetsAllNodes(vs, nodes, count, start);
    assert vs[0] in vs;
    FirstDistinctShape(Walk(vs, start), ClampReplicas(n, |nodes|));
  }

  /** Adding a node that was absent, with `count` fresh virtual nodes of its own,
      and sorting keeps the invariant. */
  lemma AddKeepsInvariant(vs: seq<VNode>, nodes: map<NodeID, string>, count: nat,
                          nodeID: NodeID, address: string, added: seq<VNode>, sorted: seq<VNode>)
    requires RingInvariant(vs, nodes, count) && nodeID !in nodes
    requires |added| == count && forall v :: v in added ==> v.nodeID == nodeID
    requires SortedByHash(sorted) && multiset(sorted) == multiset(vs + added)
    ensures RingInvariant(sorted, nodes[nodeID := address], count)
  {
    var nodes' := nodes[nodeID := address];
    OwnersPermutation(sorted, vs + added);
    OwnersAppend(vs, added);
    assert nodeID !in Owners(vs);
    assert multiset(Owners(added)) == multiset{}[nodeID := count] by {
      assert Owners(added) == seq(count, _ => nodeID);
      RepeatMultiset(nodeID, count);
    }
    forall v | v in sorted
      ensures v.nodeID in nodes'
    {
      assert v in multiset(vs + added);
    }
  }

  lemma {:induction false} RepeatMultiset(x: NodeID, k: nat)
    ensures multiset(seq(k, _ => x)) == multiset{}[x := k]
  {
    if k > 0 {
      RepeatMultiset(x, k - 1);
      assert seq(k, _ => x) == seq(k - 1, _ => x) + [x];
    }
  }

  /** Removing a node keeps the invariant, and the removed node appears in no preference list. */
  lemma RemoveKeepsInvariant(vs: seq<VNode>, nodes: map<NodeID, string>, count: nat,
                             nodeID: NodeID, keyHash: Uint64, n: int)
    requires RingInvariant(vs, nodes, count) && nodeID in nodes
    ensures RingInvariant(WithoutOwner(vs, nodeID), nodes - {nodeID}, count)
    ensures var vs' := WithoutOwner(vs, nodeID);
            |vs'| > 0 ==> nodeID !in PreferenceListOf(vs', |nodes - {nodeID}|, keyHash, n)
  {
    var vs' := WithoutOwner(vs, nodeID);
    WithoutOwnerSorted(vs, nodeID);
    WithoutOwnerCounts(vs, nodeID);
    if |vs'| > 0 {
      PreferenceListShape(vs', nodes - {nodeID}, count, keyHash, n);
    }
  }

  /** Under the invariant the ring has virtual nodes exactly when it has physical nodes,
      so "no nodes in ring" is reported exactly when Size() is 0. */
  lemma EmptyRingIffNoNodes(vs: seq<VNode>, nodes: map<NodeID, string>, count: nat)
    requires RingInvariant(vs, nodes, count)
    ensures |vs| == 0 <==> |nodes| == 0
  {
    if |vs| > 0 {
      assert vs[0] in vs;
    }
  }

  /** GetPreferenceList's loop: walk clockwise from `startIdx`, keeping each owner not seen
      before, until `count` owners are collected or the circle is complete. */
  method CollectOwners(vs: seq<VNode>, startIdx: nat, count: int) returns (list: seq<NodeID>)
    requires startIdx < |vs|
    ensures list == FirstDistinct(Walk(vs, startIdx), count)
  {
    ghost var walk := Walk(vs, startIdx);
    var seen: set<NodeID> := {};
    list := [];
    var i := 0;
    while i < |vs| && |list| < count
      invariant 0 <= i <= |vs|
      invariant list == FirstDistinct(walk[..i], count)
      invariant seen == Elems(list)
    {
      CollectStep(walk, i, count, list);
      WalkStep(vs, startIdx, i);
      var vnode := vs[(startIdx + i) % |vs|];
      if vnode.nodeID !in seen {
        list := list + [vnode.nodeID];
        seen := seen + {vnode.nodeID};
      }
      i := i + 1;
    }
    if i < |walk| {
      FirstDistinctStable(walk, i, count);
    } else {
      assert walk[..i] == walk;
    }
  }

  /** A ring of physical nodes and their virtual nodes. */
  class Ring {
    var vnodes: seq<VNode>
    var nodes: map<NodeID, string>
    const vnodeCount: nat
    const hash: string -> Uint64

    ghost predicate Valid()
      reads this
    {
      RingInvariant(vnodes, nodes, vnodeCount)
    }

    /** The virtual node number i of a physical node. */
    function MakeVnode(nodeID: NodeID, i: nat): (v: VNode)
      ensures v.nodeID == nodeID && v.hash == hash(v.id)
      ensures |v.id| > |nodeID| && v.id[..|nodeID|] == nodeID
    {
      VNode(VnodeId(nodeID, i), nodeID, hash(VnodeId(nodeID, i)))
    }

    /** The first k virtual nodes of a physical node, in creation order. */
    function NewVnodes(nodeID: NodeID, k: nat): (vs: seq<VNode>)
      ensures |vs| == k && forall i :: 0 <= i < k ==> vs[i] == MakeVnode(nodeID, i)
    {
      seq(k, i requires 0 <= i < k => MakeVnode(nodeID, i))
    }

    /** New: an empty ring; a non-positive count means DefaultVnodeCount. */
    constructor (vnodeCount: int, hash: string -> Uint64)
      ensures Valid()
      ensures this.vnodeCount == if vnodeCount <= 0 then DefaultVnodeCount else vnodeCount
      ensures vnodes == [] && nodes == map[] && this.hash == hash
    {
      this.vnodeCount := if vnodeCount <= 0 then DefaultVnodeCount else vnodeCount;
      this.hash := hash;
      vnodes := [];
      nodes := map[];
    }

    method AddNode(nodeID: NodeID, address: string) returns (err: Option<string>)
      requires Valid()
      modifies this
      ensures Valid()
      ensures err.Some? <==> nodeID in old(nodes)
      ensures err.Some? ==> err.value == "node " + nodeID + " already exists"
                            && nodes == old(nodes) && vnodes == old(vnodes)
      ensures err.None? ==> nodes == old(nodes)[nodeID := address]
      ensures err.None? ==> SortedByHash(vnodes)
                            && multiset(vnodes) == multiset(old(vnodes) + NewVnodes(nodeID, vnodeCount))
    {
      if nodeID in nodes {
        return Some("node " + nodeID + " already exists");
      }
      ghost var before, nodesBefore := vnodes, nodes;
      nodes := nodes[nodeID := address];
      var i := 0;
      while i < vnodeCount
        invariant 0 <= i <= vnodeCount
        invariant vnodes == before + NewVnodes(nodeID, i)
        invariant nodes == nodesBefore[nodeID := address]
      {
        var vnodeID := VnodeId(nodeID, i);
        var h := hash(vnodeID);
        vnodes := vnodes + [VNode(vnodeID, nodeID, h)];
        assert NewVnodes(nodeID, i + 1) == NewVnodes(nodeID, i) + [MakeVnode(nodeID, i)];
        i := i + 1;
      }
      ghost var added := NewVnodes(nodeID, vnodeCount);
      assert forall v :: v in added ==> v.nodeID == nodeID;
      vnodes := SortByHash(vnodes);
      AddKeepsInvariant(before, nodesBefore, vnodeCount, nodeID, address, added, vnodes);
      return None;
    }

    method RemoveNode(nodeID: NodeID) returns (err: Option<string>)
      requires Valid()
      modifies this
      ensures Valid()
      ensures err.Some? <==> nodeID !in old(nodes)
      ensures err.Some? ==> err.value == "node " + nodeID + " does not exist"
                            && nodes == old(nodes) && vnodes == old(vnodes)
      ensures err.None? ==> vnodes == WithoutOwner(old(vnodes), nodeID)
                            && nodes == old(nodes) - {nodeID}
    {
      if nodeID !in nodes {
        return Some("node " + nodeID + " does not exist");
      }
      var vs := vnodes;
      var newVnodes: seq<VNode> := [];
      var i := 0;
      while i < |vs|
        invariant 0 <= i <= |vs|
        invariant newVnodes == WithoutOwner(vs[..i], nodeID)
        invariant vnodes == vs && nodes == old(nodes)
      {
        WithoutOwnerStep(vs, i, nodeID);
        if vs[i].nodeID != nodeID {
          newVnodes := newVnodes + [vs[i]];
        }
        i := i + 1;
      }
      assert vs[..i] == vs;
      WithoutOwnerSorted(vs, nodeID);
      WithoutOwnerCounts(vs, nodeID);
      RemoveKeepsInvariant(vs, nodes, vnodeCount, nodeID, 0, 0);
      vnodes := newVnodes;
      nodes := nodes - {nodeID};
      return None;
    }

    /** The preference list GetPreferenceList computes for a key on a non-empty ring. */
    function PreferenceList(key: string, n: int): (pl: seq<NodeID>)
      requires Valid() && |vnodes| > 0
      reads this
      ensures |pl| == ClampReplicas(n, |nodes|) && Distinct(pl)
      ensures forall x :: x in pl ==> x in nodes
      ensures |pl| > 0 && pl[0] == vnodes[FindSuccessorIndex(vnodes, hash(key))].nodeID
    {
      EmptyRingIffNoNodes(vnodes, nodes, vnodeCount);
      PreferenceListShape(vnodes, nodes, vnodeCount, hash(key), n);
      PreferenceListOf(vnodes, |nodes|, hash(key), n)
    }

    method GetPreferenceList(key: string, n: int) returns (list: seq<NodeID>, err: Option<string>)
      requires Valid()
      ensures err.Some? <==> |vnodes| == 0
      ensures err.Some? ==> list == [] && err.value == "no nodes in ring"
      ensures err.None? ==> list == PreferenceList(key, n)
      ensures err.None? ==> && |list| == ClampReplicas(n, |nodes|)
                            && Distinct(list)
                            && (forall x :: x in list ==> x in nodes)
                            && list[0] == vnodes[FindSuccessorIndex(vnodes, hash(key))].nodeID
    {
      if |vnodes| == 0 {
        return [], Some("no nodes in ring");
      }
      var count := n;
      if count <= 0 || count > |nodes| {
        count := |nodes|;
      }
      var keyHash := hash(key);
      var startIdx := FindSuccessorIndex(vnodes, keyHash);
      list := CollectOwners(vnodes, startIdx, count);
      return list, None;
    }

    function GetNodeAddress(nodeID: NodeID): (r: (string, bool))
      reads this
      ensures r.1 <==> nodeID in nodes
      ensures r.0 == if r.1 then nodes[nodeID] else ""
    {
      if nodeID in nodes then (nodes[nodeID], true) else ("", false)
    }

    /** A copy of the node table. */
    function GetNodes(): (m: map<NodeID, string>)
      reads this
      ensures m.Keys == nodes.Keys && forall k :: k in m ==> m[k] == nodes[k]
      ensures Valid() ==> forall v :: v in vnodes ==> v.nodeID in m
    {
      map k | k in nodes :: nodes[k]
    }

    function Size(): (s: nat)
      reads this
      ensures s == |nodes|
    {
      |nodes|
    }
  }
}
