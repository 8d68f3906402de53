/** The version vector of internal/clock/vectorclock.go: one uint64 counter per
    node id. A key that is absent is not the same as a key mapped to 0: Compare
    treats an absent key as smaller than any present counter. */
module VectorClock {
  import opened Base

  type Clock = map<string, Uint64>

  /** `a` dominates `b`: every key of `b` is a key of `a`, with a counter at least as large. */
  predicate Dominates(a: Clock, b: Clock): (d: bool)
    ensures d ==> b.Keys <= a.Keys
    ensures b == map[] ==> d
  {
    forall k :: k in b ==> k in a && a[k] >= b[k]
  }

  /** Neither clock dominates the other. */
  predicate Concurrent(a: Clock, b: Clock) {
    !Dominates(a, b) && !Dominates(b, a)
  }

  /** The order the source's Compare computes: 1 when `a` strictly dominates `b`,
      -1 when `b` strictly dominates `a`, 0 otherwise (equal or concurrent). */
  function Comparison(a: Clock, b: Clock): (c: int)
    ensures c == -1 || c == 0 || c == 1
  {
    if Dominates(a, b) && !Dominates(b, a) then 1
    else if Dominates(b, a) && !Dominates(a, b) then -1
    else 0
  }

  /** Compare as the source runs it: two passes over the keys of `a` and then of
      `b` (in whatever order map iteration yields them), clearing the flags
      aDom ("a is not behind b") and bDom ("b is not behind a"). */
  method Compare(a: Clock, b: Clock) returns (r: int)
    ensures r == -1 || r == 0 || r == 1
    ensures r == 1 <==> Dominates(a, b) && !Dominates(b, a)
    ensures r == -1 <==> Dominates(b, a) && !Dominates(a, b)
    ensures r == Comparison(a, b)
  {
    var aDom, bDom := true, true;
    var todo := a.Keys;
    ghost var done: set<string> := {};
    while todo != {}
      invariant todo !! done && todo + done == a.Keys
      invariant bDom <==> forall k :: k in done ==> k in b && a[k] <= b[k]
      invariant aDom <==> forall k :: k in done ==> !(k in b && a[k] < b[k])
      decreases todo
    {
      var k :| k in todo;
      if k !in b || a[k] > b[k] {
        bDom := false;
      }
      if k in b && a[k] < b[k] {
        aDom := false;
      }
      todo, done := todo - {k}, done + {k};
    }
    todo := b.Keys;
    ghost var done2: set<string> := {};
    while todo != {}
      invariant todo !! done2 && todo + done2 == b.Keys
      invariant bDom <==> (forall k :: k in a ==> k in b && a[k] <= b[k])
                          && (forall k :: k in done2 ==> !(k in a && b[k] < a[k]))
      invariant aDom <==> (forall k :: k in a ==> !(k in b && a[k] < b[k]))
                          && (forall k :: k in done2 ==> k in a && b[k] <= a[k])
      decreases todo
    {
      var k :| k in todo;
      if k !in a || b[k] > a[k] {
        aDom := false;
      }
      if k in a && b[k] < a[k] {
        bDom := false;
      }
      todo, done2 := todo - {k}, done2 + {k};
    }
    if aDom && !bDom {
      return 1;
    }
    if bDom && !aDom {
      return -1;
    }
    return 0;
  }

  /** The counter a clock holds for `k`, reading an absent key as 0 as Go's map index does. */
  function CounterOf(vc: Clock, k: string): Uint64 {
    if k in vc then vc[k] else 0
  }

  /** The clock after Bump(k): k's counter plus one in uint64 arithmetic, every other entry as it was. */
  function Bumped(vc: Clock, k: string): (r: Clock)
    ensures r.Keys == vc.Keys + {k}
    ensures r[k] == (CounterOf(vc, k) + 1) % (MaxUint64 + 1)
    ensures forall j :: j in vc && j != k ==> r[j] == vc[j]
  {
    vc[k := (CounterOf(vc, k) + 1) % (MaxUint64 + 1)]
  }

  /** A VectorClock value that Bump updates in place (a Go map is a reference). */
  class VectorClock {
    var entries: Clock

    constructor (entries: Clock)
      ensures this.entries == entries
    {
      this.entries := entries;
    }

    method Bump(nodeID: string)
      modifies this
      ensures entries == Bumped(old(entries), nodeID)
    {
      entries := entries[nodeID := (CounterOf(entries, nodeID) + 1) % (MaxUint64 + 1)];
    }
  }

  lemma CompareReflexive(a: Clock)
    ensures Comparison(a, a) == 0
  {
  }

  lemma CompareAntisymmetric(a: Clock, b: Clock)
    ensures Comparison(a, b) == -Comparison(b, a)
  {
  }

  /** Mutual dominance is equality: dominance is a partial order on clocks. */
  lemma DominatesAntisymmetric(a: Clock, b: Clock)
    requires Dominates(a, b) && Dominates(b, a)
    ensures a == b
  {
    assert a.Keys == b.Keys;
  }

  lemma DominatesTransitive(a: Clock, b: Clock, c: Clock)
    requires Dominates(a, b) && Dominates(b, c)
    ensures Dominates(a, c)
  {
  }

  /** 0 means exactly "equal or concurrent". */
  lemma CompareZero(a: Clock, b: Clock)
    ensures Comparison(a, b) == 0 <==> a == b || Concurrent(a, b)
  {
    if Dominates(a, b) && Dominates(b, a) {
      DominatesAntisymmetric(a, b);
    }
  }

  /** "Happened before" is transitive. */
  lemma CompareTransitive(a: Clock, b: Clock, c: Clock)
    requires Comparison(a, b) == -1 && Comparison(b, c) == -1
    ensures Comparison(a, c) == -1
  {
    DominatesTransitive(c, b, a);
    if Dominates(a, c) {
      DominatesTransitive(a, c, b);
    }
  }

  /** Two non-empty clocks over disjoint node sets are concurrent. */
  lemma DisjointConcurrent(a: Clock, b: Clock)
    requires a != map[] && b != map[] && a.Keys !! b.Keys
    ensures Comparison(a, b) == 0 && Concurrent(a, b)
  {
    var ka :| ka in a;
    var kb :| kb in b;
    assert !(kb in a);
    assert !(ka in b);
  }

  /** The empty clock (also Go's nil clock) comes before every non-empty clock. */
  lemma EmptyIsBottom(b: Clock)
    ensures Comparison(map[], b) == (if b == map[] then 0 else -1)
  {
    if b != map[] {
      var k :| k in b;
      assert !Dominates(map[], b);
    }
  }

  /** Bumping any entry that has not reached the uint64 maximum yields a strictly later clock. */
  lemma BumpIsLater(vc: Clock, k: string)
    requires CounterOf(vc, k) < MaxUint64
    ensures Comparison(vc, Bumped(vc, k)) == -1
    ensures Comparison(Bumped(vc, k), vc) == 1
  {
    var b := Bumped(vc, k);
    assert Dominates(b, vc);
    assert !Dominates(vc, b) by {
      assert k in b && (k !in vc || vc[k] < b[k]);
    }
  }

  /** uint64 wrap-around: bumping an entry that holds the maximum resets it to 0,
      and the bumped clock compares as strictly earlier than the original. */
  lemma BumpAtMaximumGoesBack(vc: Clock, k: string)
    requires CounterOf(vc, k) == MaxUint64
    ensures Bumped(vc, k)[k] == 0
    ensures Comparison(Bumped(vc, k), vc) == -1
  {
    var b := Bumped(vc, k);
    assert k in vc;
    assert Dominates(vc, b);
    assert !Dominates(b, vc) by {
      assert b[k] < vc[k];
    }
  }
}
