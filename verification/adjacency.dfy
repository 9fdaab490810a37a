/** What an edge list means as an undirected simple graph: the raw neighbour
    lists the loader's bucket fill produces, the adjacency relation they leave
    once duplicates and self-loops are dropped, and the facts about both that
    the CSR construction relies on. */
module Adjacency {
  import opened EdgeList
  import opened Seqs
  import opened PrefixSum

  /** Every endpoint of `e` is a valid vertex of an `n`-vertex graph. */
  predicate EndpointsBelow(e: seq<Edge>, n: nat) {
    forall i :: 0 <= i < |e| ==> e[i].src < n && e[i].dst < n
  }

  /** `m` is the largest endpoint that occurs in `e`. */
  predicate IsMaxEndpoint(e: seq<Edge>, m: nat) {
    && EndpointsBelow(e, m + 1)
    && exists i :: 0 <= i < |e| && (e[i].src == m || e[i].dst == m)
  }

  /** An edge list has at most one largest endpoint. */
  lemma MaxEndpointUnique(e: seq<Edge>, m1: nat, m2: nat)
    requires IsMaxEndpoint(e, m1) && IsMaxEndpoint(e, m2)
    ensures m1 == m2
  {
    var i :| 0 <= i < |e| && (e[i].src == m1 || e[i].dst == m1);
    var j :| 0 <= j < |e| && (e[j].src == m2 || e[j].dst == m2);
    assert m1 <= m2 && m2 <= m1;
  }

  /** Edge `d` joins `u` and `v`, in either direction. */
  predicate Joins(d: Edge, u: nat, v: nat) {
    (d.src == u && d.dst == v) || (d.src == v && d.dst == u)
  }

  /** The values the bucket fill places in vertex `u`'s raw slice, in edge order:
      the destination of each edge leaving `u` and the source of each edge
      entering it, so a self-loop on `u` contributes `u` twice. */
  function Incident(e: seq<Edge>, u: nat): seq<nat> {
    if |e| == 0 then []
    else
      var d := e[|e| - 1];
      Incident(e[..|e| - 1], u)
        + (if d.src == u then [d.dst] else [])
        + (if d.dst == u then [d.src] else [])
  }

  /** `u` and `v` are distinct and some edge joins them. */
  predicate Adjacent(e: seq<Edge>, u: nat, v: nat) {
    u != v && exists i :: 0 <= i < |e| && Joins(e[i], u, v)
  }

  /** The neighbours of `u` in the simple graph the edge list describes. */
  function Neighbours(e: seq<Edge>, u: nat): set<nat> {
    (set i | 0 <= i < |e| && e[i].src == u && e[i].dst != u :: e[i].dst)
      + (set i | 0 <= i < |e| && e[i].dst == u && e[i].src != u :: e[i].src)
  }

  /** An edge with its endpoints in ascending order. */
  function Canonical(d: Edge): (nat, nat) {
    if d.src <= d.dst then (d.src, d.dst) else (d.dst, d.src)
  }

  /** The distinct unordered pairs of distinct vertices the edge list joins. */
  function UndirectedPairs(e: seq<Edge>): set<(nat, nat)> {
    set i | 0 <= i < |e| && e[i].src != e[i].dst :: Canonical(e[i])
  }

  lemma IncidentStep(e: seq<Edge>, i: nat, u: nat)
    requires i < |e|
    ensures Incident(e[..i + 1], u)
         == Incident(e[..i], u)
            + (if e[i].src == u then [e[i].dst] else [])
            + (if e[i].dst == u then [e[i].src] else [])
  {
    assert e[..i + 1][..i] == e[..i];
  }

  /** `u`'s raw slice after the first `i` edges of `e`: the same values as
      `Incident(e[..i], u)`, counted by position so that a loop over `e` can
      extend it one edge at a time. */
  function IncidentUpTo(e: seq<Edge>, i: nat, u: nat): seq<nat>
    requires i <= |e|
  {
    if i == 0 then []
    else
      IncidentUpTo(e, i - 1, u)
        + (if e[i - 1].src == u then [e[i - 1].dst] else [])
        + (if e[i - 1].dst == u then [e[i - 1].src] else [])
  }

  /** Counting by position agrees with taking the prefix of the edge list. */
  lemma {:induction false} IncidentUpToPrefix(e: seq<Edge>, i: nat, u: nat)
    requires i <= |e|
    ensures IncidentUpTo(e, i, u) == Incident(e[..i], u)
  {
    if i > 0 {
      IncidentUpToPrefix(e, i - 1, u);
      IncidentStep(e, i - 1, u);
    }
  }

  /** After all edges, the positional slice is the raw slice, and every earlier
      one is no longer. */
  lemma IncidentUpToAll(e: seq<Edge>, i: nat, u: nat)
    requires i <= |e|
    ensures IncidentUpTo(e, |e|, u) == Incident(e, u)
    ensures |IncidentUpTo(e, i, u)| <= |Incident(e, u)|
  {
    IncidentUpToPrefix(e, |e|, u);
    assert e[..|e|] == e;
    IncidentUpToPrefix(e, i, u);
    IncidentPrefixShorter(e, i, u);
  }

  /** The raw degree of `u` is the number of edge endpoints equal to `u`. */
  lemma {:induction false} IncidentCountsEndpoints(e: seq<Edge>, u: nat)
    ensures |Incident(e, u)| == multiset(Flatten(e))[u]
  {
    if |e| > 0 {
      IncidentCountsEndpoints(e[..|e| - 1], u);
    }
  }

  /** Growing the edge list only lengthens a raw slice. */
  lemma {:induction false} IncidentPrefixShorter(e: seq<Edge>, i: nat, u: nat)
    requires i <= |e|
    ensures |Incident(e[..i], u)| <= |Incident(e, u)|
    decreases |e| - i
  {
    if i < |e| {
      IncidentStep(e, i, u);
      IncidentPrefixShorter(e, i + 1, u);
    } else {
      assert e[..i] == e;
    }
  }

  /** `x` is in `u`'s raw slice exactly when some edge joins `u` and `x`. */
  lemma {:induction false} IncidentMembers(e: seq<Edge>, u: nat, x: nat)
    ensures x in Incident(e, u) <==> exists i :: 0 <= i < |e| && Joins(e[i], u, x)
  {
    if |e| > 0 {
      var init := e[..|e| - 1];
      IncidentMembers(init, u, x);
      if x in Incident(init, u) {
        var i :| 0 <= i < |init| && Joins(init[i], u, x);
        assert Joins(e[i], u, x);
      }
      if exists i :: 0 <= i < |e| && Joins(e[i], u, x) {
        var i :| 0 <= i < |e| && Joins(e[i], u, x);
        if i < |init| {
          assert Joins(init[i], u, x);
        }
      }
    }
  }

  /** The raw degree of every vertex below `n`: the length of its raw slice. */
  function RawDegrees(e: seq<Edge>, n: nat): (deg: seq<nat>)
    ensures |deg| == n
  {
    seq(n, v requires 0 <= v => |Incident(e, v)|)
  }

  /** The last edge of a non-empty list adds one to the raw degree of its
      source and one to that of its destination. */
  lemma RawDegreesStep(e: seq<Edge>, n: nat)
    requires |e| > 0 && e[|e| - 1].src < n && e[|e| - 1].dst < n
    ensures var before, d := RawDegrees(e[..|e| - 1], n), e[|e| - 1];
            var mid := before[d.src := before[d.src] + 1];
            RawDegrees(e, n) == mid[d.dst := mid[d.dst] + 1]
  {
  }

  /** Every edge contributes one to the raw degree of each endpoint (two to a
      self-loop's single endpoint), so the raw degrees add up to `2 * |e|`. */
  lemma {:induction false} RawDegreeSum(e: seq<Edge>, n: nat)
    requires EndpointsBelow(e, n)
    ensures Sum(RawDegrees(e, n)) == 2 * |e|
  {
    if |e| == 0 {
      assert RawDegrees(e, n) == seq(n, _ => 0);
      SumZeros(n);
    } else {
      var init, d := e[..|e| - 1], e[|e| - 1];
      assert EndpointsBelow(init, n) by {
        forall i | 0 <= i < |init|
          ensures init[i].src < n && init[i].dst < n
        {
          assert init[i] == e[i];
        }
      }
      RawDegreeSum(init, n);
      RawDegreesStep(e, n);
      SumTwoIncrements(RawDegrees(init, n), d.src, d.dst);
    }
  }

  /** Dropping `u` from the raw slice's values leaves exactly its neighbours. */
  lemma IncidentNeighbours(e: seq<Edge>, u: nat)
    ensures Elems(Incident(e, u)) - {u} == Neighbours(e, u)
  {
    forall x
      ensures x in Elems(Incident(e, u)) - {u} <==> x in Neighbours(e, u)
    {
      IncidentMembers(e, u, x);
      NeighboursAdjacent(e, u, x);
    }
  }

  /** Membership in `Neighbours` is the adjacency relation. */
  lemma NeighboursAdjacent(e: seq<Edge>, u: nat, v: nat)
    ensures v in Neighbours(e, u) <==> Adjacent(e, u, v)
  {
    if Adjacent(e, u, v) {
      var i :| 0 <= i < |e| && Joins(e[i], u, v);
      if e[i].src == u {
        assert v in (set i | 0 <= i < |e| && e[i].src == u && e[i].dst != u :: e[i].dst);
      } else {
        assert v in (set i | 0 <= i < |e| && e[i].dst == u && e[i].src != u :: e[i].src);
      }
    }
  }

  /** Neighbours of every vertex are endpoints, hence below any bound on endpoints. */
  lemma NeighboursBelow(e: seq<Edge>, n: nat, u: nat)
    requires EndpointsBelow(e, n)
    ensures forall v :: v in Neighbours(e, u) ==> v < n
  {
    forall v | v in Neighbours(e, u)
      ensures v < n
    {
      NeighboursAdjacent(e, u, v);
    }
  }

  /** Two edge lists join the same unordered pairs of distinct vertices exactly
      when they describe the same adjacency relation. */
  lemma PairsDetermineAdjacency(e1: seq<Edge>, e2: seq<Edge>)
    ensures UndirectedPairs(e1) == UndirectedPairs(e2)
        <==> (forall u, v :: Adjacent(e1, u, v) <==> Adjacent(e2, u, v))
  {
    if UndirectedPairs(e1) == UndirectedPairs(e2) {
      forall u, v | Adjacent(e1, u, v)
        ensures Adjacent(e2, u, v)
      {
        PairTransfer(e1, e2, u, v);
      }
      forall u, v | Adjacent(e2, u, v)
        ensures Adjacent(e1, u, v)
      {
        PairTransfer(e2, e1, u, v);
      }
    }
    if forall u, v :: Adjacent(e1, u, v) <==> Adjacent(e2, u, v) {
      forall p | p in UndirectedPairs(e1)
        ensures p in UndirectedPairs(e2)
      {
        PairBack(e1, e2, p);
      }
      forall p | p in UndirectedPairs(e2)
        ensures p in UndirectedPairs(e1)
      {
        PairBack(e2, e1, p);
      }
    }
  }

  lemma PairTransfer(e1: seq<Edge>, e2: seq<Edge>, u: nat, v: nat)
    requires UndirectedPairs(e1) <= UndirectedPairs(e2)
    requires Adjacent(e1, u, v)
    ensures Adjacent(e2, u, v)
  {
    var i :| 0 <= i < |e1| && Joins(e1[i], u, v);
    assert Canonical(e1[i]) in UndirectedPairs(e2);
    var j :| 0 <= j < |e2| && e2[j].src != e2[j].dst && Canonical(e2[j]) == Canonical(e1[i]);
    assert Joins(e2[j], u, v);
  }

  lemma PairBack(e1: seq<Edge>, e2: seq<Edge>, p: (nat, nat))
    requires forall u, v :: Adjacent(e1, u, v) ==> Adjacent(e2, u, v)
    requires p in UndirectedPairs(e1)
    ensures p in UndirectedPairs(e2)
  {
    var i :| 0 <= i < |e1| && e1[i].src != e1[i].dst && Canonical(e1[i]) == p;
    assert Joins(e1[i], p.0, p.1);
    assert Adjacent(e1, p.0, p.1);
    var j :| 0 <= j < |e2| && Joins(e2[j], p.0, p.1);
    assert Canonical(e2[j]) == p;
  }

  /** Ordered pairs (u, v) with `u` below `k` and `v` a neighbour of `u`. */
  function Arcs(e: seq<Edge>, k: nat): set<(nat, nat)> {
    set u, v | 0 <= u < k && v in Neighbours(e, u) :: (u, v)
  }

  /** The members of `s`, each paired with the first component `k`. */
  function Tagged(k: nat, s: set<nat>): set<(nat, nat)> {
    set v | v in s :: (k, v)
  }

  /** Pairing every member of a set with the same first component keeps the count. */
  lemma {:induction false} TaggedCard(k: nat, s: set<nat>)
    ensures |Tagged(k, s)| == |s|
    decreases s
  {
    if s != {} {
      var x :| x in s;
      TaggedCard(k, s - {x});
      assert Tagged(k, s) == Tagged(k, s - {x}) + {(k, x)};
      assert (k, x) !in Tagged(k, s - {x});
    }
  }

  /** The arcs leaving the first `k + 1` vertices: those leaving the first `k`,
      plus the disjoint row of vertex `k`. */
  lemma ArcsStep(e: seq<Edge>, k: nat)
    ensures Arcs(e, k + 1) == Arcs(e, k) + Tagged(k, Neighbours(e, k))
    ensures Arcs(e, k) * Tagged(k, Neighbours(e, k)) == {}
  {
    forall p | p in Arcs(e, k + 1)
      ensures p in Arcs(e, k) + Tagged(k, Neighbours(e, k))
    {
      if p.0 < k {
        assert p in Arcs(e, k);
      } else {
        assert p in Tagged(k, Neighbours(e, k));
      }
    }
  }

  /** The neighbour counts of the first `k` vertices add up to the arcs leaving them. */
  lemma {:induction false} SumIsArcCount(e: seq<Edge>, deg: seq<nat>, k: nat)
    requires k <= |deg|
    requires forall u :: 0 <= u < |deg| ==> deg[u] == |Neighbours(e, u)|
    ensures Sum(deg[..k]) == |Arcs(e, k)|
  {
    if k == 0 {
      assert Arcs(e, 0) == {};
    } else {
      SumIsArcCount(e, deg, k - 1);
      assert deg[..k][..k - 1] == deg[..k - 1];
      TaggedCard(k - 1, Neighbours(e, k - 1));
      ArcsStep(e, k - 1);
    }
  }

  /** A finite symmetric irreflexive relation has an even number of pairs. */
  lemma {:induction false} SymmetricEven(a: set<(nat, nat)>)
    requires forall p :: p in a ==> p.0 != p.1 && (p.1, p.0) in a
    ensures |a| % 2 == 0
    decreases a
  {
    if a != {} {
      var p :| p in a;
      var rest := a - {p, (p.1, p.0)};
      assert |rest| == |a| - 2;
      SymmetricEven(rest);
    }
  }

  /** Handshake lemma: every kept edge is seen from both of its ends, so the
      neighbour counts of all vertices add up to an even number. */
  lemma HandshakeEven(e: seq<Edge>, deg: seq<nat>)
    requires EndpointsBelow(e, |deg|)
    requires forall u :: 0 <= u < |deg| ==> deg[u] == |Neighbours(e, u)|
    ensures Sum(deg) % 2 == 0
  {
    var n := |deg|;
    SumIsArcCount(e, deg, n);
    assert deg[..n] == deg;
    forall p | p in Arcs(e, n)
      ensures p.0 != p.1 && (p.1, p.0) in Arcs(e, n)
    {
      NeighboursAdjacent(e, p.0, p.1);
      NeighboursAdjacent(e, p.1, p.0);
      NeighboursBelow(e, n, p.0);
    }
    SymmetricEven(Arcs(e, n));
  }
}
