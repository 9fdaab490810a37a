/** The loader itself: the edge list is turned into a CSR graph in seven steps,
    each a loop over edges or vertices. The source runs the edge and vertex
    loops of steps 2, 4, 5 and 7 on a thread pool with atomic counters; here
    every loop is sequential and the arrays are sequences updated in place. */
module CsrBuilder {
  import opened Outcome
  import opened Seqs
  import opened PrefixSum
  import opened EdgeList
  import opened Adjacency
  import opened Normalize
  import opened Csr

  /** Largest value of the loader's 32-bit signed vertex and offset type. */
  const MaxInt32: nat := 0x7fff_ffff

  /** No 32-bit counter of the loader can overflow: `max_id + 1`,
      `vertex_count + 1` and the raw offset total `2 * |e|` all fit. */
  predicate FitsInt32(e: seq<Edge>) {
    EndpointsBelow(e, MaxInt32 - 1) && 2 * |e| <= MaxInt32
  }

  /** Step 1: the largest endpoint, starting from the first source. */
  method MaxVertexId(e: seq<Edge>) returns (maxId: nat)
    requires |e| > 0
    ensures IsMaxEndpoint(e, maxId)
  {
    maxId := e[0].src;
    var i := 0;
    while i < |e|
      invariant 0 <= i <= |e|
      invariant forall k :: 0 <= k < i ==> e[k].src <= maxId && e[k].dst <= maxId
      invariant exists k :: 0 <= k < |e| && (e[k].src == maxId || e[k].dst == maxId)
    {
      var edgeMax := if e[i].src < e[i].dst then e[i].dst else e[i].src;
      maxId := if maxId < edgeMax then edgeMax else maxId;
      i := i + 1;
    }
  }

  /** Step 2: every edge bumps the counter of both endpoints, so the raw degree
      of `v` is the length of its raw slice and the counters add up to `2 * |e|`. */
  method CountDegrees(e: seq<Edge>, n: nat) returns (deg: seq<nat>)
    requires EndpointsBelow(e, n)
    ensures |deg| == n
    ensures forall v :: 0 <= v < n ==> deg[v] == |Incident(e, v)|
    ensures Sum(deg) == 2 * |e|
  {
    deg := seq(n, _ => 0);
    var i := 0;
    while i < |e|
      invariant 0 <= i <= |e|
      invariant |deg| == n
      invariant forall v :: 0 <= v < n ==> deg[v] == |IncidentUpTo(e, i, v)|
    {
      deg := deg[e[i].src := deg[e[i].src] + 1];
      deg := deg[e[i].dst := deg[e[i].dst] + 1];
      i := i + 1;
    }
    forall v | 0 <= v < n
      ensures deg[v] == |Incident(e, v)|
    {
      IncidentUpToAll(e, |e|, v);
    }
    assert deg == RawDegrees(e, n);
    RawDegreeSum(e, n);
  }

  /** `buf'` and `cursor'` are `buf` and `cursor` after one slot of `u`'s bucket
      was claimed for `x`: `u`'s cursor is the only one that moved, `u`'s filled
      part grew by `x`, and every other bucket kept its filled part. */
  predicate Placed(off: seq<nat>, buf: seq<nat>, cursor: seq<nat>, buf': seq<nat>, cursor': seq<nat>, u: nat, x: nat) {
    && Cuts(off, |buf|) && |cursor| == |off|
    && u + 1 < |off| && off[u] <= cursor[u] < off[u + 1]
    && |buf'| == |buf|
    && cursor' == cursor[u := cursor[u] + 1]
    && buf'[off[u]..cursor'[u]] == buf[off[u]..cursor[u]] + [x]
    && forall v: nat :: v + 1 < |off| && v != u && off[v] <= cursor[v] <= off[v + 1] ==>
         buf'[off[v]..cursor'[v]] == buf[off[v]..cursor[v]]
  }

  /** One atomic fetch-and-add of step 4: claim the next free slot of `u`'s
      bucket and write `x` there. The slot lies inside `u`'s bucket, so every
      other bucket keeps its filled part and `u`'s grows by `x`. */
  method PlaceNeighbour(buf: seq<nat>, cursor: seq<nat>, off: seq<nat>, u: nat, x: nat)
    returns (buf': seq<nat>, cursor': seq<nat>)
    requires Cuts(off, |buf|) && |cursor| == |off|
    requires u + 1 < |off| && off[u] <= cursor[u] < off[u + 1]
    ensures Placed(off, buf, cursor, buf', cursor', u, x)
  {
    var slot := cursor[u];
    cursor' := cursor[u := slot + 1];
    buf' := Splice(buf, slot, [x]);
    forall v: nat | v + 1 < |off| && v != u && off[v] <= cursor[v] <= off[v + 1]
      ensures buf'[off[v]..cursor'[v]] == buf[off[v]..cursor[v]]
    {
      if v < u {
        assert off[v + 1] <= off[u];
      } else {
        assert off[u + 1] <= off[v];
      }
      SpliceFrame(buf, slot, [x], off[v], cursor[v]);
    }
    assert buf'[off[u]..slot] == buf[off[u]..slot] by {
      SpliceFrame(buf, slot, [x], off[u], slot);
    }
    assert buf'[off[u]..slot + 1] == buf'[off[u]..slot] + [buf'[slot]];
  }

  /** Bucket `v` after the first `i` edges: the bucket has one slot per raw
      neighbour of `v`, the cursor has advanced past one slot per raw neighbour
      the first `i` edges contribute, and the claimed slots hold exactly those
      neighbours, in edge order. */
  predicate SlotsFilled(e: seq<Edge>, i: nat, v: nat, off: seq<nat>, buf: seq<nat>, cursor: seq<nat>) {
    && i <= |e| && v + 1 < |off| && v < |cursor|
    && off[v + 1] == off[v] + |Incident(e, v)|
    && cursor[v] == off[v] + |IncidentUpTo(e, i, v)|
    && cursor[v] <= off[v + 1] <= |buf|
    && buf[off[v]..cursor[v]] == IncidentUpTo(e, i, v)
  }

  /** Bucket-fill progress after the first `i` edges, for every bucket. */
  predicate Filled(e: seq<Edge>, i: nat, n: nat, off: seq<nat>, buf: seq<nat>, cursor: seq<nat>) {
    && i <= |e|
    && |off| == n + 1 && |cursor| == n + 1
    && Cuts(off, |buf|)
    && (forall v :: 0 <= v < n ==> SlotsFilled(e, i, v, off, buf, cursor))
  }

  /** Placing both endpoints of edge `i` extends bucket `v` by exactly what that
      edge contributes to the vertex's raw neighbours. */
  lemma BucketStep(e: seq<Edge>, i: nat, v: nat, off: seq<nat>,
                   buf0: seq<nat>, cursor0: seq<nat>, buf1: seq<nat>, cursor1: seq<nat>,
                   buf2: seq<nat>, cursor2: seq<nat>)
    requires i < |e|
    requires SlotsFilled(e, i, v, off, buf0, cursor0)
    requires Placed(off, buf0, cursor0, buf1, cursor1, e[i].src, e[i].dst)
    requires Placed(off, buf1, cursor1, buf2, cursor2, e[i].dst, e[i].src)
    ensures SlotsFilled(e, i + 1, v, off, buf2, cursor2)
  {
    IncidentUpToAll(e, i + 1, v);
    var s0 := buf0[off[v]..cursor0[v]];
    if v == e[i].src && v == e[i].dst {
    } else if v == e[i].src {
      assert s0 + [e[i].dst] + [] == s0 + [e[i].dst];
    } else if v == e[i].dst {
      assert s0 + [] + [e[i].src] == s0 + [e[i].src];
    } else {
      assert s0 + [] + [] == s0;
    }
  }

  /** The two placements of edge `i` take the fill from `i` edges to `i + 1`. */
  lemma EdgeStep(e: seq<Edge>, i: nat, n: nat, off: seq<nat>,
                 buf0: seq<nat>, cursor0: seq<nat>, buf1: seq<nat>, cursor1: seq<nat>,
                 buf2: seq<nat>, cursor2: seq<nat>)
    requires i < |e|
    requires Filled(e, i, n, off, buf0, cursor0)
    requires Placed(off, buf0, cursor0, buf1, cursor1, e[i].src, e[i].dst)
    requires Placed(off, buf1, cursor1, buf2, cursor2, e[i].dst, e[i].src)
    ensures Filled(e, i + 1, n, off, buf2, cursor2)
  {
    var next := i + 1;
    forall v | 0 <= v < n
      ensures SlotsFilled(e, next, v, off, buf2, cursor2)
    {
      BucketStep(e, i, v, off, buf0, cursor0, buf1, cursor1, buf2, cursor2);
    }
  }

  /** The body of the step 4 loop for edge `i`: place its destination in its
      source's bucket and its source in its destination's bucket. */
  method PlaceEdge(e: seq<Edge>, i: nat, n: nat, off: seq<nat>, buf: seq<nat>, cursor: seq<nat>)
    returns (buf': seq<nat>, cursor': seq<nat>)
    requires i < |e| && EndpointsBelow(e, n)
    requires Filled(e, i, n, off, buf, cursor)
    ensures |buf'| == |buf|
    ensures Filled(e, i + 1, n, off, buf', cursor')
  {
    var u, w := e[i].src, e[i].dst;
    assert SlotsFilled(e, i, u, off, buf, cursor) && SlotsFilled(e, i, w, off, buf, cursor);
    IncidentUpToAll(e, i + 1, u);
    IncidentUpToAll(e, i + 1, w);
    var midBuf, midCursor := PlaceNeighbour(buf, cursor, off, u, w);
    buf', cursor' := PlaceNeighbour(midBuf, midCursor, off, w, u);
    EdgeStep(e, i, n, off, buf, cursor, midBuf, midCursor, buf', cursor');
  }

  /** Step 4: every edge (u, v) puts `v` in `u`'s bucket and `u` in `v`'s, each
      bucket starting at the raw offset of its vertex. Each bucket ends up
      holding exactly the vertex's raw neighbours, and each cursor ends at the
      start of the next bucket: every slot was claimed, and claimed once. */
  method BucketFill(e: seq<Edge>, n: nat, ghost rawDeg: seq<nat>, off: seq<nat>) returns (buf: seq<nat>, cursor: seq<nat>)
    requires EndpointsBelow(e, n)
    requires |rawDeg| == n && forall v :: 0 <= v < n ==> rawDeg[v] == |Incident(e, v)|
    requires IsExclusiveScan(off, rawDeg)
    ensures |buf| == off[n]
    ensures forall u :: 0 <= u < n ==> multiset(buf[off[u]..off[u + 1]]) == multiset(Incident(e, u))
    ensures |cursor| == n + 1 && forall u :: 0 <= u < n ==> cursor[u] == off[u + 1]
  {
    ScanCuts(off, rawDeg);
    buf := seq(off[n], _ => 0);
    cursor := off;
    forall v | 0 <= v < n
      ensures SlotsFilled(e, 0, v, off, buf, cursor)
    {
      assert off[v + 1] == off[v] + rawDeg[v];
    }
    var i := 0;
    while i < |e|
      invariant |buf| == off[n]
      invariant Filled(e, i, n, off, buf, cursor)
    {
      buf, cursor := PlaceEdge(e, i, n, off, buf, cursor);
      i := i + 1;
    }
    forall u | 0 <= u < n
      ensures buf[off[u]..off[u + 1]] == Incident(e, u) && cursor[u] == off[u + 1]
    {
      assert SlotsFilled(e, i, u, off, buf, cursor);
      IncidentUpToAll(e, |e|, u);
    }
  }

  /** Bucket `v` of `buf` still holds its raw slice. */
  predicate SliceRaw(raw: seq<nat>, off: seq<nat>, buf: seq<nat>, v: nat) {
    && v + 1 < |off| && off[v] <= off[v + 1] <= |raw| == |buf|
    && buf[off[v]..off[v + 1]] == raw[off[v]..off[v + 1]]
  }

  /** Bucket `v` of `buf` starts with the normalized raw slice, `deg[v]` long. */
  predicate SliceNormalized(raw: seq<nat>, off: seq<nat>, buf: seq<nat>, deg: seq<nat>, v: nat) {
    && v + 1 < |off| && v < |deg| && off[v + 1] <= |raw| == |buf|
    && off[v] + deg[v] <= off[v + 1]
    && buf[off[v]..off[v] + deg[v]] == NormalizeSlice(raw[off[v]..off[v + 1]], v)
  }

  /** Writing the kept prefix of bucket `u` disturbs no other bucket. */
  lemma NormalizeFrame(raw: seq<nat>, off: seq<nat>, buf: seq<nat>, deg: seq<nat>, u: nat, kept: seq<nat>)
    requires Cuts(off, |raw|) && |buf| == |raw| && u + 1 < |off| && |deg| == u
    requires off[u] + |kept| <= off[u + 1]
    requires forall v :: 0 <= v < u ==> SliceNormalized(raw, off, buf, deg, v)
    requires forall v :: u < v < |off| - 1 ==> SliceRaw(raw, off, buf, v)
    ensures forall v :: 0 <= v < u ==> SliceNormalized(raw, off, Splice(buf, off[u], kept), deg + [|kept|], v)
    ensures forall v :: u < v < |off| - 1 ==> SliceRaw(raw, off, Splice(buf, off[u], kept), v)
  {
    var after, deg' := Splice(buf, off[u], kept), deg + [|kept|];
    forall v | 0 <= v < u
      ensures SliceNormalized(raw, off, after, deg', v)
    {
      assert SliceNormalized(raw, off, buf, deg, v);
      assert off[v + 1] <= off[u];
      SpliceFrame(buf, off[u], kept, off[v], off[v] + deg[v]);
    }
    forall v | u < v < |off| - 1
      ensures SliceRaw(raw, off, after, v)
    {
      assert SliceRaw(raw, off, buf, v);
      assert off[u + 1] <= off[v];
      SpliceFrame(buf, off[u], kept, off[v], off[v + 1]);
    }
  }

  /** Step 5: each vertex's bucket is sorted, stripped of repeats and of the
      vertex itself; the kept prefix is written back at the start of the bucket
      and its length becomes the vertex's degree. */
  method NormalizeSlices(raw: seq<nat>, off: seq<nat>, n: nat) returns (buf: seq<nat>, deg: seq<nat>)
    requires |off| == n + 1
    requires Cuts(off, |raw|)
    ensures |buf| == |raw| && |deg| == n
    ensures forall u {:trigger deg[u]} :: 0 <= u < n ==> off[u] + deg[u] <= off[u + 1]
    ensures forall u :: 0 <= u < n ==>
              buf[off[u]..off[u] + deg[u]] == NormalizeSlice(raw[off[u]..off[u + 1]], u)
  {
    buf := raw;
    deg := [];
    var u := 0;
    while u < n
      invariant 0 <= u <= n
      invariant |buf| == |raw| && |deg| == u
      invariant forall v :: 0 <= v < u ==> SliceNormalized(raw, off, buf, deg, v)
      invariant forall v :: u <= v < n ==> SliceRaw(raw, off, buf, v)
    {
      assert SliceRaw(raw, off, buf, u);
      var kept := NormalizeSlice(buf[off[u]..off[u + 1]], u);
      NormalizeFrame(raw, off, buf, deg, u, kept);
      buf := Splice(buf, off[u], kept);
      deg := deg + [|kept|];
      assert SliceNormalized(raw, off, buf, deg, u);
      u := u + 1;
    }
    forall v | 0 <= v < n
      ensures off[v] + deg[v] <= off[v + 1]
      ensures buf[off[v]..off[v] + deg[v]] == NormalizeSlice(raw[off[v]..off[v + 1]], v)
    {
      assert SliceNormalized(raw, off, buf, deg, v);
    }
  }

  /** Step 7: each vertex's kept prefix is copied to its final offset. */
  method Compact(buf: seq<nat>, rawOff: seq<nat>, deg: seq<nat>, off: seq<nat>) returns (nbrs: seq<nat>)
    requires |rawOff| == |deg| + 1
    requires Cuts(rawOff, |buf|)
    requires forall u {:trigger deg[u]} :: 0 <= u < |deg| ==> rawOff[u] + deg[u] <= rawOff[u + 1]
    requires IsExclusiveScan(off, deg)
    ensures |nbrs| == off[|deg|]
    ensures forall u :: 0 <= u < |deg| ==>
              nbrs[off[u]..off[u + 1]] == buf[rawOff[u]..rawOff[u] + deg[u]]
  {
    var n := |deg|;
    ScanMonotone(off, deg);
    nbrs := seq(off[n], _ => 0);
    var u := 0;
    while u < n
      invariant 0 <= u <= n
      invariant |nbrs| == off[n]
      invariant forall v :: 0 <= v < u ==> nbrs[off[v]..off[v + 1]] == buf[rawOff[v]..rawOff[v] + deg[v]]
    {
      var kept := buf[rawOff[u]..rawOff[u] + deg[u]];
      assert off[u + 1] == off[u] + deg[u] && off[u + 1] <= off[n];
      ghost var before := nbrs;
      nbrs := Splice(nbrs, off[u], kept);
      forall v | 0 <= v < u
        ensures nbrs[off[v]..off[v + 1]] == before[off[v]..off[v + 1]]
      {
        SpliceFrame(before, off[u], kept, off[v], off[v + 1]);
      }
      u := u + 1;
    }
  }

  /** The whole construction (`convert_to_csr_impl`). An empty edge list is
      rejected; otherwise the result is the CSR graph of the edge list, with
      sorted rows, and every count fits the loader's 32-bit type. */
  method ConvertToCsr(e: seq<Edge>) returns (r: Result<Graph>)
    requires FitsInt32(e)
    ensures r.Err? <==> |e| == 0
    ensures r.Err? ==> r.error == EmptyEdgeList
    ensures r.Ok? ==> Represents(r.value, e)
    ensures r.Ok? ==> r.value.vertexCount + 1 <= MaxInt32
    ensures r.Ok? ==> forall i :: 0 <= i < |r.value.offsets| ==> r.value.offsets[i] <= MaxInt32
  {
    if |e| == 0 {
      return Err(EmptyEdgeList);
    }
    // Step 1: vertex count.
    var maxId := MaxVertexId(e);
    var n := maxId + 1;
    // Step 2: raw degrees.
    var rawDeg := CountDegrees(e, n);
    // Step 3: raw offsets.
    var rawOff := ExclusiveScan(rawDeg);
    ScanCuts(rawOff, rawDeg);
    // Step 4: bucket fill.
    var raw, _ := BucketFill(e, n, rawDeg, rawOff);
    // Step 5: per-vertex sort, unique, self-loop removal.
    var buf, deg := NormalizeSlices(raw, rawOff, n);
    // Step 6: final offsets and edge count.
    var off := ExclusiveScan(deg);
    // Step 7: compaction.
    var nbrs := Compact(buf, rawOff, deg, off);
    DegreesAreNeighbourCounts(e, rawDeg, rawOff, raw, buf, deg);
    AssembledRepresents(e, n, deg, off, nbrs, rawOff, raw, buf);
    OffsetsFitInt32(e, rawDeg, rawOff, deg, off);
    return Ok(Graph(n, deg, off, nbrs, off[n] / 2));
  }

  /** The degree step 5 records for each vertex is its number of neighbours, and
      never more than its raw degree. */
  lemma DegreesAreNeighbourCounts(e: seq<Edge>, rawDeg: seq<nat>, rawOff: seq<nat>, raw: seq<nat>,
                                  buf: seq<nat>, deg: seq<nat>)
    requires |rawDeg| == |deg| && IsExclusiveScan(rawOff, rawDeg) && |raw| == rawOff[|deg|]
    requires forall u :: 0 <= u < |deg| ==> multiset(raw[rawOff[u]..rawOff[u + 1]]) == multiset(Incident(e, u))
    requires |buf| == |raw|
    requires forall u {:trigger deg[u]} :: 0 <= u < |deg| ==> rawOff[u] + deg[u] <= rawOff[u + 1]
    requires forall u :: 0 <= u < |deg| ==>
               buf[rawOff[u]..rawOff[u] + deg[u]] == NormalizeSlice(raw[rawOff[u]..rawOff[u + 1]], u)
    ensures forall u :: 0 <= u < |deg| ==> deg[u] == |Neighbours(e, u)| && deg[u] <= rawDeg[u]
  {
    ScanMonotone(rawOff, rawDeg);
    forall u | 0 <= u < |deg|
      ensures deg[u] == |Neighbours(e, u)| && deg[u] <= rawDeg[u]
    {
      KeptPrefixIsNeighbours(e, raw, rawOff, u);
      assert |buf[rawOff[u]..rawOff[u] + deg[u]]| == deg[u];
      assert rawOff[u + 1] == rawOff[u] + rawDeg[u];
    }
  }

  /** Steps 5 to 7 put together: the final degrees, offsets and compacted rows
      form the CSR graph of `e`. */
  lemma AssembledRepresents(e: seq<Edge>, n: nat, deg: seq<nat>, off: seq<nat>, nbrs: seq<nat>,
                            rawOff: seq<nat>, raw: seq<nat>, buf: seq<nat>)
    requires n > 0 && IsMaxEndpoint(e, n - 1)
    requires |deg| == n && |rawOff| == n + 1 && Cuts(rawOff, |raw|)
    requires forall u :: 0 <= u < n ==> multiset(raw[rawOff[u]..rawOff[u + 1]]) == multiset(Incident(e, u))
    requires |buf| == |raw|
    requires forall u :: 0 <= u < n ==> deg[u] == |Neighbours(e, u)|
    requires forall u {:trigger deg[u]} :: 0 <= u < n ==> rawOff[u] + deg[u] <= rawOff[u + 1]
    requires forall u :: 0 <= u < n ==>
               buf[rawOff[u]..rawOff[u] + deg[u]] == NormalizeSlice(raw[rawOff[u]..rawOff[u + 1]], u)
    requires IsExclusiveScan(off, deg) && |nbrs| == off[n]
    requires forall u :: 0 <= u < n ==> nbrs[off[u]..off[u + 1]] == buf[rawOff[u]..rawOff[u] + deg[u]]
    ensures Represents(Graph(n, deg, off, nbrs, off[n] / 2), e)
  {
    HandshakeEven(e, deg);
    ScanMonotone(off, deg);
    var g := Graph(n, deg, off, nbrs, off[n] / 2);
    assert WellFormed(g);
    forall u | 0 <= u < n
      ensures StrictlyAscending(Row(g, u)) && Elems(Row(g, u)) == Neighbours(e, u)
    {
      assert Row(g, u) == NormalizeSlice(raw[rawOff[u]..rawOff[u + 1]], u);
      KeptPrefixIsNeighbours(e, raw, rawOff, u);
    }
  }

  /** No final offset exceeds the raw offset total `2 * |e|`, so all of them fit
      the loader's 32-bit type. */
  lemma OffsetsFitInt32(e: seq<Edge>, rawDeg: seq<nat>, rawOff: seq<nat>, deg: seq<nat>, off: seq<nat>)
    requires FitsInt32(e)
    requires |rawDeg| == |deg| && Sum(rawDeg) == 2 * |e| && IsExclusiveScan(rawOff, rawDeg)
    requires forall u :: 0 <= u < |deg| ==> deg[u] <= rawDeg[u]
    requires IsExclusiveScan(off, deg)
    ensures forall i :: 0 <= i < |off| ==> off[i] <= 2 * |e|
    ensures forall i :: 0 <= i < |off| ==> off[i] <= MaxInt32
  {
    ScanMonotone(rawOff, rawDeg);
    forall i | 0 <= i < |off|
      ensures off[i] <= 2 * |e|
    {
      ScanDominated(off, deg, rawOff, rawDeg, i);
    }
  }

  /** The kept prefix of a bucket that holds `u`'s raw neighbours, in any order,
      is strictly ascending and has exactly the neighbours of `u` as its values. */
  lemma KeptPrefixIsNeighbours(e: seq<Edge>, raw: seq<nat>, off: seq<nat>, u: nat)
    requires |off| >= u + 2 && off[u] <= off[u + 1] <= |raw|
    requires multiset(raw[off[u]..off[u + 1]]) == multiset(Incident(e, u))
    ensures StrictlyAscending(NormalizeSlice(raw[off[u]..off[u + 1]], u))
    ensures Elems(NormalizeSlice(raw[off[u]..off[u + 1]], u)) == Neighbours(e, u)
    ensures |NormalizeSlice(raw[off[u]..off[u + 1]], u)| == |Neighbours(e, u)|
  {
    var kept := NormalizeSlice(raw[off[u]..off[u + 1]], u);
    NormalizeDependsOnlyOnMultiset(raw[off[u]..off[u + 1]], Incident(e, u), u);
    IncidentNeighbours(e, u);
    StrictlyAscendingCard(kept);
  }

  /** The 32-bit limits of `FitsInt32`, stated on the token stream. They bound
      only the paired tokens: an unpaired last token is never parsed. */
  predicate TokensFitInt32(t: seq<nat>) {
    && 2 * (|t| / 2) <= MaxInt32
    && forall k :: 0 <= k < 2 * (|t| / 2) ==> t[k] < MaxInt32 - 1
  }

  /** `load_impl`: read the edge list, then build the graph. A missing file and
      an edge list without a single pair are the two errors. */
  method Load(src: Source) returns (r: Result<Graph>)
    requires src.Text? ==> TokensFitInt32(src.tokens)
    ensures src.Unopenable? ==> r == Err(FileNotFound)
    ensures src.Text? && |src.tokens| < 2 ==> r == Err(EmptyEdgeList)
    ensures src.Text? && |src.tokens| >= 2 ==>
              r.Ok? && exists e :: PairsOf(src.tokens, e) && Represents(r.value, e)
  {
    var edges := LoadEdgeList(src);
    if edges.Err? {
      return Err(edges.error);
    }
    var e := edges.value;
    assert FitsInt32(e) by {
      forall i | 0 <= i < |e|
        ensures e[i].src < MaxInt32 - 1 && e[i].dst < MaxInt32 - 1
      {
        assert e[i] == Edge(src.tokens[2 * i], src.tokens[2 * i + 1]);
      }
    }
    r := ConvertToCsr(e);
  }
}
