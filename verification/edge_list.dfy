/** The edge-list reader: whitespace-separated tokens taken two at a time as
    `(source, destination)` pairs, in file order. */
module EdgeList {
  import opened Outcome

  /** One pair as read; duplicates and self-loops are allowed at this stage. */
  datatype Edge = Edge(src: nat, dst: nat)

  /** What the reader is given: a file that cannot be opened, or the tokens of
      one that can, each already parsed to a non-negative vertex id. */
  datatype Source = Unopenable | Text(tokens: seq<nat>)

  /** `e` pairs up the tokens `t`: pair i is (token 2i, token 2i+1), and an
      unpaired last token is dropped. */
  predicate PairsOf(t: seq<nat>, e: seq<Edge>) {
    && |e| == |t| / 2
    && forall i :: 0 <= i < |e| ==> e[i] == Edge(t[2 * i], t[2 * i + 1])
  }

  /** Reads pairs until fewer than two tokens remain; an unopenable source is an error. */
  method LoadEdgeList(src: Source) returns (r: Result<seq<Edge>>)
    ensures src.Unopenable? <==> r.Err?
    ensures r.Err? ==> r.error == FileNotFound
    ensures r.Ok? ==> PairsOf(src.tokens, r.value)
  {
    if src.Unopenable? {
      return Err(FileNotFound);
    }
    var t := src.tokens;
    var edges: seq<Edge> := [];
    var pos := 0;
    while pos + 2 <= |t|
      invariant pos == 2 * |edges| <= |t|
      invariant forall i :: 0 <= i < |edges| ==> edges[i] == Edge(t[2 * i], t[2 * i + 1])
    {
      edges := edges + [Edge(t[pos], t[pos + 1])];
      pos := pos + 2;
    }
    return Ok(edges);
  }

  /** The tokens an edge list is written as: source then destination, edge by edge. */
  function Flatten(e: seq<Edge>): (t: seq<nat>)
    ensures |t| == 2 * |e|
  {
    if |e| == 0 then [] else Flatten(e[..|e| - 1]) + [e[|e| - 1].src, e[|e| - 1].dst]
  }

  /** Flatten places edge i at tokens 2i and 2i+1. */
  lemma {:induction false} FlattenAt(e: seq<Edge>, i: nat)
    requires i < |e|
    ensures Flatten(e)[2 * i] == e[i].src
    ensures Flatten(e)[2 * i + 1] == e[i].dst
  {
    if i < |e| - 1 {
      FlattenAt(e[..|e| - 1], i);
    }
  }

  /** Reading loses nothing but an unpaired last token. */
  lemma ReadDropsOnlyTrailingToken(t: seq<nat>, e: seq<Edge>)
    requires PairsOf(t, e)
    ensures Flatten(e) == t[..2 * (|t| / 2)]
  {
    forall k | 0 <= k < 2 * |e|
      ensures Flatten(e)[k] == t[k]
    {
      FlattenAt(e, k / 2);
    }
  }

  /** Reading the tokens of an edge list gives back that edge list. */
  lemma {:induction false} ReadFlattened(e: seq<Edge>)
    ensures PairsOf(Flatten(e), e)
  {
    forall i | 0 <= i < |e|
      ensures e[i] == Edge(Flatten(e)[2 * i], Flatten(e)[2 * i + 1])
    {
      FlattenAt(e, i);
    }
  }
}
