# Edge-list to CSR graph loader

This project models oneDAL's graph loader (`load_graph.hpp`), which works in two
stages. The first stage reads a text file of whitespace-separated vertex ids,
two at a time, into an edge list. The second stage turns that edge list into an
undirected simple graph in compressed-sparse-row (CSR) form. The CSR graph has:

- a vertex count;
- a degree per vertex;
- an offset array;
- one flat neighbour array;
- an edge count.

The builder (`convert_to_csr_impl`) runs seven steps:

1. A max-scan gives the vertex count.
2. Both endpoints of every edge are counted into raw degrees.
3. An exclusive prefix sum of the raw degrees gives the raw offsets.
4. An atomic bucket fill places each edge at both of its endpoints.
5. Each vertex's bucket is sorted, de-duplicated and stripped of the vertex
   itself.
6. A second prefix sum gives the final offsets and the edge count.
7. Compaction copies every kept prefix into the final neighbour array.

Modules:

- `Outcome`: the two errors, "file not found" and "empty edge list", and a
  `Result` type.
- `EdgeList`: the reader over an abstract token stream.
- `PrefixSum`: sums and the exclusive scan used by steps 3 and 6.
- `Normalize`: the `std::sort` / `std::unique` / `std::remove` pipeline of step 5.
- `Adjacency`: what an edge list means:
  - the raw neighbour slice each vertex receives;
  - the adjacency relation of the simple graph;
  - the handshake lemma.
- `Csr`: the graph datatype, and `Represents`, which says when a graph is the
  CSR form of an edge list.
- `CsrBuilder`: the seven steps and `load_impl`.
- `Scenarios`: two worked inputs whose loaded graph is pinned down exactly.

All paths below are relative to the repository root.

## Model

| member | source | states |
|---|---|---|
| EdgeList.LoadEdgeList | cpp/oneapi/dal/io/detail/load_graph.hpp:38-53 | An unopenable file is exactly the error case, and that error is "file not found". Otherwise there are floor(tokens/2) edges, in file order, and edge i is (token 2i, token 2i+1). |
| EdgeList.ReadDropsOnlyTrailingToken | cpp/oneapi/dal/io/detail/load_graph.hpp:46-50 | Writing the read edges back out as tokens gives the input with at most its last unpaired token dropped. |
| EdgeList.ReadFlattened | cpp/oneapi/dal/io/detail/load_graph.hpp:46-50 | Reading the tokens of any edge list gives back that edge list (the round trip). |
| CsrBuilder.MaxVertexId | cpp/oneapi/dal/io/detail/load_graph.hpp:67-71 | The result bounds every endpoint and is itself an endpoint of some edge. |
| Adjacency.MaxEndpointUnique | cpp/oneapi/dal/io/detail/load_graph.hpp:67-73 | That maximum is unique, so the vertex count is a function of the edge list. |
| CsrBuilder.CountDegrees | cpp/oneapi/dal/io/detail/load_graph.hpp:79-86 | The raw degree of v is the length of v's raw neighbour slice. The raw degrees add up to twice the number of edges. |
| Adjacency.IncidentCountsEndpoints | cpp/oneapi/dal/io/detail/load_graph.hpp:83-86 | A vertex's raw degree is the number of edge endpoints equal to it, so a self-loop counts twice. |
| Adjacency.RawDegreeSum | cpp/oneapi/dal/io/detail/load_graph.hpp:83-86 | Every edge adds one at each endpoint, so the raw degrees sum to twice the number of edges. |
| PrefixSum.ExclusiveScan | cpp/oneapi/dal/io/detail/load_graph.hpp:92-97 | offsets[0] = 0 and offsets[i+1] = offsets[i] + d[i]. offsets[i] is the sum of the first i entries, and no entry exceeds the last. |
| PrefixSum.ScanIsPrefixSum | cpp/oneapi/dal/io/detail/load_graph.hpp:92-97 | Any sequence with the scan shape holds the prefix sums. |
| PrefixSum.ScanMonotone | cpp/oneapi/dal/io/detail/load_graph.hpp:139-144 | The offsets are non-decreasing, and the last one is the total of the degrees. |
| PrefixSum.ScanUnique | cpp/oneapi/dal/io/detail/load_graph.hpp:139-144 | The degrees determine the offsets. |
| CsrBuilder.PlaceNeighbour | cpp/oneapi/dal/io/detail/load_graph.hpp:115-116 | One fetch-and-add moves only u's cursor, by one. It appends x to u's filled part and leaves every other bucket's filled part unchanged. |
| CsrBuilder.PlaceEdge | cpp/oneapi/dal/io/detail/load_graph.hpp:114-117 | Placing edge i at both ends extends the fill invariant from the first i edges to the first i+1. |
| CsrBuilder.BucketFill | cpp/oneapi/dal/io/detail/load_graph.hpp:101-117 | Bucket u holds, as a multiset, exactly u's raw neighbours. Each cursor ends at the start of the next bucket, so every slot of the raw buffer is claimed exactly once. |
| Normalize.Sort | cpp/oneapi/dal/io/detail/load_graph.hpp:129-129 | The result is sorted and a permutation of the input. |
| Normalize.Unique | cpp/oneapi/dal/io/detail/load_graph.hpp:131-131 | The kept prefix has the input's values, is never longer and keeps the first element. On sorted input it is strictly ascending. |
| Normalize.RemoveValue | cpp/oneapi/dal/io/detail/load_graph.hpp:132-132 | The kept prefix has the input's values except u, is never longer and stays strictly ascending. |
| Normalize.NormalizeSlice | cpp/oneapi/dal/io/detail/load_graph.hpp:126-133 | A normalized bucket is strictly ascending and never contains u. Its values are the bucket's values minus u. |
| Normalize.NormalizeDependsOnlyOnMultiset | cpp/oneapi/dal/io/detail/load_graph.hpp:129-133 | Buckets with the same multiset normalize to the same kept prefix, so the fill order of step 4 does not matter. |
| Adjacency.IncidentNeighbours | cpp/oneapi/dal/io/detail/load_graph.hpp:129-133 | A raw slice's values minus the vertex itself are exactly its neighbours in the simple graph. |
| CsrBuilder.NormalizeSlices | cpp/oneapi/dal/io/detail/load_graph.hpp:125-134 | Each bucket starts with its normalized raw slice. The new degree is that prefix's length and fits inside the bucket. |
| CsrBuilder.DegreesAreNeighbourCounts | cpp/oneapi/dal/io/detail/load_graph.hpp:131-133 | The final degree of every vertex is its number of distinct neighbours, and never more than its raw degree. |
| Adjacency.HandshakeEven | cpp/oneapi/dal/io/detail/load_graph.hpp:139-145 | The final degrees add up to an even number, so the edge count total/2 loses nothing. |
| CsrBuilder.Compact | cpp/oneapi/dal/io/detail/load_graph.hpp:147-157 | Row u of the final neighbour array is exactly u's kept prefix. |
| CsrBuilder.AssembledRepresents | cpp/oneapi/dal/io/detail/load_graph.hpp:136-157 | The outputs of steps 5 to 7 form the CSR graph of the edge list. |
| CsrBuilder.OffsetsFitInt32 | cpp/oneapi/dal/io/detail/load_graph.hpp:139-144 | No final offset exceeds the raw total, which is twice the number of edges, so none overflows the 32-bit vertex type. |
| CsrBuilder.ConvertToCsr | cpp/oneapi/dal/io/detail/load_graph.hpp:56-164 | An empty edge list is exactly the error case. Otherwise the result is the CSR graph of the edge list, with sorted rows. The vertex count plus one and the offsets stay within int32. |
| CsrBuilder.Load | cpp/oneapi/dal/io/detail/load_graph.hpp:166-171 | A missing file gives "file not found". Fewer than two tokens give "empty edge list". Otherwise the result is the graph of the file's token pairs. |
| Csr.RepresentedIsSimple | cpp/oneapi/dal/io/detail/load_graph.hpp:124-134 | The loaded graph is simple and undirected: rows hold valid vertices and never their own vertex, and v is in u's row iff u is in v's. |
| Csr.RowsDetermineGraph | cpp/oneapi/dal/io/detail/load_graph.hpp:136-157 | Degrees, offsets and neighbour array are fixed by the vertex count and the value set of each sorted row. |
| Adjacency.PairsDetermineAdjacency | cpp/oneapi/dal/io/detail/load_graph.hpp:124-134 | Two edge lists have the same unordered non-loop pairs iff they have the same adjacency relation. |
| Csr.DependsOnlyOnPairs | cpp/oneapi/dal/io/detail/load_graph.hpp:124-157 | The loaded graph depends only on the maximum vertex id and the set of distinct unordered non-loop pairs. |
| Csr.SameEdgesSameGraph | cpp/oneapi/dal/io/detail/load_graph.hpp:124-157 | Edge lists holding the same edges, in any order and with any repetition, load to the same graph. |
| Scenarios.SmallGraphLoads | cpp/oneapi/dal/io/detail/load_graph.hpp:56-164 | The edges 0-1, 1-2, 0-1, 2-2 load to exactly vertex count 3, degrees [1,2,1], offsets [0,1,3,4], neighbours [1,0,2,1] and edge count 2. |
| Scenarios.SelfLoopOnlyLoads | cpp/oneapi/dal/io/detail/load_graph.hpp:67-133 | A single self-loop 5-5 loads to six isolated vertices with no edges. |

## Left out

- Opening and reading the file (`std::ifstream`, lines 38-50) is left out. The input is modelled as either "cannot be opened" or a sequence of already-parsed tokens.
- Parsing with `daal_string_to_int` is a call into code that is not part of this model. As a result, tokens are non-negative integers. Negative ids are not modelled: they would index the degree array out of bounds. Nor are non-numeric tokens or tokens longer than the 32-byte read buffer.
- `threader_for` parallelism and the `daal::services::Atomic` counters are left out. Every parallel loop is modelled as a sequential loop.
  - Steps 1, 3 and 6 are sequential loops in the source.
  - The copy of the raw offsets (lines 110-112), step 5 and step 7 are parallel, but each index does independent work.
  - Steps 2 and 4 are parallel and share counters: edges that share an endpoint increment the same atomic per-vertex counter (`degrees_cv` in step 2, lines 83-86, and the `rows_vec_atomic` cursor in step 4, lines 114-117). The sequential loop is one ordering of those fetch-and-adds.
  - In step 2 every ordering gives the same counts.
  - In step 4 the schedule decides which slot of its endpoint's bucket an edge gets, so only the order inside each bucket depends on it. Step 5 removes that order (`Normalize.NormalizeDependsOnlyOnMultiset`).
- `CsrBuilder.BucketFill` states each bucket's contents only as a multiset, although the sequential model fills buckets in edge order. The parallel source fixes no order, so the multiset is all it promises.
- The allocator, placement new and deallocation (lines 79-81, 88-90, 98-108, 118-119, 159-162) are memory management and are left out. Lines 159-160 compute the size of the buffer being freed from `rows_vec_atomic`, which lines 118-119 already freed. The model has no memory, so this read of freed storage is outside it.
- `CsrBuilder.ConvertToCsr` and `CsrBuilder.Load` require the input to fit the 32-bit `vertex_t` instead of modelling wrap-around. Every endpoint must be below 2^31 - 2, and 2·|edges| must be at most 2^31 - 1. For `Load` these bounds apply only to the paired tokens, because an unpaired last token is never parsed. Under these limits `max_id + 1`, `vertex_count + 1` (lines 89-90, 107-108, 110 and 136) and both prefix sums cannot overflow.
- `Normalize.Unique` and `Normalize.RemoveValue` model only the kept prefix that `std::unique` and `std::remove` return. The standard leaves the elements past the new end unspecified, and the loader never reads them. In the model those slots keep their raw values.
- Exceptions become `Result` errors. The message text of `invalid_argument` is not modelled.
- The graph object's layout fields are represented by the `Graph` datatype. The allocator they carry is not modelled.
