# KNR sequence index and approximate-graph beam search

This project models two approximate nearest-neighbour searches of the natix
similarity-search library and proves properties of them in Dafny.

- **`KnrSeqSearch`** (module `Knr`, specification functions in `KnrSpec`).
  - `Build` reduces every object of the dataset to its K-nearest-references
    signature. It concatenates the n signatures row by row into an array `G`
    of n·K ids, and that array becomes the rank/select sequence `SEQ`.
  - A query computes its own signature (`GetKnr`) and generates candidates
    with one of two policies:
    - Below 500000 objects, the small-dataset policy runs. A byte counter per
      document reaches the length of the common prefix of the query's
      signature and the document's stored signature. Every document with a
      nonzero counter is emitted with the negated counter as score.
    - Otherwise, the large-dataset policy runs. It intersects posting lists,
      each shifted by its rank, while the candidate set is larger than the
      budget. It emits with score 0 every document whose row start survives.
  - `SearchKNN` then re-ranks the candidates by true distance, evaluating at
    most max(MAXCAND, 1) of them. When MAXCAND is negative it returns the
    candidates as they are.
- **`ApproxGraphLocalBeamKNR`** (module `Beam`): a local beam search over a
  proximity graph given by its adjacency lists `Vertices`.
  - It seeds a beam from min(1024, |V|) random vertices.
  - It then expands the beam along the adjacency lists at most
    `RepeatSearch` times. It stops after the second consecutive expansion
    that leaves the covering radius of the final result unchanged.
  - An `evaluated` set makes sure no vertex is evaluated twice.

Shared pieces are modelled as follows.

- **Posting lists** (module `Postings`). `SEQ.Unravel(s).Select1(j)` is the
  j-th position holding `s`, in increasing order. `ShiftedSortedListRS(rs, -i)`
  is every such position minus i. The Baeza-Yates intersection is given by
  what it returns: the common elements, in order.
- **Result accumulators** (module `Results`). An accumulator is the log of
  what was pushed into it. What it keeps and enumerates (`Result`,
  `ResultTies`) is an injected view that only returns pushed entries. Its
  covering radius is an injected function of the kept entries.
- **Injected collaborators.** These become parameters:
  - the reference index's `SearchKNN`, assumed to return at most K ids of its
    own dataset;
  - the dataset and its distance;
  - the random source, a stream of pre-drawn vertex ids.

The `byte[]` counters of the small-dataset policy are modelled with their
wrap-around at 256. With K ≤ 255 a counter is exactly the common-prefix
length (`KnrSpec.MatchCountsBound`). With larger K, a document that agrees on
256 ranks wraps to 0 and is not emitted. The `(ushort)` cast of
`GetStoredKnr` is modelled as reduction modulo 65536.

## Model

| member | source | states |
|---|---|---|
| Knr.KnrSeqSearch.Build | natix.SimilaritySearch/Indexes/KNR/KnrSeqSearch.cs:68-90 | Sets DB, R, K and MAXCAND. Establishes the index invariant: SEQ has exactly n·K entries, and row d (positions d·K … d·K+K−1) holds the signature `GetKnr(DB[d])` for every d < n. |
| Knr.WriteRow | natix.SimilaritySearch/Indexes/KNR/KnrSeqSearch.cs:82-84 | The inner copy loop `G[i*K+j] = useq[j]` extends the encoded prefix of G from row i to row i+1. |
| KnrSpec.EncodesRows | natix.SimilaritySearch/Indexes/KNR/KnrSeqSearch.cs:75-85 | When every position p < n·K holds rank p % K of signature p / K, every row d of the array equals signature d. |
| KnrSpec.EncodesStep | natix.SimilaritySearch/Indexes/KNR/KnrSeqSearch.cs:83 | Writing rank j of signature i at i·K+j extends the encoded prefix by exactly one position. |
| Knr.KnrSeqSearch.GetKnr | natix.SimilaritySearch/Indexes/KNR/KnrSeqSearch.cs:92-102 | Returns a fresh array of exactly K ids: the reference index's ranked ids in their order, then zeros. |
| Knr.KnrSeqSearch.GetStoredKnr | natix.SimilaritySearch/Indexes/KNR/KnrSeqSearch.cs:104-111 | Returns K values read from positions K·docid … K·docid+K−1, each cast to ushort. These equal the document's signature modulo 65536, and exactly the signature when the reference ids fit in a ushort. This is the round trip with `GetKnr`. |
| Knr.KnrSeqSearch.StoredAt | natix.SimilaritySearch/Indexes/KNR/KnrSeqSearch.cs:107-108 | In a valid index, rank j of document d's signature is at position d·K+j. |
| Knr.KnrSeqSearch.GetCandidatesSmallDB | natix.SimilaritySearch/Indexes/KNR/KnrSeqSearch.cs:116-142 | The pushes are exactly `Scored` of the counters `MatchCounts`, into a result of capacity abs(maxcand). |
| Knr.KnrSeqSearch.CountMatches | natix.SimilaritySearch/Indexes/KNR/KnrSeqSearch.cs:120-133 | After the rank loop, `A[d]` is the byte counter of the common-prefix length of qseq and d's stored signature. |
| Knr.ScanRank | natix.SimilaritySearch/Indexes/KNR/KnrSeqSearch.cs:122-132 | Scanning the posting list of rank i touches each document at most once, at its aligned position d·K+i. Its counter is incremented (wrapping) only when that position holds qseq[i] and the counter equals i. |
| KnrSpec.CounterStep | natix.SimilaritySearch/Indexes/KNR/KnrSeqSearch.cs:126-130 | The guarded increment at rank i turns the counter for ranks [0, i) into the counter for ranks [0, i]. |
| KnrSpec.LcpSpec | natix.SimilaritySearch/Indexes/KNR/KnrSeqSearch.cs:121-133 | `Lcp` is the longest common prefix: both lists agree below it and differ at it, unless one of them ends there. |
| KnrSpec.LcpSnoc | natix.SimilaritySearch/Indexes/KNR/KnrSeqSearch.cs:128-129 | One more query rank lengthens the prefix by one exactly when the prefix so far was full and the new rank agrees. Otherwise the length is unchanged, so no counter rises by more than one per rank. |
| KnrSpec.MatchCountsBound | natix.SimilaritySearch/Indexes/KNR/KnrSeqSearch.cs:120-133 | With K ≤ 255, each counter equals the common-prefix length and is at most K. |
| Knr.EmitScored | natix.SimilaritySearch/Indexes/KNR/KnrSeqSearch.cs:134-141 | The emit loop pushes exactly `Scored(A)`. |
| KnrSpec.ScoredSpec | natix.SimilaritySearch/Indexes/KNR/KnrSeqSearch.cs:134-141 | A pair is emitted iff its document has a nonzero counter and its score is the negated counter. Emitted ids strictly increase. |
| KnrSpec.ScoredSharesRankZero | natix.SimilaritySearch/Indexes/KNR/KnrSeqSearch.cs:134-139 | Every document the small-dataset policy emits has a negative score, and its stored rank-0 id equals qseq[0]. |
| KnrSpec.ScoredBelow | natix.SimilaritySearch/Indexes/KNR/KnrSeqSearch.cs:135-139 | Emitted ids are documents of the dataset. |
| Knr.KnrSeqSearch.GetCandidates | natix.SimilaritySearch/Indexes/KNR/KnrSeqSearch.cs:144-172 | Below 500000 objects this is the small-dataset policy. Otherwise C is `AgreeList(merged)`: increasing, never larger than the first posting list, and holding exactly the positions agreeing with the first `merged` ranks. Every rank count before `merged` `Continues` the loop (C larger than maxcand and the next intersection not below maxcand), and `merged` `Stops` it (all ranks merged, or C fits the budget, or the next intersection fell below maxcand and was discarded). The pushes are `AlignedDocs(C)`, into a result of capacity int.MaxValue. |
| Knr.KnrSeqSearch.MergeRanks | natix.SimilaritySearch/Indexes/KNR/KnrSeqSearch.cs:150-164 | The merge loop returns `AgreeList(merged)` with 1 ≤ merged ≤ \|qseq\|, having gone on past every earlier rank count and stopped at `merged`. |
| KnrSpec.StopsOnce | natix.SimilaritySearch/Indexes/KNR/KnrSeqSearch.cs:152-164 | The loop has a single stopping point: two rank counts that each are preceded only by counts that continue, and each stop, are equal. So `merged` is determined by the query. |
| KnrSpec.AgreeListSpec | natix.SimilaritySearch/Indexes/KNR/KnrSeqSearch.cs:151-164 | The list after merging m ranks is increasing, no longer than the first posting list, and holds exactly the positions agreeing with the first m ranks of qseq. |
| KnrSpec.AgreeListFirst | natix.SimilaritySearch/Indexes/KNR/KnrSeqSearch.cs:151 | The first posting list holds exactly the positions agreeing on rank 0. |
| KnrSpec.AgreeListStep | natix.SimilaritySearch/Indexes/KNR/KnrSeqSearch.cs:153-157 | Intersecting with the posting list of rank m−1 shifted by −(m−1) keeps exactly the positions that also agree on that rank, and never lengthens the list. |
| Knr.KnrSeqSearch.EmitAligned | natix.SimilaritySearch/Indexes/KNR/KnrSeqSearch.cs:165-171 | The emit loop pushes exactly `AlignedDocs(C)`: each row start in C, in C's order, as its document with score 0. |
| KnrSpec.AgreesSnoc | natix.SimilaritySearch/Indexes/KNR/KnrSeqSearch.cs:155-158 | A position agrees on ranks [0, i] iff it agrees on [0, i) and lies in the posting list of qseq[i] shifted by −i. |
| KnrSpec.AlignedDocsSpec | natix.SimilaritySearch/Indexes/KNR/KnrSeqSearch.cs:165-171 | A pair is emitted iff its score is 0 and its document's row start d·K is in C. |
| KnrSpec.AlignedDocsIncreasing | natix.SimilaritySearch/Indexes/KNR/KnrSeqSearch.cs:166-170 | When C is increasing, emitted ids strictly increase. |
| KnrSpec.AlignedDocsAgree | natix.SimilaritySearch/Indexes/KNR/KnrSeqSearch.cs:165-171 | Every document emitted from positions agreeing on m ≥ 1 ranks scores 0, and its row agrees with qseq on those m ranks. |
| KnrSpec.AlignedDocsBelow | natix.SimilaritySearch/Indexes/KNR/KnrSeqSearch.cs:166-168 | Emitted ids are documents of the dataset. |
| KnrSpec.AgreesIffLcp | natix.SimilaritySearch/Indexes/KNR/KnrSeqSearch.cs:121-133 | At a document's row start, agreement on the first m ranks is the same as a common prefix of length at least m. This links the two policies. |
| KnrSpec.PoliciesAgree | natix.SimilaritySearch/Indexes/KNR/KnrSeqSearch.cs:116-172 | With all K ranks merged, the large-dataset policy emits d iff the small-dataset policy emits d with the full score −K. |
| Knr.KnrSeqSearch.SearchKNN | natix.SimilaritySearch/Indexes/KNR/KnrSeqSearch.cs:174-195 | Candidates come from the query's signature with budget abs(MAXCAND). With MAXCAND < 0 the candidates are the answer and res is untouched. Otherwise res receives, in candidate order, the first min(#candidates, max(MAXCAND, 1)) candidates with their true distances. For the large-dataset policy, C is `AgreeList(merged)` for the stopping point `merged` of the merge loop with budget abs(MAXCAND), and every candidate scores 0 and agrees with the query signature on those `merged` ranks. |
| Knr.KnrSeqSearch.Rerank | natix.SimilaritySearch/Indexes/KNR/KnrSeqSearch.cs:184-192 | The re-ranking loop pushes one true distance per visited candidate, in order, and stops after max(MAXCAND, 1) of them or when none remain. |
| Postings.PositionsSpec | natix.SimilaritySearch/Indexes/KNR/KnrSeqSearch.cs:122-125 | A posting list is strictly increasing and lists exactly the positions holding the symbol. |
| Postings.ShiftedSpec | natix.SimilaritySearch/Indexes/KNR/KnrSeqSearch.cs:156 | x is in the list shifted by −i iff x+i is in the list. |
| Postings.IntersectSpec | natix.SimilaritySearch/Indexes/KNR/KnrSeqSearch.cs:157-158 | The intersection holds exactly the common elements and is no longer than its first operand. |
| Postings.IntersectIncreasing | natix.SimilaritySearch/Indexes/KNR/KnrSeqSearch.cs:157-158 | The intersection of an increasing list is increasing. |
| Results.ViewIdsBelow | natix.SimilaritySearch/Indexes/KNR/KnrSeqSearch.cs:184-186 | Enumerating an accumulator yields only pushed ids, so each one indexes the dataset. |
| Beam.ApproxGraphLocalBeamKNR.FirstBeam | natix.SimilaritySearch/Indexes/ApproxGraph/ApproxGraphLocalBeamKNR.cs:31-47 | Consumes exactly min(1024, \|V\|) draws, and `evaluated` gains exactly the drawn ids. The new beam has capacity min(BeamSize, \|V\|). The ids evaluated are `FirstNew` of the draws: each drawn id not evaluated before, at its first draw, in draw order. Each is pushed once, with its distance, into the beam and into the final result, so the resulting state is `Seeded` of the draws. |
| Beam.ApproxGraphLocalBeamKNR.Sample | natix.SimilaritySearch/Indexes/ApproxGraph/ApproxGraphLocalBeamKNR.cs:38-45 | The seeding loop draws `samplesize` ids and evaluates `FirstNew` of them, in draw order. |
| Beam.ApproxGraphLocalBeamKNR.Visit | natix.SimilaritySearch/Indexes/ApproxGraph/ApproxGraphLocalBeamKNR.cs:40-43 | A distance is computed and pushed into both accumulators exactly when `evaluated.Add` reports a new id. |
| Beam.SearchState.Add | natix.SimilaritySearch/Indexes/ApproxGraph/ApproxGraphLocalBeamKNR.cs:40 | Returns true exactly when the id was absent. Afterwards the id is present, and the evaluation order records it once. |
| Beam.SearchState.Distinct | natix.SimilaritySearch/Indexes/ApproxGraph/ApproxGraphLocalBeamKNR.cs:51 | The evaluated set is the set of the evaluation order, and has as many elements as it has entries. |
| Beam.NoDupCard | natix.SimilaritySearch/Indexes/ApproxGraph/ApproxGraphLocalBeamKNR.cs:40 | A duplicate-free list has as many distinct ids as entries. |
| Beam.RandomStream.Next | natix.SimilaritySearch/Indexes/ApproxGraph/ApproxGraphLocalBeamKNR.cs:39 | Returns the next pre-drawn id, which lies in [0, bound), and consumes it. |
| Beam.ApproxGraphLocalBeamKNR.ExpandBeam | natix.SimilaritySearch/Indexes/ApproxGraph/ApproxGraphLocalBeamKNR.cs:58-70 | The next beam has the given capacity. `evaluated` gains exactly the neighbours of the beam's vertices. The ids evaluated are `Expansion` of the beam: the adjacency lists in beam order, each id at its first occurrence unless evaluated before. Each is pushed once with its distance into the next beam and the final result. |
| Beam.ApproxGraphLocalBeamKNR.VisitNeighbours | natix.SimilaritySearch/Indexes/ApproxGraph/ApproxGraphLocalBeamKNR.cs:61-70 | The two nested loops visit the adjacency list of every beam vertex in beam order, evaluating exactly `Expansion` of the beam. |
| Beam.ApproxGraphLocalBeamKNR.VisitAll | natix.SimilaritySearch/Indexes/ApproxGraph/ApproxGraphLocalBeamKNR.cs:62-69 | Visiting one adjacency list after the ids `prev` continues the evaluation order: the ids evaluated so far become `FirstNew(prev + ids)`, `evaluated` gains exactly the ids of the list, and each new one is pushed once into both accumulators. |
| Beam.ApproxGraphLocalBeamKNR.VisitStep | natix.SimilaritySearch/Indexes/ApproxGraph/ApproxGraphLocalBeamKNR.cs:39-44 | Visiting the t-th id of a list evaluates and pushes it exactly when neither the earlier ids nor the initially evaluated ones contain it, extending `FirstNew` of the prefix by one. |
| Beam.FirstNewSpec | natix.SimilaritySearch/Indexes/ApproxGraph/ApproxGraphLocalBeamKNR.cs:40 | The ids a visiting loop evaluates are exactly the visited ids not evaluated before, each once. |
| Beam.FirstNewAppend | natix.SimilaritySearch/Indexes/ApproxGraph/ApproxGraphLocalBeamKNR.cs:61-62 | Visiting a then b evaluates the new ids of a, then those of b that neither the evaluated set nor a holds. |
| Beam.FirstNewSnoc | natix.SimilaritySearch/Indexes/ApproxGraph/ApproxGraphLocalBeamKNR.cs:62-64 | Visiting one more id evaluates it exactly when it is neither evaluated before nor listed earlier. |
| Beam.ApproxGraphLocalBeamKNR.Expansion | natix.SimilaritySearch/Indexes/ApproxGraph/ApproxGraphLocalBeamKNR.cs:61-69 | The ids an expansion evaluates are vertices. |
| Beam.ApproxGraphLocalBeamKNR.NeighbourListStep | natix.SimilaritySearch/Indexes/ApproxGraph/ApproxGraphLocalBeamKNR.cs:61-62 | One more beam entry appends its adjacency list to the visited ids and its neighbours to the neighbour set. |
| Beam.ApproxGraphLocalBeamKNR.Round | natix.SimilaritySearch/Indexes/ApproxGraph/ApproxGraphLocalBeamKNR.cs:57-79 | One iteration `Advances` the state (beam, evaluated, final pushes): `evaluated` gains the beam's neighbours, the final result receives `Expansion` of the beam with distances, and the new beam of capacity cap is what the view keeps of those pushes. It reports a tie exactly when the covering radius of the final result equals its value at the start of the iteration. |
| Beam.ApproxGraphLocalBeamKNR.Iterate | natix.SimilaritySearch/Indexes/ApproxGraph/ApproxGraphLocalBeamKNR.cs:57-70 | The loop body extends the run by the round it performs: the state list gains the state after it, and the run still satisfies `Rounds` with the new tie. |
| Beam.ApproxGraphLocalBeamKNR.RoundsSnoc | natix.SimilaritySearch/Indexes/ApproxGraph/ApproxGraphLocalBeamKNR.cs:56-81 | A run of rounds followed by one more round is a run of rounds. |
| Beam.ApproxGraphLocalBeamKNR.RunsPrefix | natix.SimilaritySearch/Indexes/ApproxGraph/ApproxGraphLocalBeamKNR.cs:56-81 | Two runs of rounds from the same state have the same k-th state and the same first k tie flags. |
| Beam.ApproxGraphLocalBeamKNR.RunsAgree | natix.SimilaritySearch/Indexes/ApproxGraph/ApproxGraphLocalBeamKNR.cs:54-81 | The tie rule and the RepeatSearch cap fix the run. Two runs from the same state that both obey them are equal, so `ExpandLoop`'s and `SearchKNN`'s step and tie logs are the loop's only possible behaviour. |
| Beam.ApproxGraphLocalBeamKNR.ExpandLoop | natix.SimilaritySearch/Indexes/ApproxGraph/ApproxGraphLocalBeamKNR.cs:54-81 | Runs at most RepeatSearch iterations. `steps` starts at the seed beam's state, and each iteration k `Advances` `steps[k]` to `steps[k+1]` with the seed beam's count as capacity, `ties[k]` recording whether it left the final covering radius unchanged. The last state is the actual one. The loop stops early only after two consecutive ties, and never shows two consecutive ties before its last two iterations; its invariant keeps `count_ties` at 0 or 1. |
| Beam.ApproxGraphLocalBeamKNR.Run | natix.SimilaritySearch/Indexes/ApproxGraph/ApproxGraphLocalBeamKNR.cs:51-81 | Seeding then expansion on an empty evaluated set: the first state is `Seeded` of the draws, every later one follows by a round with capacity the seeded beam's count, and the last is the actual state. The final result receives one push per evaluated id, in evaluation order, and the tie log obeys the stopping rule. |
| Beam.ApproxGraphLocalBeamKNR.SearchKNN | natix.SimilaritySearch/Indexes/ApproxGraph/ApproxGraphLocalBeamKNR.cs:49-83 | Returns `final_result`. The states of the search are `Seeded` of the min(1024, \|V\|) draws, then one `Advances` step per expansion with capacity the seed beam's count, ending in the actual evaluated set and push log, with the tie rule obeyed. Its pushes are exactly one (id, distance) per evaluated id, in evaluation order. No id is evaluated twice, and the number of pushes equals the size of `evaluated`. With no vertices nothing is pushed. |

## Left out

- `Save`/`Load` (KnrSeqSearch.cs:31-53) are stream serialisation through generic I/O helpers that are not part of this model. `Save` writes R with its dataset temporarily replaced and then restores `R.DB` (lines 37-40); the model has no state for it.
- The copy constructor (KnrSeqSearch.cs:59-66) only copies five fields.
- `SearchRange` (KnrSeqSearch.cs:197-204) delegates to `FilterRadiusByRealDistances`, which is not part of this model.
- Console progress logging in `Build` and the `System.Threading` imports of the beam search are left out. The shown code is sequential.
- The sequence builder `GetSeqXLB_SArray64` and its succinct representation are modelled by contract: SEQ is the contents of G, and `Access(p)` is `SEQ[p]`.
- The Baeza-Yates intersection with doubling search, `SortedListRS` and `ShiftedSortedListRS` are modelled by what they return, not by their search strategy.
- `Result`/`ResultTies` retention, ordering of ties and `CoveringRadius` are injected (a view over the push log and a cover function). The model therefore states what is pushed, and proves which pushed entries a beam may enumerate, but not which k it keeps.
- `ApproxGraphLocalBeam` (the base class with `Vertices`, `BeamSize`, `RepeatSearch`, `rand` and `SearchState`) is not part of this model. Its fields are fields of the class, `SearchState` keeps only `evaluated`, and `rand.Next` reads a pre-drawn stream.
- Distances are `double` in the source and `int` here: only their equality and their use as scores matter to the modelled code.
- Knr.KnrSeqSearch.Build: the optional arguments' defaults (K = 7, maxcand = 1024, and a default sequence builder) are a calling convenience; the model takes K and MAXCAND as explicit arguments.
- Knr.KnrSeqSearch.Build: the 32-bit products n·K, i·K+j and K·docid (lines 75, 83, 107) wrap past 2^31−1 in the source; the model uses unbounded integers, so it covers datasets with n·K < 2^31 only.
- Knr.KnrSeqSearch.GetStoredKnr: reads K·docid as an unbounded product; the source's 32-bit product wraps for K·docid ≥ 2^31.
- Knr.KnrSeqSearch.SearchKNN: `Math.Abs(this.MAXCAND)` (line 179) throws an overflow exception for MAXCAND = int.MinValue; the model's `Abs` returns 2^31 instead.
- Knr.KnrSeqSearch.GetCandidatesSmallDB: `Math.Abs(maxcand)` (line 134) throws for int.MinValue; the model's `Abs` returns 2^31.
- Beam.ApproxGraphLocalBeamKNR.SearchKNN: requires every neighbour to be a vertex (`Adjacent`, part of `Valid`). A neighbour id outside the dataset makes the source throw at `this.DB[neighbor_docID]` (line 65), and one outside the vertex range but inside the dataset throws at `this.Vertices[pair.docid]` (line 62) in the next round; those exceptions are not modelled.
- Knr.KnrSeqSearch.Build: `refs` must answer with at most K ids of its own dataset (`RefIndexContract`), as `GetKnr` overflows its array otherwise. The source does not check K against the reference index.
- Knr.KnrSeqSearch.GetCandidates: the large-dataset policy reads `qseq[0]`, so it requires a nonempty query signature. Its only caller passes K ≥ 1 ids.
- Knr.KnrSeqSearch.SearchKNN: `knn` is unused, as in the source, and the candidate result returned for MAXCAND < 0 is given as its push log and capacity.
- Beam.ApproxGraphLocalBeamKNR.SearchKNN: `K` is unused, as in the source.
