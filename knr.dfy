// The KNR sequence index (`KnrSeqSearch`): every object of the dataset is
// reduced to the ids of its K nearest references, the n signatures are
// stored one after another in a rank/select sequence, and a query is
// answered by matching its own signature against the stored ones and
// re-ranking the candidates with true distances.
//
// The dataset is a sequence of opaque objects with an injected distance.
// The reference index is injected as its `SearchKNN(q, k)` ranked-id answer
// and the size of its dataset; the rank/select sequence is its contents.
module Knr {
  import opened Results
  import opened Postings
  import opened KnrSpec

  /** Datasets with fewer objects than this use the small-dataset policy. */
  const SmallDBLimit: int := 500000
  /** `int.MaxValue`, the capacity of the large-dataset candidate result. */
  const IntMaxValue: int := 0x7fff_ffff
  /** Number of values of a `ushort`. */
  const UShortRange: int := 0x1_0000

  function Abs(x: int): nat
  {
    if x < 0 then -x else x
  }

  /** Contract of the reference index's `SearchKNN(q, k)`: at most k ranked
      ids, each an id of the reference dataset [0, refCount). */
  ghost predicate RefIndexContract<T(!new)>(search: (T, int) -> seq<int>, refCount: int)
  {
    && (forall q, k :: 0 <= k ==> |search(q, k)| <= k)
    && (forall q, k, j :: 0 <= j < |search(q, k)| ==> 0 <= search(q, k)[j] < refCount)
  }

  /** Number of candidates `SearchKNN` evaluates when it resolves them:
      at least one, since the budget check follows the first push. */
  function EvalBudget(maxcand: int): nat
  {
    if maxcand < 1 then 1 else maxcand
  }

  /** The inner loop of the small-dataset policy for rank i: for each
      position pos of the posting list rs (in increasing order) that is
      rank i of document pos / K, that document's counter is incremented
      if it equals i. Each document is touched at most once, at its
      aligned position d*K + i. */
  method ScanRank(A: array<byte>, S: seq<int>, K: int, n: nat, rs: seq<int>, i: int)
    requires 0 < K && |S| == n * K && A.Length == n
    requires Increasing(rs) && forall p :: p in rs ==> 0 <= p < |S|
    modifies A
    ensures forall d :: 0 <= d < n ==>
      A[d] == if 0 <= i < K && d * K + i in rs then Bump(old(A[d]), i) else old(A[d])
  {
    ghost var A0 := A[..];
    for j := 1 to |rs| + 1
      invariant forall d :: 0 <= d < n ==>
        A[d] == if 0 <= i < K && d * K + i in rs[..j - 1] then Bump(A0[d], i) else A0[d]
    {
      var pos := rs[j - 1];
      assert pos in rs;
      ghost var prev := A[..];
      if pos % K == i {
        SplitPosition(pos, n, K);
        var docid := pos / K;
        if A[docid] as int == i {
          A[docid] := ((A[docid] as int + 1) % 256) as byte;
        }
      }
      assert rs[..j] == rs[..j - 1] + [pos];
      assert pos !in rs[..j - 1];
      forall d | 0 <= d < n
        ensures A[d] == if 0 <= i < K && d * K + i in rs[..j] then Bump(A0[d], i) else A0[d]
      {
        if 0 <= i < K {
          AlignedIff(pos, d, i, K);
          if d * K + i == pos {
            assert A[d] == Bump(prev[d], i);
          } else {
            assert A[d] == prev[d];
          }
        } else {
          assert A[d] == prev[d];
        }
      }
    }
    assert rs[..|rs|] == rs;
  }

  /** The inner loop of `Build`: copies signature i into row i of G,
      extending the encoded prefix from row i to row i + 1. */
  method WriteRow(G: array<int>, n: nat, K: int, ghost sigs: seq<seq<int>>, i: int, sig: array<int>)
    requires 0 < K && G.Length == n * K && 0 <= i < n && |sigs| == n
    requires G != sig && sig[..] == sigs[i] && sig.Length == K
    requires Encodes(G[..], i * K, K, sigs)
    modifies G
    ensures Encodes(G[..], (i + 1) * K, K, sigs)
  {
    MulMono(i + 1, n, K);
    assert (i + 1) * K == i * K + K;
    ghost var pos := i * K;
    for j := 0 to K
      invariant pos == i * K + j
      invariant Encodes(G[..], pos, K, sigs)
    {
      ghost var before := G[..];
      EncodesStep(before, pos, K, sigs, i, j, sig[j]);
      G[i * K + j] := sig[j];
      assert G[..] == before[pos := sig[j]];
      pos := pos + 1;
    }
  }

  /** The emit loop of the small-dataset policy. */
  method EmitScored(A: array<byte>) returns (log: seq<Pair>)
    ensures log == Scored(A[..])
  {
    log := [];
    for d := 0 to A.Length
      invariant log == Scored(A[..d])
    {
      assert A[..d + 1][..d] == A[..d];
      if A[d] != 0 {
        log := log + [Pair(d, -(A[d] as int))];
      }
    }
    assert A[..A.Length] == A[..];
  }

  class KnrSeqSearch<T(!new)> {
    /** The dataset `DB` and its distance `DB.Dist`. */
    var db: seq<T>
    var dist: (T, T) -> int
    var K: int
    var MAXCAND: int
    /** The reference index `R`: its `SearchKNN` and the size of `R.DB`. */
    var R: (T, int) -> seq<int>
    var refCount: int
    /** The contents of the rank/select sequence `SEQ`. */
    var SEQ: seq<int>

    /** The index invariant that `Build` establishes: K >= 1 and the stored
        signature of every document is its signature by the reference index. */
    ghost predicate Valid()
      reads this
    {
      && 1 <= K
      && RefIndexContract(R, refCount)
      && |SEQ| == |db| * K
      && forall d :: 0 <= d < |db| ==> StoredSig(SEQ, K, d) == Signature(db[d])
    }

    /** The signature `GetKnr` computes for q. */
    ghost function Signature(q: T): (s: seq<int>)
      reads this
      requires 0 <= K && RefIndexContract(R, refCount)
      ensures |s| == K
      ensures forall j :: 0 <= j < K ==> 0 <= s[j] < refCount || (s[j] == 0 && j >= |R(q, K)|)
    {
      Padded(R(q, K), K)
    }

    method Build(db: seq<T>, dist: (T, T) -> int, refs: (T, int) -> seq<int>, refCount: int, K: int, maxcand: int)
      requires 1 <= K && RefIndexContract(refs, refCount)
      modifies this
      ensures this.db == db && this.dist == dist && R == refs && this.refCount == refCount
      ensures this.K == K && MAXCAND == maxcand
      ensures |SEQ| == |db| * K
      ensures Valid()
    {
      var n := |db|;
      this.db := db;
      this.dist := dist;
      this.R := refs;
      this.refCount := refCount;
      this.K := K;
      this.MAXCAND := maxcand;
      ghost var sigs := seq(n, d requires 0 <= d < n => Padded(refs(db[d], K), K));
      var G := new int[n * K];
      for i := 0 to n
        modifies G
        invariant Encodes(G[..], i * K, K, sigs)
      {
        var useq := GetKnr(db[i]);
        WriteRow(G, n, K, sigs, i, useq);
      }
      SEQ := G[..];
      EncodesRows(SEQ, n, K, sigs);
      assert forall d :: 0 <= d < n ==> sigs[d] == Signature(db[d]);
    }

    /** Layout of a valid index: rank j of document d's signature is stored
        at position d*K + j. */
    lemma StoredAt(d: int, j: int)
      requires Valid() && 0 <= d < |db| && 0 <= j < K
      ensures 0 <= d * K + j < |SEQ| && SEQ[d * K + j] == Signature(db[d])[j]
    {
      StoredSigAt(SEQ, |db|, K, d, j);
    }

    /** The signature of q: the reference index's ranked answer, zero-padded to K ids. */
    method GetKnr(q: T) returns (qseq: array<int>)
      requires 0 <= K && RefIndexContract(R, refCount)
      ensures fresh(qseq) && qseq.Length == K
      ensures qseq[..|R(q, K)|] == R(q, K)
      ensures forall j :: |R(q, K)| <= j < K ==> qseq[j] == 0
      ensures qseq[..] == Signature(q)
    {
      var res := R(q, K);
      qseq := new int[K](_ => 0);
      var i := 0;
      while i < |res|
        invariant 0 <= i <= |res|
        invariant qseq[..i] == res[..i]
        invariant forall j :: i <= j < K ==> qseq[j] == 0
      {
        qseq[i] := res[i];
        i := i + 1;
      }
      assert res[..i] == res;
    }

    /** The stored signature of docid, each id cast to `ushort`. */
    method GetStoredKnr(docid: int) returns (L: array<int>)
      requires Valid() && 0 <= docid < |db|
      ensures L.Length == K
      ensures forall j :: 0 <= j < K ==> L[j] == StoredSig(SEQ, K, docid)[j] % UShortRange
      ensures forall j :: 0 <= j < K ==> L[j] == Signature(db[docid])[j] % UShortRange
      ensures refCount <= UShortRange ==> L[..] == Signature(db[docid])
    {
      L := new int[K];
      var i, startPos := 0, K * docid;
      ghost var sig := Signature(db[docid]);
      forall j | 0 <= j < K
        ensures 0 <= startPos + j < |SEQ| && SEQ[startPos + j] == sig[j]
      {
        StoredSigAt(SEQ, |db|, K, docid, j);
      }
      while i < K
        invariant 0 <= i <= K
        invariant forall j :: 0 <= j < i ==> L[j] == SEQ[startPos + j] % UShortRange
      {
        L[i] := SEQ[startPos + i] % UShortRange;
        i := i + 1;
      }
      if refCount <= UShortRange {
        forall j | 0 <= j < K
          ensures L[j] == sig[j]
        {
          assert 0 <= sig[j] < UShortRange;
          assert sig[j] % UShortRange == sig[j];
        }
        assert L[..] == sig;
      }
    }

    /** Small-dataset policy: the counter of every document ends as the
        length of the common prefix of qseq and its stored signature (as a
        wrapping byte), and every document with a nonzero counter is pushed,
        in increasing id order, with the negated counter as score. */
    method GetCandidatesSmallDB(qseq: seq<int>, maxcand: int) returns (log: seq<Pair>, cap: int)
      requires Valid()
      ensures cap == Abs(maxcand)
      ensures log == Scored(MatchCounts(SEQ, K, qseq, |db|))
    {
      var A := CountMatches(qseq);
      log := EmitScored(A);
      cap := Abs(maxcand);
    }

    /** The counting loops of the small-dataset policy: once rank i has
        been scanned, the counter of every document is the common-prefix
        length of the first i query ranks and its stored signature, as a
        wrapping byte. */
    method CountMatches(qseq: seq<int>) returns (A: array<byte>)
      requires 1 <= K && |SEQ| == |db| * K
      ensures fresh(A) && A[..] == MatchCounts(SEQ, K, qseq, |db|)
    {
      var n := |db|;
      A := new byte[n](_ => 0);
      for i := 0 to |qseq|
        invariant forall d :: 0 <= d < n ==> A[..][d] == Counter(Lcp(qseq[..i], StoredSig(SEQ, K, d)))
      {
        var rs := Positions(SEQ, qseq[i]);
        PositionsSpec(SEQ, qseq[i]);
        ghost var A0 := A[..];
        ScanRank(A, SEQ, K, n, rs, i);
        CounterStepAll(SEQ, K, n, qseq, i, A0, A[..]);
      }
      assert qseq[..|qseq|] == qseq;
    }

    /** Candidate generation. Below SmallDBLimit objects, the small-dataset
        policy. Otherwise the large-dataset policy: C starts as the posting
        list of qseq[0] and rank i is merged by intersecting C with the
        posting list of qseq[i] shifted by -i, while ranks remain and C has
        more than maxcand positions; a merge that would leave fewer than
        maxcand positions is discarded and ends the loop. So C is
        `AgreeList(merged)` for the first `merged` at which one of those
        exits holds, and it holds exactly the positions where the first
        `merged` ranks of qseq occur aligned. The documents whose row starts
        at such a position are pushed with score 0. */
    method GetCandidates(qseq: seq<int>, maxcand: int)
      returns (log: seq<Pair>, cap: int, ghost C: seq<int>, ghost merged: nat)
      requires Valid()
      requires |db| >= SmallDBLimit ==> |qseq| >= 1
      ensures IdsBelow(log, |db|)
      ensures |db| < SmallDBLimit ==>
        cap == Abs(maxcand) && log == Scored(MatchCounts(SEQ, K, qseq, |db|))
      ensures |db| >= SmallDBLimit ==>
        && cap == IntMaxValue
        && 1 <= merged <= |qseq|
        && C == AgreeList(SEQ, qseq, merged)
        && (forall m :: 1 <= m < merged ==> Continues(SEQ, qseq, m, maxcand))
        && Stops(SEQ, qseq, merged, maxcand)
        && Increasing(C)
        && |C| <= |Positions(SEQ, qseq[0])|
        && (forall c :: c in C <==> Agrees(SEQ, qseq, c, merged))
        && log == AlignedDocs(C, K)
    {
      var n := |db|;
      if n < SmallDBLimit {
        log, cap := GetCandidatesSmallDB(qseq, maxcand);
        ScoredBelow(SEQ, K, qseq, n);
        C, merged := [], 0;
        return;
      }
      var cs;
      cs, merged := MergeRanks(qseq, maxcand);
      C := cs;
      AgreeListSpec(SEQ, qseq, merged);
      log := EmitAligned(cs);
      cap := IntMaxValue;
      AlignedDocsBelow(C, K, n, SEQ, qseq, merged);
    }

    /** The merge loop of the large-dataset policy: returns C and the
        number of ranks merged into it. */
    method MergeRanks(qseq: seq<int>, maxcand: int) returns (cs: seq<int>, merged: nat)
      requires 1 <= |qseq|
      ensures 1 <= merged <= |qseq|
      ensures cs == AgreeList(SEQ, qseq, merged)
      ensures forall m :: 1 <= m < merged ==> Continues(SEQ, qseq, m, maxcand)
      ensures Stops(SEQ, qseq, merged, maxcand)
    {
      var lenQseq := |qseq|;
      cs := Positions(SEQ, qseq[0]);
      var i := 1;
      while i < lenQseq && |cs| > maxcand
        invariant 1 <= i <= lenQseq
        invariant cs == AgreeList(SEQ, qseq, i)
        invariant forall m :: 1 <= m < i ==> Continues(SEQ, qseq, m, maxcand)
      {
        var rs := Positions(SEQ, qseq[i]);
        var I := Shifted(rs, i);
        var tmp := Intersect(cs, I);
        assert tmp == AgreeList(SEQ, qseq, i + 1);
        if |tmp| < maxcand {
          break;
        }
        cs := tmp;
        i := i + 1;
      }
      merged := i;
    }

    /** The emit loop of the large-dataset policy. */
    method EmitAligned(cs: seq<int>) returns (log: seq<Pair>)
      requires 1 <= K
      ensures log == AlignedDocs(cs, K)
    {
      log := [];
      for k := 0 to |cs|
        invariant log == AlignedDocs(cs[..k], K)
      {
        var c := cs[k];
        assert cs[..k + 1][..k] == cs[..k];
        if c % K == 0 {
          log := log + [Pair(c / K, 0)];
        }
      }
      assert cs[..|cs|] == cs;
    }

    /** `SearchKNN`: the candidates of q's signature, with the budget
        |MAXCAND|. With MAXCAND < 0 the candidate result itself is the
        answer and no distance is computed. Otherwise the candidates are
        visited in the candidate result's order and each visited one is
        pushed into res with its true distance, until EvalBudget(MAXCAND)
        of them were evaluated or none remain. `knn` is not used. */
    method SearchKNN(q: T, knn: int, res: Accumulator, view: View)
      returns (resolved: bool, cands: seq<Pair>, cap: int, ghost C: seq<int>, ghost merged: nat)
      requires Valid() && DrawsFromPushes(view)
      modifies res
      ensures resolved <==> MAXCAND >= 0
      ensures IdsBelow(cands, |db|) && IdsBelow(view(cap, cands), |db|)
      ensures |db| < SmallDBLimit ==>
        cap == Abs(MAXCAND) && cands == Scored(MatchCounts(SEQ, K, Signature(q), |db|))
      ensures |db| >= SmallDBLimit ==>
        && cap == IntMaxValue
        && 1 <= merged <= K
        && C == AgreeList(SEQ, Signature(q), merged)
        && (forall m :: 1 <= m < merged ==> Continues(SEQ, Signature(q), m, Abs(MAXCAND)))
        && Stops(SEQ, Signature(q), merged, Abs(MAXCAND))
        && (forall c :: c in C <==> Agrees(SEQ, Signature(q), c, merged))
        && cands == AlignedDocs(C, K)
        && forall x :: x in cands ==> x.score == 0 && Agrees(SEQ, Signature(q), x.docid * K, merged)
      ensures !resolved ==> res.pushes == old(res.pushes)
      ensures resolved ==>
        res.pushes == old(res.pushes) +
          Evaluated(q, db, dist, DocIds(view(cap, cands)[..Min(|view(cap, cands)|, EvalBudget(MAXCAND))]))
    {
      var qseq := GetKnr(q);
      cands, cap, C, merged := GetCandidates(qseq[..], Abs(MAXCAND));
      ViewIdsBelow(view, cap, cands, |db|);
      if |db| >= SmallDBLimit {
        AlignedDocsAgree(C, K, SEQ, qseq[..], merged);
      }
      var maxcand := MAXCAND;
      if maxcand < 0 {
        return false, cands, cap, C, merged;
      }
      resolved := true;
      Rerank(q, view(cap, cands), res);
    }

    /** The re-ranking loop of `SearchKNN`: candidates are evaluated in
        order until EvalBudget(MAXCAND) of them were pushed into res with
        their true distance, or none remain. */
    method Rerank(q: T, items: seq<Pair>, res: Accumulator)
      requires IdsBelow(items, |db|) && MAXCAND >= 0
      modifies res
      ensures res.pushes == old(res.pushes) +
        Evaluated(q, db, dist, DocIds(items[..Min(|items|, EvalBudget(MAXCAND))]))
    {
      var maxcand := MAXCAND;
      var k := 0;
      while k < |items|
        invariant 0 <= k <= |items| && maxcand == MAXCAND - k
        invariant k == 0 || k < EvalBudget(MAXCAND)
        invariant res.pushes == old(res.pushes) + Evaluated(q, db, dist, DocIds(items[..k]))
      {
        var docid := items[k].docid;
        var d := dist(q, db[docid]);
        res.Push(docid, d);
        assert DocIds(items[..k + 1]) == DocIds(items[..k]) + [docid];
        k := k + 1;
        maxcand := maxcand - 1;
        if maxcand <= 0 {
          break;
        }
      }
      assert k == Min(|items|, EvalBudget(MAXCAND));
    }
  }
}
