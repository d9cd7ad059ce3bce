// Specification functions for the KNR index: signatures, their layout in
// the concatenated sequence, prefix agreement and the candidate lists that
// the two candidate policies emit.
module KnrSpec {
  import opened Results
  import opened Postings

  /** An element of the C# `byte[]` counter array. */
  newtype byte = x: int | 0 <= x < 256

  // ---------------------------------------------------------------------
  // Layout arithmetic: document d, rank j lives at position d*K + j.

  lemma MulMono(a: int, b: int, K: int)
    requires 0 < K && a <= b
    ensures a * K <= b * K
  {
    var t := b - a;
    assert b * K == a * K + t * K;
  }
  lemma MulDivMod(i: int, j: int, K: int)
    requires 0 < K && 0 <= j < K
    ensures (i * K + j) / K == i && (i * K + j) % K == j
  {
    var p := i * K + j;
    var q, r := p / K, p % K;
    assert p == q * K + r && 0 <= r < K;
    assert (i + 1) * K == i * K + K && (q + 1) * K == q * K + K;
    if q > i {
      MulMono(i + 1, q, K);
    } else if q < i {
      MulMono(q + 1, i, K);
    }
  }
  lemma RowFits(d: int, n: int, K: int)
    requires 0 <= d < n && 0 < K
    ensures 0 <= d * K && d * K + K <= n * K
  {
    MulMono(0, d, K);
    MulMono(d + 1, n, K);
    assert (d + 1) * K == d * K + K;
  }
  /** Every position p of a row-major n-by-K layout is rank p % K of row p / K. */
  lemma SplitPosition(p: int, n: int, K: int)
    requires 0 < K && 0 <= p < n * K
    ensures 0 <= p / K < n && 0 <= p % K < K && p == (p / K) * K + p % K
  {
    var d := p / K;
    assert p == d * K + p % K;
    if d >= n {
      MulMono(n, d, K);
    }
  }

  /** Position pos is rank i of row d exactly when pos % K == i and pos / K == d. */
  lemma AlignedIff(pos: int, d: int, i: int, K: int)
    requires 0 < K && 0 <= i < K
    ensures d * K + i == pos <==> pos % K == i && pos / K == d
  {
    MulDivMod(d, i, K);
    assert pos == (pos / K) * K + pos % K;
  }

  // ---------------------------------------------------------------------
  // Signatures

  /** `GetKnr`'s array: the ranked ids of the reference search, then zeros up to K.
      (An answer longer than K, which the reference index never gives, is cut.) */
  function Padded(ranked: seq<int>, K: nat): (r: seq<int>)
    ensures |r| == K
    ensures |ranked| <= K ==> r[..|ranked|] == ranked
    ensures forall i :: |ranked| <= i < K ==> r[i] == 0
  {
    if |ranked| >= K then ranked[..K] else ranked + seq(K - |ranked|, _ => 0)
  }

  /** The signature of document d as stored at positions d*K .. d*K+K-1. */
  function StoredSig(S: seq<int>, K: int, d: int): seq<int>
  {
    if 0 < K && 0 <= d * K && d * K + K <= |S| then S[d * K .. d * K + K] else []
  }

  lemma StoredSigAt(S: seq<int>, n: int, K: int, d: int, j: int)
    requires 0 < K && |S| == n * K && 0 <= d < n && 0 <= j < K
    ensures |StoredSig(S, K, d)| == K && 0 <= d * K + j < |S|
    ensures StoredSig(S, K, d)[j] == S[d * K + j]
  {
    RowFits(d, n, K);
  }

  /** Positions [0, upto) of G hold rank p % K of signature p / K. */
  ghost predicate Encodes(G: seq<int>, upto: int, K: int, sigs: seq<seq<int>>)
  {
    0 < K && 0 <= upto <= |G| &&
    forall p :: 0 <= p < upto && p / K < |sigs| && p % K < |sigs[p / K]| ==> G[p] == sigs[p / K][p % K]
  }

  /** Writing rank j of signature i at position i*K + j extends the encoded prefix by one. */
  lemma EncodesStep(G: seq<int>, upto: int, K: int, sigs: seq<seq<int>>, i: int, j: int, v: int)
    requires Encodes(G, upto, K, sigs) && upto == i * K + j && upto < |G|
    requires 0 <= i < |sigs| && 0 <= j < K && j < |sigs[i]| && v == sigs[i][j]
    ensures Encodes(G[upto := v], upto + 1, K, sigs)
  {
    MulDivMod(i, j, K);
  }

  /** Rank j of signature d sits at position d*K + j of a fully encoded sequence. */
  lemma EncodesAt(G: seq<int>, n: nat, K: int, sigs: seq<seq<int>>, d: int, j: int)
    requires Encodes(G, n * K, K, sigs) && |G| == n * K && |sigs| == n
    requires 0 <= d < n && 0 <= j < K && |sigs[d]| == K
    ensures 0 <= d * K + j < |G| && G[d * K + j] == sigs[d][j]
  {
    RowFits(d, n, K);
    MulDivMod(d, j, K);
    var p := d * K + j;
    assert 0 <= p < n * K && p / K == d && p % K == j;
  }

  /** A fully encoded sequence stores signature d in row d. */
  lemma EncodesRow(G: seq<int>, n: nat, K: int, sigs: seq<seq<int>>, d: int)
    requires Encodes(G, n * K, K, sigs) && |G| == n * K && |sigs| == n
    requires 0 <= d < n && |sigs[d]| == K
    ensures StoredSig(G, K, d) == sigs[d]
  {
    RowFits(d, n, K);
    var b := d * K;
    forall j | 0 <= j < K
      ensures G[b + j] == sigs[d][j]
    {
      EncodesAt(G, n, K, sigs, d, j);
    }
    assert G[b .. b + K] == sigs[d];
  }

  /** A fully encoded sequence stores every signature in its own row. */
  lemma EncodesRows(G: seq<int>, n: nat, K: int, sigs: seq<seq<int>>)
    requires Encodes(G, n * K, K, sigs) && |G| == n * K && |sigs| == n
    requires forall d :: 0 <= d < n ==> |sigs[d]| == K
    ensures forall d :: 0 <= d < n ==> StoredSig(G, K, d) == sigs[d]
  {
    forall d | 0 <= d < n
      ensures StoredSig(G, K, d) == sigs[d]
    {
      EncodesRow(G, n, K, sigs, d);
    }
  }

  // ---------------------------------------------------------------------
  // Longest common prefix

  function Lcp(a: seq<int>, b: seq<int>): nat
  {
    if |a| == 0 || |b| == 0 || a[0] != b[0] then 0 else 1 + Lcp(a[1..], b[1..])
  }

  /** `Lcp` is the length of the longest common prefix: both inputs agree
      below it, and they differ at it unless one of them ends there. */
  lemma {:induction false} LcpSpec(a: seq<int>, b: seq<int>)
    ensures Lcp(a, b) <= |a| && Lcp(a, b) <= |b|
    ensures forall r :: 0 <= r < Lcp(a, b) ==> a[r] == b[r]
    ensures Lcp(a, b) < |a| && Lcp(a, b) < |b| ==> a[Lcp(a, b)] != b[Lcp(a, b)]
  {
    if |a| != 0 && |b| != 0 && a[0] == b[0] {
      LcpSpec(a[1..], b[1..]);
      forall r | 0 <= r < Lcp(a, b)
        ensures a[r] == b[r]
      {
        if r > 0 {
          assert a[r] == a[1..][r - 1] && b[r] == b[1..][r - 1];
        }
      }
    }
  }

  /** The properties of `LcpSpec` determine the length uniquely. */
  lemma {:induction false} LcpUnique(a: seq<int>, b: seq<int>, m: nat)
    requires m <= |a| && m <= |b|
    requires forall r :: 0 <= r < m ==> a[r] == b[r]
    requires m < |a| && m < |b| ==> a[m] != b[m]
    ensures Lcp(a, b) == m
  {
    LcpSpec(a, b);
  }

  /** Extending the first list by one rank lengthens the common prefix by
      one exactly when the prefix so far was full and the new rank agrees. */
  lemma LcpSnoc(a: seq<int>, b: seq<int>, i: nat)
    requires i < |a|
    ensures Lcp(a[..i], b) <= i
    ensures Lcp(a[..i + 1], b) ==
      if Lcp(a[..i], b) == i && i < |b| && a[i] == b[i] then i + 1 else Lcp(a[..i], b)
  {
    var l := Lcp(a[..i], b);
    LcpSpec(a[..i], b);
    if l == i && i < |b| && a[i] == b[i] {
      LcpUnique(a[..i + 1], b, i + 1);
    } else {
      LcpUnique(a[..i + 1], b, l);
    }
  }

  /** A full-length signature prefix agreement: `Lcp` is at least m exactly
      when the first m ranks agree. */
  lemma LcpAtLeast(a: seq<int>, b: seq<int>, m: nat)
    requires m <= |a| && m <= |b|
    ensures Lcp(a, b) >= m <==> forall r :: 0 <= r < m ==> a[r] == b[r]
  {
    LcpSpec(a, b);
  }

  // ---------------------------------------------------------------------
  // Small-dataset policy

  /** The value a `byte` counter holds after being incremented l times:
      it wraps to 0 at 256, after which the guard `A[d] == i` (i >= 256)
      never holds again. */
  function Counter(l: nat): byte
  {
    if l >= 256 then 0 else l as byte
  }

  /** One guarded increment of the counter loop at rank i. */
  function Bump(a: byte, i: int): byte
  {
    if a as int == i then ((a as int + 1) % 256) as byte else a
  }

  /** The guarded increment at rank i turns the counter of a prefix of
      length l <= i into that of the prefix extended by rank i exactly
      when the prefix was full (l == i). */
  lemma BumpCounter(l: nat, i: nat)
    requires l <= i
    ensures Bump(Counter(l), i) == Counter(if l == i then i + 1 else l)
  {
  }

  /** Scanning the posting list of rank i moves a document's counter from
      its prefix length over ranks [0, i) to that over ranks [0, i]. */
  lemma CounterStep(S: seq<int>, K: int, n: nat, q: seq<int>, i: nat, d: int, a0: byte, a: byte)
    requires 0 < K && |S| == n * K && 0 <= d < n && i < |q|
    requires a0 == Counter(Lcp(q[..i], StoredSig(S, K, d)))
    requires a == if i < K && d * K + i in Positions(S, q[i]) then Bump(a0, i) else a0
    ensures a == Counter(Lcp(q[..i + 1], StoredSig(S, K, d)))
  {
    var sig := StoredSig(S, K, d);
    RowFits(d, n, K);
    LcpSnoc(q, sig, i);
    PositionsSpec(S, q[i]);
    if i < K {
      StoredSigAt(S, n, K, d, i);
      if q[i] == sig[i] {
        BumpCounter(Lcp(q[..i], sig), i);
      }
    }
  }

  /** `CounterStep` for every document at once. */
  lemma CounterStepAll(S: seq<int>, K: int, n: nat, q: seq<int>, i: nat, a0: seq<byte>, a: seq<byte>)
    requires 0 < K && |S| == n * K && i < |q| && |a0| == n && |a| == n
    requires forall d :: 0 <= d < n ==> a0[d] == Counter(Lcp(q[..i], StoredSig(S, K, d)))
    requires forall d :: 0 <= d < n ==>
      a[d] == if 0 <= i < K && d * K + i in Positions(S, q[i]) then Bump(a0[d], i) else a0[d]
    ensures forall d :: 0 <= d < n ==> a[d] == Counter(Lcp(q[..i + 1], StoredSig(S, K, d)))
  {
    forall d | 0 <= d < n
      ensures a[d] == Counter(Lcp(q[..i + 1], StoredSig(S, K, d)))
    {
      CounterStep(S, K, n, q, i, d, a0[d], a[d]);
    }
  }

  /** The counter of every document after all ranks of `q` were scanned. */
  function MatchCounts(S: seq<int>, K: int, q: seq<int>, n: nat): (c: seq<byte>)
    ensures |c| == n
  {
    seq(n, d requires 0 <= d < n => Counter(Lcp(q, StoredSig(S, K, d))))
  }

  /** With K <= 255 no counter wraps: it is exactly the common-prefix
      length, hence at most K. */
  lemma MatchCountsBound(S: seq<int>, K: int, q: seq<int>, n: nat, d: int)
    requires 0 < K <= 255 && |S| == n * K && 0 <= d < n
    ensures MatchCounts(S, K, q, n)[d] as int == Lcp(q, StoredSig(S, K, d)) <= K
  {
    StoredSigAt(S, n, K, d, 0);
    LcpSpec(q, StoredSig(S, K, d));
  }

  /** The pushes of the emit loop: every document with a nonzero counter,
      in increasing id order, with the negated counter as score. */
  function Scored(c: seq<byte>): seq<Pair>
  {
    if |c| == 0 then []
    else
      var d := |c| - 1;
      Scored(c[..d]) + (if c[d] == 0 then [] else [Pair(d, -(c[d] as int))])
  }

  lemma {:induction false} ScoredSpec(c: seq<byte>)
    ensures forall x :: x in Scored(c) <==>
      0 <= x.docid < |c| && c[x.docid] != 0 && x.score == -(c[x.docid] as int)
    ensures forall a, b :: 0 <= a < b < |Scored(c)| ==> Scored(c)[a].docid < Scored(c)[b].docid
  {
    if |c| != 0 {
      var d := |c| - 1;
      ScoredSpec(c[..d]);
      var rest := Scored(c[..d]);
      var tail: seq<Pair> := if c[d] == 0 then [] else [Pair(d, -(c[d] as int))];
      assert Scored(c) == rest + tail;
      forall a, b | 0 <= a < b < |rest + tail|
        ensures (rest + tail)[a].docid < (rest + tail)[b].docid
      {
        if b >= |rest| {
          assert (rest + tail)[a] in rest;
        }
      }
    }
  }

  /** Every document the small-dataset policy emits shares the query's
      rank-0 reference. */
  lemma ScoredSharesRankZero(S: seq<int>, K: int, q: seq<int>, n: nat, x: Pair)
    requires x in Scored(MatchCounts(S, K, q, n))
    ensures 0 <= x.docid < n && x.score < 0
    ensures |q| > 0 && |StoredSig(S, K, x.docid)| > 0 && StoredSig(S, K, x.docid)[0] == q[0]
  {
    var c := MatchCounts(S, K, q, n);
    ScoredSpec(c);
    LcpSpec(q, StoredSig(S, K, x.docid));
  }

  // ---------------------------------------------------------------------
  // Large-dataset policy

  /** Position c starts an occurrence of the first m ranks of q, aligned
      rank by rank: S[c + r] == q[r] for every r < m. */
  ghost predicate Agrees(S: seq<int>, q: seq<int>, c: int, m: nat)
    requires m <= |q|
  {
    0 <= c && c + m <= |S| && forall r :: 0 <= r < m ==> S[c + r] == q[r]
  }

  /** Merging rank i: c agrees on ranks [0, i] exactly when it agrees on
      [0, i) and c + i is in the posting list of q[i], that is, c is in the
      list shifted by -i. */
  lemma AgreesSnoc(S: seq<int>, q: seq<int>, c: int, i: nat)
    requires i < |q|
    ensures Agrees(S, q, c, i + 1) <==> Agrees(S, q, c, i) && c in Shifted(Positions(S, q[i]), i)
  {
    InPositions(S, q[i], c + i);
    InShifted(Positions(S, q[i]), i, c);
    if Agrees(S, q, c, i) && 0 <= c + i < |S| && S[c + i] == q[i] {
      forall r | 0 <= r < i + 1
        ensures S[c + r] == q[r]
      {
        if r < i {
          assert S[c + r] == q[r];
        }
      }
      assert Agrees(S, q, c, i + 1);
    }
    if Agrees(S, q, c, i + 1) {
      assert S[c + i] == q[i];
      assert Agrees(S, q, c, i);
    }
  }

  /** The candidate list after merging the first m ranks of q: the posting
      list of q[0], intersected in turn with the posting list of each rank
      i < m shifted by -i. */
  function AgreeList(S: seq<int>, q: seq<int>, m: nat): seq<int>
    requires 1 <= m <= |q|
  {
    if m == 1 then Positions(S, q[0])
    else Intersect(AgreeList(S, q, m - 1), Shifted(Positions(S, q[m - 1]), m - 1))
  }

  /** `L` lists exactly the positions agreeing with the first m ranks of q. */
  ghost predicate AgreeingExactly(S: seq<int>, q: seq<int>, L: seq<int>, m: nat)
    requires m <= |q|
  {
    forall c :: c in L <==> Agrees(S, q, c, m)
  }

  /** The merge loop goes on after merging m ranks: C = AgreeList(m) is
      larger than the budget, a rank remains, and merging it leaves at
      least `maxcand` positions, so the merge is kept. */
  predicate Continues(S: seq<int>, q: seq<int>, m: nat, maxcand: int)
  {
    1 <= m < |q| && |AgreeList(S, q, m)| > maxcand && |AgreeList(S, q, m + 1)| >= maxcand
  }

  /** The merge loop ends after merging m ranks: no rank remains, or C fits
      the budget, or merging the next rank would leave fewer than
      `maxcand` positions (that merge is discarded). */
  predicate Stops(S: seq<int>, q: seq<int>, m: nat, maxcand: int)
    requires 1 <= m <= |q|
  {
    m == |q| || |AgreeList(S, q, m)| <= maxcand || |AgreeList(S, q, m + 1)| < maxcand
  }

  /** The merge loop has one stopping point: the first m at which it stops. */
  lemma StopsOnce(S: seq<int>, q: seq<int>, maxcand: int, a: nat, b: nat)
    requires 1 <= a <= |q| && 1 <= b <= |q|
    requires forall m :: 1 <= m < a ==> Continues(S, q, m, maxcand)
    requires forall m :: 1 <= m < b ==> Continues(S, q, m, maxcand)
    requires Stops(S, q, a, maxcand) && Stops(S, q, b, maxcand)
    ensures a == b
  {
    assert !Continues(S, q, a, maxcand) && !Continues(S, q, b, maxcand);
  }

  /** The merged list is increasing, never longer than the first posting
      list, and holds exactly the positions agreeing with the first m ranks. */
  lemma {:induction false} AgreeListSpec(S: seq<int>, q: seq<int>, m: nat)
    requires 1 <= m <= |q|
    ensures Increasing(AgreeList(S, q, m))
    ensures |AgreeList(S, q, m)| <= |Positions(S, q[0])|
    ensures forall c :: c in AgreeList(S, q, m) <==> Agrees(S, q, c, m)
  {
    if m == 1 {
      AgreeListFirst(S, q);
    } else {
      AgreeListSpec(S, q, m - 1);
      AgreeListStep(S, q, m);
    }
  }

  /** The first posting list holds exactly the positions agreeing on rank 0. */
  lemma AgreeListFirst(S: seq<int>, q: seq<int>)
    requires 1 <= |q|
    ensures Increasing(AgreeList(S, q, 1))
    ensures forall c :: c in AgreeList(S, q, 1) <==> Agrees(S, q, c, 1)
  {
    PositionsSpec(S, q[0]);
    forall c
      ensures c in Positions(S, q[0]) <==> Agrees(S, q, c, 1)
    {
      AgreesSnoc(S, q, c, 0);
      InShifted(Positions(S, q[0]), 0, c);
    }
  }

  /** Merging rank m - 1 keeps the list increasing and no longer, and keeps
      exactly the positions that also agree on that rank. */
  lemma AgreeListStep(S: seq<int>, q: seq<int>, m: nat)
    requires 2 <= m <= |q|
    requires Increasing(AgreeList(S, q, m - 1))
    requires AgreeingExactly(S, q, AgreeList(S, q, m - 1), m - 1)
    ensures Increasing(AgreeList(S, q, m))
    ensures |AgreeList(S, q, m)| <= |AgreeList(S, q, m - 1)|
    ensures forall c :: c in AgreeList(S, q, m) <==> Agrees(S, q, c, m)
  {
    var prev := AgreeList(S, q, m - 1);
    var shifted := Shifted(Positions(S, q[m - 1]), m - 1);
    IntersectSpec(prev, shifted);
    IntersectIncreasing(prev, shifted);
    forall c
      ensures c in AgreeList(S, q, m) <==> Agrees(S, q, c, m)
    {
      AgreesSnoc(S, q, c, m - 1);
    }
  }

  /** The pushes of the emit loop: `c / K` with score 0 for each c in C with
      `c % K == 0`, in the order of C. */
  function AlignedDocs(C: seq<int>, K: int): seq<Pair>
    requires 0 < K
  {
    if |C| == 0 then []
    else
      var c := C[|C| - 1];
      AlignedDocs(C[..|C| - 1], K) + (if c % K == 0 then [Pair(c / K, 0)] else [])
  }

  /** A pair is emitted exactly when it scores 0 and its document's aligned
      position d*K is in C. */
  lemma {:induction false} AlignedDocsSpec(C: seq<int>, K: int)
    requires 0 < K
    ensures forall x :: x in AlignedDocs(C, K) <==> x.score == 0 && x.docid * K in C
  {
    if |C| != 0 {
      var c := C[|C| - 1];
      var init := C[..|C| - 1];
      AlignedDocsSpec(init, K);
      var rest := AlignedDocs(init, K);
      var tail: seq<Pair> := if c % K == 0 then [Pair(c / K, 0)] else [];
      assert AlignedDocs(C, K) == rest + tail;
      assert C == init + [c];
      assert c == (c / K) * K + c % K;
      forall x: Pair | x.score == 0 && x.docid * K == c
        ensures x in tail
      {
        MulDivMod(x.docid, 0, K);
      }
    }
  }

  /** Emitted documents are in increasing id order when C is increasing. */
  lemma {:induction false} AlignedDocsIncreasing(C: seq<int>, K: int)
    requires 0 < K && Increasing(C)
    ensures forall a, b :: 0 <= a < b < |AlignedDocs(C, K)| ==>
      AlignedDocs(C, K)[a].docid < AlignedDocs(C, K)[b].docid
  {
    if |C| != 0 {
      var c := C[|C| - 1];
      var init := C[..|C| - 1];
      assert Increasing(init);
      AlignedDocsIncreasing(init, K);
      AlignedDocsSpec(init, K);
      var rest := AlignedDocs(init, K);
      var tail: seq<Pair> := if c % K == 0 then [Pair(c / K, 0)] else [];
      assert AlignedDocs(C, K) == rest + tail;
      forall a, b | 0 <= a < b < |rest + tail| && b >= |rest|
        ensures (rest + tail)[a].docid < (rest + tail)[b].docid
      {
        var y := rest[a];
        assert y in rest;
        var k :| 0 <= k < |init| && init[k] == y.docid * K;
        assert C[k] < C[|C| - 1];
        assert c == (c / K) * K;
        if y.docid >= c / K {
          MulMono(c / K, y.docid, K);
        }
      }
    }
  }

  /** Documents emitted from a set of agreeing positions are documents of the dataset. */
  lemma AlignedDocsBelow(C: seq<int>, K: int, n: nat, S: seq<int>, q: seq<int>, m: nat)
    requires 0 < K && |S| == n * K && 1 <= m <= |q|
    requires forall c :: c in C ==> Agrees(S, q, c, m)
    ensures IdsBelow(AlignedDocs(C, K), n)
  {
    AlignedDocsSpec(C, K);
    forall k | 0 <= k < |AlignedDocs(C, K)|
      ensures 0 <= AlignedDocs(C, K)[k].docid < n
    {
      var x := AlignedDocs(C, K)[k];
      assert x in AlignedDocs(C, K);
      MulDivMod(x.docid, 0, K);
      SplitPosition(x.docid * K, n, K);
    }
  }

  /** Every document emitted from positions agreeing on m >= 1 ranks has a
      row that agrees with q on those m ranks. */
  lemma AlignedDocsAgree(C: seq<int>, K: int, S: seq<int>, q: seq<int>, m: nat)
    requires 0 < K && 1 <= m <= |q|
    requires forall c :: c in C ==> Agrees(S, q, c, m)
    ensures forall x :: x in AlignedDocs(C, K) ==> x.score == 0 && Agrees(S, q, x.docid * K, m)
  {
    AlignedDocsSpec(C, K);
  }

  /** Documents emitted by the small-dataset policy are documents of the dataset. */
  lemma ScoredBelow(S: seq<int>, K: int, q: seq<int>, n: nat)
    ensures IdsBelow(Scored(MatchCounts(S, K, q, n)), n)
  {
    var log := Scored(MatchCounts(S, K, q, n));
    ScoredSpec(MatchCounts(S, K, q, n));
    forall k | 0 <= k < |log|
      ensures 0 <= log[k].docid < n
    {
      assert log[k] in log;
    }
  }

  /** For a document's aligned position, agreement on the first m ranks is
      a common prefix of length at least m with its stored signature. */
  lemma AgreesIffLcp(S: seq<int>, K: int, q: seq<int>, n: nat, d: int, m: nat)
    requires 0 < K && |S| == n * K && 0 <= d < n && m <= K && m <= |q|
    ensures Agrees(S, q, d * K, m) <==> Lcp(q, StoredSig(S, K, d)) >= m
  {
    RowFits(d, n, K);
    var sig := StoredSig(S, K, d);
    LcpAtLeast(q, sig, m);
    forall r | 0 <= r < m
      ensures S[d * K + r] == sig[r]
    {
      StoredSigAt(S, n, K, d, r);
    }
  }

  /** With no early pruning (all K ranks merged), the large-dataset policy
      emits document d exactly when the small-dataset policy emits it with
      the full score -K: both select the documents whose stored signature
      equals the query's. */
  lemma PoliciesAgree(S: seq<int>, K: int, q: seq<int>, n: nat, C: seq<int>, d: int)
    requires 0 < K <= 255 && |q| == K && |S| == n * K && 0 <= d < n
    requires forall c :: c in C <==> Agrees(S, q, c, K)
    ensures Pair(d, 0) in AlignedDocs(C, K) <==> Pair(d, -K) in Scored(MatchCounts(S, K, q, n))
  {
    AlignedDocsSpec(C, K);
    ScoredSpec(MatchCounts(S, K, q, n));
    AgreesIffLcp(S, K, q, n, d, K);
    LcpSpec(q, StoredSig(S, K, d));
  }
}
