// Posting lists of a rank/select sequence, by contract.
//
// `Unravel(s)` of the succinct sequence exposes, for symbol `s`, `Count1`
// (how many positions hold `s`) and `Select1(j)` (the j-th such position,
// 1-indexed, in increasing order). Here the sequence is its contents `S`
// and the posting list of `s` is `Positions(S, s)`, so `Select1(j)` is
// `Positions(S, s)[j - 1]`. The shifted list of the large-dataset policy and
// the intersection engine are given by what they return, not how.
module Postings {

  /** Strictly increasing. */
  predicate Increasing(s: seq<int>)
  {
    forall a, b :: 0 <= a < b < |s| ==> s[a] < s[b]
  }

  /** Positions p in [from, |S|) with S[p] == sym, in increasing order. */
  function PositionsFrom(S: seq<int>, sym: int, from: nat): seq<int>
    decreases |S| - from
  {
    if from >= |S| then []
    else (if S[from] == sym then [from] else []) + PositionsFrom(S, sym, from + 1)
  }

  /** The posting list of `sym`: every position of `S` holding `sym`, increasing. */
  function Positions(S: seq<int>, sym: int): seq<int>
  {
    PositionsFrom(S, sym, 0)
  }

  lemma {:induction false} PositionsFromSpec(S: seq<int>, sym: int, from: nat)
    ensures Increasing(PositionsFrom(S, sym, from))
    ensures forall p :: p in PositionsFrom(S, sym, from) <==> from <= p < |S| && S[p] == sym
    decreases |S| - from
  {
    if from < |S| {
      PositionsFromSpec(S, sym, from + 1);
      var rest := PositionsFrom(S, sym, from + 1);
      var head: seq<int> := if S[from] == sym then [from] else [];
      assert PositionsFrom(S, sym, from) == head + rest;
      forall a, b | 0 <= a < b < |head + rest|
        ensures (head + rest)[a] < (head + rest)[b]
      {
        if a < |head| {
          assert (head + rest)[b] in rest;
        }
      }
    }
  }

  /** Posting-list consistency: a posting list is strictly increasing, and
      a position is listed exactly when it holds the symbol. */
  lemma PositionsSpec(S: seq<int>, sym: int)
    ensures Increasing(Positions(S, sym))
    ensures forall p :: p in Positions(S, sym) <==> 0 <= p < |S| && S[p] == sym
  {
    PositionsFromSpec(S, sym, 0);
  }

  /** Posting-list membership of one position. */
  lemma InPositions(S: seq<int>, sym: int, p: int)
    ensures p in Positions(S, sym) <==> 0 <= p < |S| && S[p] == sym
  {
    PositionsSpec(S, sym);
  }

  /** `ShiftedSortedListRS(rs, -i)`: every position of the list minus `i`. */
  function Shifted(s: seq<int>, i: int): (r: seq<int>)
    ensures |r| == |s|
    ensures forall k :: 0 <= k < |s| ==> r[k] == s[k] - i
  {
    if s == [] then [] else [s[0] - i] + Shifted(s[1..], i)
  }

  lemma ShiftedSpec(s: seq<int>, i: int)
    ensures forall x :: x in Shifted(s, i) <==> x + i in s
  {
    forall x | x + i in s
      ensures x in Shifted(s, i)
    {
      var k :| 0 <= k < |s| && s[k] == x + i;
      assert Shifted(s, i)[k] == x;
    }
  }

  /** Shifted-list membership of one value. */
  lemma InShifted(s: seq<int>, i: int, x: int)
    ensures x in Shifted(s, i) <==> x + i in s
  {
    ShiftedSpec(s, i);
  }

  /** The intersection of two sorted lists, in the order of the first. */
  function Intersect(a: seq<int>, b: seq<int>): seq<int>
  {
    if a == [] then []
    else (if a[0] in b then [a[0]] else []) + Intersect(a[1..], b)
  }

  /** The intersection keeps exactly the common elements and never grows. */
  lemma {:induction false} IntersectSpec(a: seq<int>, b: seq<int>)
    ensures |Intersect(a, b)| <= |a|
    ensures forall x :: x in Intersect(a, b) <==> x in a && x in b
  {
    if a != [] {
      IntersectSpec(a[1..], b);
      assert a == [a[0]] + a[1..];
    }
  }

  /** The intersection of an increasing list is increasing. */
  lemma {:induction false} IntersectIncreasing(a: seq<int>, b: seq<int>)
    requires Increasing(a)
    ensures Increasing(Intersect(a, b))
  {
    if a != [] {
      var t := a[1..];
      assert Increasing(t);
      IntersectIncreasing(t, b);
      IntersectSpec(t, b);
      var head: seq<int> := if a[0] in b then [a[0]] else [];
      var rest := Intersect(t, b);
      assert Intersect(a, b) == head + rest;
      forall a', b' | 0 <= a' < b' < |head + rest|
        ensures (head + rest)[a'] < (head + rest)[b']
      {
        if a' < |head| {
          var y := (head + rest)[b'];
          assert y in rest;
          var k :| 0 <= k < |t| && t[k] == y;
          assert a[k + 1] == y;
        }
      }
    }
  }
}
