// Result accumulators shared by the KNR index and the graph beam search.
//
// The retention policy of a concrete accumulator (a bounded top-k `Result`,
// or a `ResultTies` that keeps ties at the boundary) is not part of this
// model: an accumulator is the history of what was pushed into it, and what
// it keeps and enumerates is given by an injected `view` whose only promise
// is that it returns entries that were pushed. Its covering radius is an
// injected function of the entries it keeps.
module Results {

  /** A (document id, score) pair; the score is a true distance or an ordinal rank. */
  datatype Pair = Pair(docid: int, score: int)

  /** The kept entries of an accumulator of a given capacity after a push history. */
  type View = (int, seq<Pair>) -> seq<Pair>

  function Min(a: int, b: int): int
  {
    if a < b then a else b
  }

  /** A view only ever enumerates entries that were pushed. */
  ghost predicate DrawsFromPushes(view: View)
  {
    forall cap, log, k :: 0 <= k < |view(cap, log)| ==> view(cap, log)[k] in log
  }

  /** All document ids of `log` lie in [0, bound). */
  predicate IdsBelow(log: seq<Pair>, bound: int)
  {
    forall k :: 0 <= k < |log| ==> 0 <= log[k].docid < bound
  }

  lemma ViewIdsBelow(view: View, cap: int, log: seq<Pair>, bound: int)
    requires DrawsFromPushes(view) && IdsBelow(log, bound)
    ensures IdsBelow(view(cap, log), bound)
  {
    forall k | 0 <= k < |view(cap, log)|
      ensures 0 <= view(cap, log)[k].docid < bound
    {
      var e := view(cap, log)[k];
      assert e in log;
      var t :| 0 <= t < |log| && log[t] == e;
    }
  }

  /** The document ids of a push log, in order. */
  function DocIds(log: seq<Pair>): (ids: seq<int>)
    ensures |ids| == |log|
  {
    seq(|log|, k requires 0 <= k < |log| => log[k].docid)
  }

  /** One pair per id, scored with its true distance to the query q. */
  function Evaluated<T>(q: T, db: seq<T>, dist: (T, T) -> int, ids: seq<int>): (r: seq<Pair>)
    requires forall k :: 0 <= k < |ids| ==> 0 <= ids[k] < |db|
    ensures |r| == |ids|
  {
    seq(|ids|, k requires 0 <= k < |ids| => Pair(ids[k], dist(q, db[ids[k]])))
  }

  lemma EvaluatedSnoc<T>(q: T, db: seq<T>, dist: (T, T) -> int, ids: seq<int>, x: int)
    requires forall k :: 0 <= k < |ids| ==> 0 <= ids[k] < |db|
    requires 0 <= x < |db|
    ensures Evaluated(q, db, dist, ids + [x]) == Evaluated(q, db, dist, ids) + [Pair(x, dist(q, db[x]))]
  {
  }

  lemma EvaluatedAppend<T>(q: T, db: seq<T>, dist: (T, T) -> int, a: seq<int>, b: seq<int>)
    requires forall k :: 0 <= k < |a| ==> 0 <= a[k] < |db|
    requires forall k :: 0 <= k < |b| ==> 0 <= b[k] < |db|
    ensures Evaluated(q, db, dist, a + b) == Evaluated(q, db, dist, a) + Evaluated(q, db, dist, b)
  {
  }

  class Accumulator {
    const capacity: int
    const view: View
    const cover: seq<Pair> -> int
    var pushes: seq<Pair>

    ghost predicate Valid()
      reads this
    {
      DrawsFromPushes(view)
    }

    constructor (capacity: int, view: View, cover: seq<Pair> -> int)
      requires DrawsFromPushes(view)
      ensures Valid()
      ensures this.capacity == capacity && this.view == view && this.cover == cover
      ensures pushes == []
    {
      this.capacity := capacity;
      this.view := view;
      this.cover := cover;
      pushes := [];
    }

    /** The entries the accumulator keeps, in its enumeration order. */
    function Items(): seq<Pair>
      reads this
    {
      view(capacity, pushes)
    }

    /** `Count` of the accumulator: the number of entries it keeps. */
    function Count(): int
      reads this
    {
      |Items()|
    }

    function CoveringRadius(): int
      reads this
    {
      RadiusOf(pushes)
    }

    /** The covering radius this accumulator has after the push log `log`. */
    function RadiusOf(log: seq<Pair>): int
    {
      cover(view(capacity, log))
    }

    method Push(docid: int, score: int)
      modifies this
      ensures pushes == old(pushes) + [Pair(docid, score)]
    {
      pushes := pushes + [Pair(docid, score)];
    }
  }
}
