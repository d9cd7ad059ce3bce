// Local beam search over an approximate proximity graph, seeded by random
// vertices (`ApproxGraphLocalBeamKNR`).
//
// The graph is its adjacency lists `Vertices`; the random source is a stream
// of pre-drawn ids; the result accumulators are those of module Results.
module Beam {
  import opened Results

  /** No id occurs twice. */
  predicate NoDup(s: seq<int>)
  {
    forall a, b :: 0 <= a < b < |s| ==> s[a] != s[b]
  }

  /** All ids of `s` lie in [0, bound). */
  predicate AllBelow(s: seq<int>, bound: int)
  {
    forall k :: 0 <= k < |s| ==> 0 <= s[k] < bound
  }

  /** The tie rule: no two consecutive ties except as the last two rounds,
      and fewer than `repeat` rounds only when the last two were ties. */
  predicate StopsAfterTwoTies(ties: seq<bool>, repeat: int)
  {
    (forall i :: 0 <= i < |ties| - 2 ==> !(ties[i] && ties[i + 1]))
    && (|ties| < repeat ==> 2 <= |ties| && ties[|ties| - 2] && ties[|ties| - 1])
  }

  lemma AllBelowAppend(a: seq<int>, b: seq<int>, bound: int)
    requires AllBelow(a, bound) && AllBelow(b, bound)
    ensures AllBelow(a + b, bound)
  {
  }

  /** The set of ids listed in `s`. */
  function Elems(s: seq<int>): set<int>
  {
    set x | x in s
  }

  lemma ElemsAppend(a: seq<int>, b: seq<int>)
    ensures Elems(a + b) == Elems(a) + Elems(b)
  {
    assert forall x :: x in a + b <==> x in a || x in b;
  }

  /** A duplicate-free list has as many distinct ids as entries. */
  lemma {:induction false} NoDupCard(s: seq<int>)
    requires NoDup(s)
    ensures |Elems(s)| == |s|
  {
    if s != [] {
      var t := s[..|s| - 1];
      var x := s[|s| - 1];
      assert NoDup(t);
      NoDupCard(t);
      assert x !in t;
      assert Elems(s) == Elems(t) + {x};
    }
  }

  /** The ids a loop that visits `ids` in order evaluates, in evaluation
      order, when the ids of `seen` were evaluated before it: an id is
      evaluated when it is not yet evaluated, and is evaluated from then on. */
  function FirstNew(ids: seq<int>, seen: set<int>): seq<int>
  {
    if ids == [] then []
    else if ids[0] in seen then FirstNew(ids[1..], seen)
    else [ids[0]] + FirstNew(ids[1..], seen + {ids[0]})
  }

  /** The first-time ids are exactly the ids of `ids` outside `seen`,
      each listed once. */
  lemma {:induction false} FirstNewSpec(ids: seq<int>, seen: set<int>)
    ensures forall x :: x in FirstNew(ids, seen) <==> x in ids && x !in seen
    ensures NoDup(FirstNew(ids, seen))
  {
    if ids != [] {
      var y, rest := ids[0], ids[1..];
      assert ids == [y] + rest;
      if y in seen {
        FirstNewSpec(rest, seen);
      } else {
        FirstNewSpec(rest, seen + {y});
        var f := FirstNew(rest, seen + {y});
        assert y !in f;
        assert forall a :: 0 < a <= |f| ==> ([y] + f)[a] == f[a - 1];
      }
    }
  }

  lemma FirstNewBelow(ids: seq<int>, seen: set<int>, bound: int)
    requires AllBelow(ids, bound)
    ensures AllBelow(FirstNew(ids, seen), bound)
  {
    FirstNewSpec(ids, seen);
    var f := FirstNew(ids, seen);
    forall k | 0 <= k < |f|
      ensures 0 <= f[k] < bound
    {
      assert f[k] in ids;
      var j :| 0 <= j < |ids| && ids[j] == f[k];
    }
  }

  /** Visiting `a` and then `b` evaluates the first-time ids of `a`, then
      those of `b` that neither `seen` nor `a` holds. */
  lemma {:induction false} FirstNewAppend(a: seq<int>, b: seq<int>, seen: set<int>)
    ensures FirstNew(a + b, seen) == FirstNew(a, seen) + FirstNew(b, seen + Elems(a))
  {
    if a == [] {
      assert a + b == b;
      assert seen + Elems(a) == seen;
    } else {
      var y, rest := a[0], a[1..];
      assert (a + b)[0] == y && (a + b)[1..] == rest + b;
      assert Elems(a) == {y} + Elems(rest);
      if y in seen {
        FirstNewAppend(rest, b, seen);
        assert seen + Elems(a) == seen + Elems(rest);
      } else {
        FirstNewAppend(rest, b, seen + {y});
        assert seen + Elems(a) == seen + {y} + Elems(rest);
      }
    }
  }

  /** Visiting one more id evaluates it exactly when it is neither in
      `seen` nor listed earlier. */
  lemma FirstNewSnoc(ids: seq<int>, t: int, seen: set<int>)
    requires 0 <= t < |ids|
    ensures FirstNew(ids[..t + 1], seen)
         == FirstNew(ids[..t], seen) + if ids[t] in seen + Elems(ids[..t]) then [] else [ids[t]]
  {
    assert ids[..t + 1] == ids[..t] + [ids[t]];
    FirstNewAppend(ids[..t], [ids[t]], seen);
    assert [ids[t]][1..] == [];
  }

  /** The visible state of the search between two rounds: the beam's kept
      entries, the evaluated ids and the push log of the final result. */
  datatype Step = Step(beam: seq<Pair>, seen: set<int>, log: seq<Pair>)

  /** `SearchState`: the ids whose distance to the query has been computed. */
  class SearchState {
    var evaluated: set<int>
    /** The ids in the order they were first added. */
    ghost var order: seq<int>

    ghost predicate Valid()
      reads this
    {
      NoDup(order) && forall x :: x in evaluated <==> x in order
    }

    constructor ()
      ensures Valid() && evaluated == {} && order == []
    {
      evaluated := {};
      order := [];
    }

    /** Every id of `evaluated` was added exactly once. */
    lemma Distinct()
      requires Valid()
      ensures evaluated == Elems(order) && |evaluated| == |order|
    {
      forall x
        ensures x in evaluated <==> x in Elems(order)
      {
        assert x in evaluated <==> x in order;
      }
      NoDupCard(order);
    }

    /** `evaluated.Add(x)`: true exactly when `x` was not there before. */
    method Add(x: int) returns (added: bool)
      requires Valid()
      modifies this
      ensures Valid()
      ensures added <==> x !in old(evaluated)
      ensures evaluated == old(evaluated) + {x}
      ensures order == if added then old(order) + [x] else old(order)
    {
      added := x !in evaluated;
      if added {
        order := order + [x];
      }
      evaluated := evaluated + {x};
    }
  }

  /** `this.rand`: a stream of ids drawn in advance. */
  class RandomStream {
    var draws: seq<int>

    constructor (draws: seq<int>)
      ensures this.draws == draws
    {
      this.draws := draws;
    }

    /** `Next(bound)`: the next draw, which lies in [0, bound). */
    method Next(bound: int) returns (r: int)
      requires draws != [] && 0 <= draws[0] < bound
      modifies this
      ensures r == old(draws)[0] && draws == old(draws)[1..]
      ensures 0 <= r < bound
    {
      r := draws[0];
      draws := draws[1..];
    }
  }

  class ApproxGraphLocalBeamKNR<T> {
    /** Adjacency lists: `Vertices[v]` are the neighbours of vertex `v`. */
    var Vertices: seq<seq<int>>
    var db: seq<T>
    var dist: (T, T) -> int
    var BeamSize: int
    var RepeatSearch: int
    var rand: RandomStream
    /** Retention and covering radius of every `Result` this search creates. */
    const resultView: View
    const resultCover: seq<Pair> -> int

    /** Every neighbour is a vertex, and every vertex is an object of the database. */
    ghost predicate Valid()
      reads this
    {
      |Vertices| <= |db| && Adjacent() && DrawsFromPushes(resultView)
    }

    /** Every neighbour is a vertex. */
    ghost predicate Adjacent()
      reads this
    {
      forall v, k :: 0 <= v < |Vertices| && 0 <= k < |Vertices[v]| ==> 0 <= Vertices[v][k] < |Vertices|
    }

    constructor (Vertices: seq<seq<int>>, db: seq<T>, dist: (T, T) -> int, BeamSize: int,
                 RepeatSearch: int, rand: RandomStream, resultView: View, resultCover: seq<Pair> -> int)
      requires |Vertices| <= |db|
      requires forall v, k :: 0 <= v < |Vertices| && 0 <= k < |Vertices[v]| ==> 0 <= Vertices[v][k] < |Vertices|
      requires DrawsFromPushes(resultView)
      ensures Valid()
      ensures this.Vertices == Vertices && this.db == db && this.dist == dist && this.BeamSize == BeamSize
      ensures this.RepeatSearch == RepeatSearch && this.rand == rand
      ensures this.resultView == resultView && this.resultCover == resultCover
    {
      this.Vertices := Vertices;
      this.db := db;
      this.dist := dist;
      this.BeamSize := BeamSize;
      this.RepeatSearch := RepeatSearch;
      this.rand := rand;
      this.resultView := resultView;
      this.resultCover := resultCover;
    }

    /** The number of random seeds: at most 1024, at most the number of vertices. */
    function SampleSize(): int
      reads this
    {
      Min(1024, |Vertices|)
    }

    /** The random stream holds enough draws, each a vertex. */
    ghost predicate RandomReady()
      reads this, rand
    {
      SampleSize() <= |rand.draws| && AllBelow(rand.draws, |Vertices|)
    }

    /** The adjacency lists of the vertices listed in `items`, concatenated
        in the order of `items`: the ids an expansion of that beam visits. */
    ghost function NeighbourList(items: seq<Pair>): seq<int>
      requires IdsBelow(items, |Vertices|)
      reads this
    {
      if items == [] then []
      else NeighbourList(items[..|items| - 1]) + Vertices[items[|items| - 1].docid]
    }

    /** All neighbours of the vertices listed in `items`. */
    ghost function Neighbours(items: seq<Pair>): set<int>
      requires IdsBelow(items, |Vertices|)
      reads this
    {
      Elems(NeighbourList(items))
    }

    /** Adding one more beam entry appends its adjacency list. */
    lemma NeighbourListStep(items: seq<Pair>, b: int)
      requires IdsBelow(items, |Vertices|) && 0 <= b < |items|
      ensures NeighbourList(items[..b + 1]) == NeighbourList(items[..b]) + Vertices[items[b].docid]
      ensures Neighbours(items[..b + 1]) == Neighbours(items[..b]) + Elems(Vertices[items[b].docid])
    {
      assert items[..b + 1][..b] == items[..b];
      ElemsAppend(NeighbourList(items[..b]), Vertices[items[b].docid]);
    }

    /** The neighbours of vertex `v` are vertices. */
    lemma AdjacentBelow(v: int)
      requires Adjacent() && 0 <= v < |Vertices|
      ensures AllBelow(Vertices[v], |Vertices|)
    {
    }

    /** Every neighbour of a vertex is a vertex. */
    lemma {:induction false} NeighbourListBelow(items: seq<Pair>)
      requires Adjacent() && IdsBelow(items, |Vertices|)
      ensures AllBelow(NeighbourList(items), |Vertices|)
    {
      if items != [] {
        NeighbourListBelow(items[..|items| - 1]);
        NeighbourListStep(items, |items| - 1);
        AdjacentBelow(items[|items| - 1].docid);
        assert items[..|items| - 1 + 1] == items;
      }
    }

    /** The ids an expansion of the beam `items` evaluates, in evaluation
        order, when `seen` were evaluated before it. */
    ghost function Expansion(items: seq<Pair>, seen: set<int>): (news: seq<int>)
      requires Adjacent() && IdsBelow(items, |Vertices|)
      reads this
      ensures AllBelow(news, |Vertices|)
    {
      NeighbourListBelow(items);
      FirstNewBelow(NeighbourList(items), seen, |Vertices|);
      FirstNew(NeighbourList(items), seen)
    }

    /** One round of the search turns `s` into `t`: the neighbours of the
        beam of `s` are visited in beam order, those not evaluated before
        are evaluated and pushed into the final result, and the new beam of
        capacity `cap` keeps what the retention policy keeps of them. */
    ghost predicate Advances(q: T, s: Step, t: Step, cap: int)
      reads this
    {
      && |Vertices| <= |db| && Adjacent() && IdsBelow(s.beam, |Vertices|)
      && var news := Expansion(s.beam, s.seen);
         && t.seen == s.seen + Neighbours(s.beam)
         && t.log == s.log + Evaluated(q, db, dist, news)
         && t.beam == resultView(cap, Evaluated(q, db, dist, news))
    }

    /** Round k of a run: it advances `steps[k]` to `steps[k + 1]`, and
        `ties[k]` says whether it left the covering radius of `final`
        unchanged. */
    ghost predicate RoundAt(q: T, steps: seq<Step>, ties: seq<bool>, k: int, cap: int, final: Accumulator)
      requires 0 <= k < |ties| && |steps| == |ties| + 1
      reads this
    {
      && Advances(q, steps[k], steps[k + 1], cap)
      && ties[k] == (final.RadiusOf(steps[k + 1].log) == final.RadiusOf(steps[k].log))
    }

    /** `steps` are the states between the rounds the search ran, one more
        than there were rounds, and every round k is `RoundAt` k. */
    ghost predicate Rounds(q: T, steps: seq<Step>, ties: seq<bool>, cap: int, final: Accumulator)
      reads this
    {
      && |steps| == |ties| + 1
      && forall k :: 0 <= k < |ties| ==> RoundAt(q, steps, ties, k, cap, final)
    }

    /** One more round extends a run. */
    lemma RoundsSnoc(q: T, steps: seq<Step>, ties: seq<bool>, cap: int, final: Accumulator, t: Step, tie: bool)
      requires Rounds(q, steps, ties, cap, final)
      requires Advances(q, steps[|ties|], t, cap)
      requires tie == (final.RadiusOf(t.log) == final.RadiusOf(steps[|ties|].log))
      ensures Rounds(q, steps + [t], ties + [tie], cap, final)
    {
      var steps', ties' := steps + [t], ties + [tie];
      forall k | 0 <= k < |ties'|
        ensures RoundAt(q, steps', ties', k, cap, final)
      {
        if k < |ties| {
          assert RoundAt(q, steps, ties, k, cap, final);
          assert steps'[k] == steps[k] && steps'[k + 1] == steps[k + 1] && ties'[k] == ties[k];
        }
      }
    }

    /** Two runs from the same state agree on their first k rounds. */
    lemma {:induction false} RunsPrefix(q: T, s1: seq<Step>, t1: seq<bool>, s2: seq<Step>, t2: seq<bool>,
                                        cap: int, final: Accumulator, k: int)
      requires Rounds(q, s1, t1, cap, final) && Rounds(q, s2, t2, cap, final) && s1[0] == s2[0]
      requires 0 <= k <= |t1| && k <= |t2|
      ensures s1[k] == s2[k] && t1[..k] == t2[..k]
    {
      if k > 0 {
        RunsPrefix(q, s1, t1, s2, t2, cap, final, k - 1);
        assert RoundAt(q, s1, t1, k - 1, cap, final) && RoundAt(q, s2, t2, k - 1, cap, final);
        assert t1[..k] == t1[..k - 1] + [t1[k - 1]] && t2[..k] == t2[..k - 1] + [t2[k - 1]];
      }
    }

    /** A run is determined by its first state: two runs from the same state
        that both stay within `RepeatSearch` rounds and obey the tie rule
        are the same run. */
    lemma RunsAgree(q: T, s1: seq<Step>, t1: seq<bool>, s2: seq<Step>, t2: seq<bool>, cap: int, final: Accumulator)
      requires Rounds(q, s1, t1, cap, final) && Rounds(q, s2, t2, cap, final) && s1[0] == s2[0]
      requires |t1| <= RepeatSearch || t1 == []
      requires |t2| <= RepeatSearch || t2 == []
      requires StopsAfterTwoTies(t1, RepeatSearch) && StopsAfterTwoTies(t2, RepeatSearch)
      ensures s1 == s2 && t1 == t2
    {
      if |t1| < |t2| {
        RunsPrefix(q, s1, t1, s2, t2, cap, final, |t1|);
      } else if |t2| < |t1| {
        RunsPrefix(q, s1, t1, s2, t2, cap, final, |t2|);
      } else {
        forall k | 0 <= k < |s1|
          ensures s1[k] == s2[k]
        {
          RunsPrefix(q, s1, t1, s2, t2, cap, final, k);
        }
        RunsPrefix(q, s1, t1, s2, t2, cap, final, |t1|);
        assert t1 == t1[..|t1|] && t2 == t2[..|t2|];
      }
    }

    /** The state after seeding from the draws `draws`, when the ids of
        `seen` were evaluated and the push log of the final result was
        `log`: each vertex drawn for the first time and not in `seen` is
        evaluated and pushed into the final result and into a beam of
        capacity min(BeamSize, |Vertices|). */
    ghost function Seeded(q: T, draws: seq<int>, seen: set<int>, log: seq<Pair>): Step
      requires |Vertices| <= |db| && AllBelow(draws, |Vertices|)
      reads this
    {
      FirstNewBelow(draws, seen, |Vertices|);
      var pushed := Evaluated(q, db, dist, FirstNew(draws, seen));
      Step(resultView(Min(BeamSize, |Vertices|), pushed), seen + Elems(draws), log + pushed)
    }

    /** The pairs evaluated for vertex ids carry vertex ids. */
    lemma EvaluatedIdsBelow(q: T, ids: seq<int>)
      requires |Vertices| <= |db| && AllBelow(ids, |Vertices|)
      ensures IdsBelow(Evaluated(q, db, dist, ids), |Vertices|)
    {
    }

    /** Evaluates `u` unless it was evaluated before: a new id is pushed,
        with its distance to `q`, into `first` and then into `second`. */
    method Visit(q: T, u: int, first: Accumulator, second: Accumulator, state: SearchState)
      returns (added: bool)
      requires |Vertices| <= |db| && state.Valid() && AllBelow(state.order, |Vertices|) && 0 <= u < |Vertices|
      requires first != second
      modifies first, second, state
      ensures added <==> u !in old(state.evaluated)
      ensures state.Valid() && AllBelow(state.order, |Vertices|)
      ensures state.evaluated == old(state.evaluated) + {u}
      ensures state.order == old(state.order) + if added then [u] else []
      ensures first.pushes == old(first.pushes) + if added then [Pair(u, dist(q, db[u]))] else []
      ensures second.pushes == old(second.pushes) + if added then [Pair(u, dist(q, db[u]))] else []
    {
      added := state.Add(u);
      if added {
        var d := dist(q, db[u]);
        first.Push(u, d);
        second.Push(u, d);
      }
    }

    /** Seeding: draw `SampleSize()` random vertices; each id drawn for the
        first time is evaluated once and pushed into both the new beam and
        `final`. `news` lists those ids in evaluation order. */
    method FirstBeam(q: T, final: Accumulator, state: SearchState)
      returns (beam: Accumulator, ghost news: seq<int>)
      requires Valid() && RandomReady() && state.Valid() && AllBelow(state.order, |Vertices|)
      modifies final, state, rand
      ensures fresh(beam) && beam.Valid()
      ensures beam.capacity == Min(BeamSize, |Vertices|) && beam.view == resultView
      ensures rand.draws == old(rand.draws)[SampleSize()..]
      ensures state.Valid() && AllBelow(state.order, |Vertices|)
      ensures state.evaluated == old(state.evaluated) + Elems(old(rand.draws)[..SampleSize()])
      ensures news == FirstNew(old(rand.draws)[..SampleSize()], old(state.evaluated))
      ensures state.order == old(state.order) + news && AllBelow(news, |Vertices|)
      ensures beam.pushes == Evaluated(q, db, dist, news)
      ensures final.pushes == old(final.pushes) + Evaluated(q, db, dist, news)
      ensures Step(beam.Items(), state.evaluated, final.pushes)
           == Seeded(q, old(rand.draws)[..SampleSize()], old(state.evaluated), old(final.pushes))
    {
      var samplesize := Min(1024, |Vertices|);
      var beamsize := Min(BeamSize, |Vertices|);
      beam := new Accumulator(beamsize, resultView, resultCover);
      news := Sample(q, samplesize, beam, final, state);
    }

    /** The seeding loop: `samplesize` draws, each visited. */
    method Sample(q: T, samplesize: int, beam: Accumulator, final: Accumulator, state: SearchState)
      returns (ghost news: seq<int>)
      requires |Vertices| <= |db| && 0 <= samplesize <= |rand.draws| && AllBelow(rand.draws, |Vertices|)
      requires state.Valid() && AllBelow(state.order, |Vertices|) && beam != final
      modifies beam, final, state, rand
      ensures rand.draws == old(rand.draws)[samplesize..]
      ensures state.Valid() && AllBelow(state.order, |Vertices|)
      ensures state.evaluated == old(state.evaluated) + Elems(old(rand.draws)[..samplesize])
      ensures news == FirstNew(old(rand.draws)[..samplesize], old(state.evaluated))
      ensures state.order == old(state.order) + news && AllBelow(news, |Vertices|)
      ensures beam.pushes == old(beam.pushes) + Evaluated(q, db, dist, news)
      ensures final.pushes == old(final.pushes) + Evaluated(q, db, dist, news)
    {
      ghost var draws0 := rand.draws;
      news := [];
      for i := 0 to samplesize
        invariant rand.draws == draws0[i..]
        invariant state.Valid() && AllBelow(state.order, |Vertices|)
        invariant state.evaluated == old(state.evaluated) + Elems(draws0[..i])
        invariant news == FirstNew(draws0[..i], old(state.evaluated))
        invariant state.order == old(state.order) + news && AllBelow(news, |Vertices|)
        invariant beam.pushes == old(beam.pushes) + Evaluated(q, db, dist, news)
        invariant final.pushes == old(final.pushes) + Evaluated(q, db, dist, news)
      {
        var docID := rand.Next(|Vertices|);
        news := VisitStep(q, docID, draws0, i, beam, final, state, old(state.evaluated), old(state.order),
                          old(beam.pushes), old(final.pushes), news);
      }
    }

    /** Visits the ids of `ids` in order, continuing a visiting loop that
        has visited `prev` since the evaluated set was `ev0`, the evaluation
        order `ord0` and the push logs `fp0` and `sp0`; `news0` are the ids
        that loop has evaluated so far, and `news` extends them with the ids
        of `ids` evaluated for the first time. */
    method VisitAll(q: T, ids: seq<int>, first: Accumulator, second: Accumulator, state: SearchState,
                    ghost prev: seq<int>, ghost ev0: set<int>, ghost ord0: seq<int>,
                    ghost fp0: seq<Pair>, ghost sp0: seq<Pair>, ghost news0: seq<int>)
      returns (ghost news: seq<int>)
      requires |Vertices| <= |db| && AllBelow(ids, |Vertices|) && first != second
      requires state.Valid() && AllBelow(state.order, |Vertices|)
      requires state.evaluated == ev0 + Elems(prev)
      requires news0 == FirstNew(prev, ev0)
      requires state.order == ord0 + news0 && AllBelow(news0, |Vertices|)
      requires first.pushes == fp0 + Evaluated(q, db, dist, news0)
      requires second.pushes == sp0 + Evaluated(q, db, dist, news0)
      modifies first, second, state
      ensures state.Valid() && AllBelow(state.order, |Vertices|)
      ensures state.evaluated == ev0 + Elems(prev + ids)
      ensures news == FirstNew(prev + ids, ev0)
      ensures state.order == ord0 + news && AllBelow(news, |Vertices|)
      ensures first.pushes == fp0 + Evaluated(q, db, dist, news)
      ensures second.pushes == sp0 + Evaluated(q, db, dist, news)
    {
      news := news0;
      assert prev + ids[..0] == prev;
      for t := 0 to |ids|
        invariant state.Valid() && AllBelow(state.order, |Vertices|)
        invariant state.evaluated == ev0 + Elems(prev + ids[..t])
        invariant news == FirstNew(prev + ids[..t], ev0)
        invariant state.order == ord0 + news && AllBelow(news, |Vertices|)
        invariant first.pushes == fp0 + Evaluated(q, db, dist, news)
        invariant second.pushes == sp0 + Evaluated(q, db, dist, news)
      {
        assert (prev + ids)[..|prev| + t] == prev + ids[..t];
        news := VisitStep(q, ids[t], prev + ids, |prev| + t, first, second, state, ev0, ord0, fp0, sp0, news);
        assert (prev + ids)[..|prev| + t + 1] == prev + ids[..t + 1];
      }
      assert ids[..|ids|] == ids;
    }

    /** One iteration of a visiting loop over `ids`: `u`, which is `ids[t]`,
        visited. `ev0`, `ord0`, `fp0` and `sp0` are the evaluated set, the
        evaluation order and the two push logs when the loop began, `news0`
        the ids it has evaluated so far. */
    method VisitStep(q: T, u: int, ghost ids: seq<int>, ghost t: int, first: Accumulator, second: Accumulator,
                     state: SearchState, ghost ev0: set<int>, ghost ord0: seq<int>,
                     ghost fp0: seq<Pair>, ghost sp0: seq<Pair>, ghost news0: seq<int>)
      returns (ghost news: seq<int>)
      requires |Vertices| <= |db| && 0 <= t < |ids| && u == ids[t] && 0 <= u < |Vertices|
      requires first != second
      requires state.Valid() && AllBelow(state.order, |Vertices|)
      requires state.evaluated == ev0 + Elems(ids[..t])
      requires news0 == FirstNew(ids[..t], ev0)
      requires state.order == ord0 + news0 && AllBelow(news0, |Vertices|)
      requires first.pushes == fp0 + Evaluated(q, db, dist, news0)
      requires second.pushes == sp0 + Evaluated(q, db, dist, news0)
      modifies first, second, state
      ensures state.Valid() && AllBelow(state.order, |Vertices|)
      ensures state.evaluated == ev0 + Elems(ids[..t + 1])
      ensures news == FirstNew(ids[..t + 1], ev0)
      ensures state.order == ord0 + news && AllBelow(news, |Vertices|)
      ensures first.pushes == fp0 + Evaluated(q, db, dist, news)
      ensures second.pushes == sp0 + Evaluated(q, db, dist, news)
    {
      FirstNewSnoc(ids, t, ev0);
      var added := Visit(q, u, first, second, state);
      news := news0;
      if added {
        EvaluatedSnoc(q, db, dist, news0, u);
        news := news0 + [u];
        ghost var p := Pair(u, dist(q, db[u]));
        assert fp0 + Evaluated(q, db, dist, news) == (fp0 + Evaluated(q, db, dist, news0)) + [p];
        assert sp0 + Evaluated(q, db, dist, news) == (sp0 + Evaluated(q, db, dist, news0)) + [p];
      }
    }

    /** One expansion step: every not yet evaluated neighbour of a vertex of
        the current beam is evaluated once, in beam order, and pushed into
        `final` and into a new beam of capacity `cap`; `news` lists them in
        evaluation order. */
    method ExpandBeam(q: T, items: seq<Pair>, cap: int, final: Accumulator, state: SearchState)
      returns (next: Accumulator, ghost news: seq<int>)
      requires Valid() && state.Valid() && AllBelow(state.order, |Vertices|) && IdsBelow(items, |Vertices|)
      modifies final, state
      ensures fresh(next) && next.Valid() && next.capacity == cap && next.view == resultView
      ensures state.Valid() && AllBelow(state.order, |Vertices|)
      ensures state.evaluated == old(state.evaluated) + Neighbours(items)
      ensures news == Expansion(items, old(state.evaluated))
      ensures state.order == old(state.order) + news
      ensures forall k :: 0 <= k < |news| ==> news[k] in Neighbours(items) && news[k] !in old(state.evaluated)
      ensures next.pushes == Evaluated(q, db, dist, news)
      ensures final.pushes == old(final.pushes) + Evaluated(q, db, dist, news)
    {
      next := new Accumulator(cap, resultView, resultCover);
      news := VisitNeighbours(q, items, final, next, state);
      FirstNewSpec(NeighbourList(items), old(state.evaluated));
    }

    /** The loops of an expansion step: the neighbours of every vertex of
        `items`, in order, each visited. */
    method VisitNeighbours(q: T, items: seq<Pair>, final: Accumulator, next: Accumulator, state: SearchState)
      returns (ghost news: seq<int>)
      requires |Vertices| <= |db| && Adjacent()
      requires state.Valid() && AllBelow(state.order, |Vertices|) && IdsBelow(items, |Vertices|)
      requires final != next
      modifies final, next, state
      ensures state.Valid() && AllBelow(state.order, |Vertices|)
      ensures state.evaluated == old(state.evaluated) + Neighbours(items)
      ensures news == Expansion(items, old(state.evaluated))
      ensures state.order == old(state.order) + news
      ensures next.pushes == old(next.pushes) + Evaluated(q, db, dist, news)
      ensures final.pushes == old(final.pushes) + Evaluated(q, db, dist, news)
    {
      news := [];
      for b := 0 to |items|
        invariant state.Valid() && AllBelow(state.order, |Vertices|)
        invariant state.evaluated == old(state.evaluated) + Neighbours(items[..b])
        invariant news == FirstNew(NeighbourList(items[..b]), old(state.evaluated))
        invariant state.order == old(state.order) + news && AllBelow(news, |Vertices|)
        invariant next.pushes == old(next.pushes) + Evaluated(q, db, dist, news)
        invariant final.pushes == old(final.pushes) + Evaluated(q, db, dist, news)
      {
        AdjacentBelow(items[b].docid);
        NeighbourListStep(items, b);
        news := VisitAll(q, Vertices[items[b].docid], final, next, state, NeighbourList(items[..b]),
                         old(state.evaluated), old(state.order), old(final.pushes), old(next.pushes), news);
      }
      assert items[..|items|] == items;
    }

    /** One iteration of the expansion loop: expand `beam` into a new beam
        of capacity `cap`, and report a tie when the covering radius of
        `final` is the one it had before the expansion. */
    method Round(q: T, beam: Accumulator, cap: int, final: Accumulator, state: SearchState)
      returns (next: Accumulator, tie: bool, ghost news: seq<int>)
      requires Valid() && state.Valid() && AllBelow(state.order, |Vertices|)
      requires beam.view == resultView && IdsBelow(beam.pushes, |Vertices|)
      modifies final, state
      ensures fresh(next) && next.Valid() && next.capacity == cap && next.view == resultView
      ensures IdsBelow(next.pushes, |Vertices|)
      ensures state.Valid() && AllBelow(state.order, |Vertices|)
      ensures Advances(q, Step(old(beam.Items()), old(state.evaluated), old(final.pushes)),
                       Step(next.Items(), state.evaluated, final.pushes), cap)
      ensures news == Expansion(old(beam.Items()), old(state.evaluated))
      ensures state.order == old(state.order) + news
      ensures final.pushes == old(final.pushes) + Evaluated(q, db, dist, news)
      ensures tie <==> final.CoveringRadius() == old(final.CoveringRadius())
    {
      var prevcov := final.CoveringRadius();
      var items := beam.Items();
      ViewIdsBelow(resultView, beam.capacity, beam.pushes, |Vertices|);
      next, news := ExpandBeam(q, items, cap, final, state);
      EvaluatedIdsBelow(q, news);
      tie := final.CoveringRadius() == prevcov;
    }

    /** The body of the expansion loop before the tie rule: round `|ties0|`
        run from `beam`, extending the run `steps0`/`ties0`. `ord0` and `fp0`
        are the evaluation order and the push log of `final` when the loop
        began, `news0` the ids it has evaluated so far. */
    method Iterate(q: T, beam: Accumulator, beamsize: int, final: Accumulator, state: SearchState,
                   ghost ord0: seq<int>, ghost fp0: seq<Pair>, ghost news0: seq<int>,
                   ghost ties0: seq<bool>, ghost steps0: seq<Step>)
      returns (next: Accumulator, tie: bool, ghost news: seq<int>, ghost steps: seq<Step>)
      requires Valid() && state.Valid() && AllBelow(state.order, |Vertices|)
      requires beam.view == resultView && IdsBelow(beam.pushes, |Vertices|)
      requires state.order == ord0 + news0 && AllBelow(news0, |Vertices|)
      requires final.pushes == fp0 + Evaluated(q, db, dist, news0)
      requires Rounds(q, steps0, ties0, beamsize, final)
      requires steps0[|ties0|] == Step(beam.Items(), state.evaluated, final.pushes)
      modifies final, state
      ensures fresh(next) && next.view == resultView && IdsBelow(next.pushes, |Vertices|)
      ensures state.Valid() && AllBelow(state.order, |Vertices|)
      ensures state.order == ord0 + news && AllBelow(news, |Vertices|)
      ensures final.pushes == fp0 + Evaluated(q, db, dist, news)
      ensures steps == steps0 + [Step(next.Items(), state.evaluated, final.pushes)]
      ensures Rounds(q, steps, ties0 + [tie], beamsize, final)
    {
      ghost var more;
      next, tie, more := Round(q, beam, beamsize, final, state);
      steps := steps0 + [Step(next.Items(), state.evaluated, final.pushes)];
      RoundsSnoc(q, steps0, ties0, beamsize, final, Step(next.Items(), state.evaluated, final.pushes), tie);
      EvaluatedAppend(q, db, dist, news0, more);
      AllBelowAppend(news0, more, |Vertices|);
      news := news0 + more;
      assert ord0 + news == (ord0 + news0) + more;
      assert fp0 + Evaluated(q, db, dist, news) == (fp0 + Evaluated(q, db, dist, news0)) + Evaluated(q, db, dist, more);
    }

    /** The expansion loop of `SearchKNN`: at most `RepeatSearch` rounds,
        each expanding the beam into one of capacity `beamsize`, ending after
        the second consecutive round that leaves the covering radius of
        `final` unchanged. `steps` are the states between the rounds and
        `ties[i]` records whether round i was such a tie. */
    method ExpandLoop(q: T, seed: Accumulator, beamsize: int, final: Accumulator, state: SearchState)
      returns (ghost news: seq<int>, ghost ties: seq<bool>, ghost steps: seq<Step>)
      requires Valid() && state.Valid() && AllBelow(state.order, |Vertices|)
      requires seed.view == resultView && IdsBelow(seed.pushes, |Vertices|)
      modifies final, state
      ensures state.Valid() && state.order == old(state.order) + news && AllBelow(news, |Vertices|)
      ensures final.pushes == old(final.pushes) + Evaluated(q, db, dist, news)
      ensures |steps| == |ties| + 1 && steps[0] == Step(old(seed.Items()), old(state.evaluated), old(final.pushes))
      ensures Rounds(q, steps, ties, beamsize, final)
      ensures steps[|ties|].seen == state.evaluated && steps[|ties|].log == final.pushes
      ensures |ties| <= RepeatSearch || ties == []
      ensures StopsAfterTwoTies(ties, RepeatSearch)
    {
      var beam := seed;
      var countTies := 0;
      news := [];
      ties := [];
      steps := [Step(seed.Items(), state.evaluated, final.pushes)];
      var i := 0;
      while i < RepeatSearch
        invariant 0 <= i && |ties| == i && (i <= RepeatSearch || i == 0)
        invariant state.Valid() && AllBelow(state.order, |Vertices|)
        invariant state.order == old(state.order) + news && AllBelow(news, |Vertices|)
        invariant beam.view == resultView && IdsBelow(beam.pushes, |Vertices|)
        invariant final.pushes == old(final.pushes) + Evaluated(q, db, dist, news)
        invariant |steps| == i + 1 && steps[0] == Step(old(seed.Items()), old(state.evaluated), old(final.pushes))
        invariant Rounds(q, steps, ties, beamsize, final)
        invariant steps[i] == Step(beam.Items(), state.evaluated, final.pushes)
        invariant forall j :: 0 <= j < i - 1 ==> !(ties[j] && ties[j + 1])
        invariant countTies == if 0 < i && ties[i - 1] then 1 else 0
      {
        var next, tie;
        next, tie, news, steps := Iterate(q, beam, beamsize, final, state, old(state.order), old(final.pushes),
                                          news, ties, steps);
        assert forall j :: 0 <= j < i ==> (ties + [tie])[j] == ties[j];
        ties := ties + [tie];
        if tie {
          if countTies == 1 {
            break;
          }
          countTies := countTies + 1;
        } else {
          countTies := 0;
        }
        beam := next;
        i := i + 1;
      }
    }

    /** `SearchKNN`: seed a beam, then expand it at most `RepeatSearch`
        times, stopping after the second consecutive expansion that leaves
        the covering radius of `final` unchanged. `K` is not used: `final`
        decides how many neighbours are kept.

        Ghost results: `order` lists the evaluated ids in evaluation order
        and `evaluated` is their set; `steps` are the states the search
        passed through (the seeded state, then one per expansion) and
        `ties[i]` records whether expansion i left the covering radius
        unchanged. */
    method SearchKNN(q: T, K: int, final: Accumulator)
      returns (r: Accumulator, ghost order: seq<int>, ghost evaluated: set<int>,
               ghost ties: seq<bool>, ghost steps: seq<Step>)
      requires Valid() && RandomReady()
      modifies final, rand
      ensures r == final
      ensures NoDup(order) && AllBelow(order, |Vertices|)
      ensures final.pushes == old(final.pushes) + Evaluated(q, db, dist, order)
      ensures evaluated == Elems(order) && |evaluated| == |order|
      ensures |Vertices| == 0 ==> final.pushes == old(final.pushes)
      ensures |steps| == |ties| + 1 && steps[0] == Seeded(q, old(rand.draws)[..SampleSize()], {}, old(final.pushes))
      ensures Rounds(q, steps, ties, |steps[0].beam|, final)
      ensures steps[|ties|].seen == evaluated && steps[|ties|].log == final.pushes
      ensures |ties| <= RepeatSearch || ties == []
      ensures StopsAfterTwoTies(ties, RepeatSearch)
    {
      var state := new SearchState();
      order, ties, steps := Run(q, final, state);
      r := final;
      evaluated := state.evaluated;
      state.Distinct();
      if |Vertices| == 0 {
        assert order == [];
      }
    }

    /** The search proper, on a fresh evaluated set. */
    method Run(q: T, final: Accumulator, state: SearchState)
      returns (ghost order: seq<int>, ghost ties: seq<bool>, ghost steps: seq<Step>)
      requires Valid() && RandomReady() && state.Valid() && state.order == [] && state.evaluated == {}
      modifies final, rand, state
      ensures state.Valid() && order == state.order && AllBelow(order, |Vertices|)
      ensures final.pushes == old(final.pushes) + Evaluated(q, db, dist, order)
      ensures |steps| == |ties| + 1 && steps[0] == Seeded(q, old(rand.draws)[..SampleSize()], {}, old(final.pushes))
      ensures Rounds(q, steps, ties, |steps[0].beam|, final)
      ensures steps[|ties|].seen == state.evaluated && steps[|ties|].log == final.pushes
      ensures |ties| <= RepeatSearch || ties == []
      ensures StopsAfterTwoTies(ties, RepeatSearch)
    {
      ghost var start := Seeded(q, rand.draws[..SampleSize()], {}, final.pushes);
      var beam, seeded := FirstBeam(q, final, state);
      assert Step(beam.Items(), state.evaluated, final.pushes) == start;
      var beamsize := beam.Count();
      EvaluatedIdsBelow(q, seeded);
      ghost var expanded;
      expanded, ties, steps := ExpandLoop(q, beam, beamsize, final, state);
      assert steps[0] == start;
      assert state.order == seeded + expanded;
      EvaluatedAppend(q, db, dist, seeded, expanded);
      order := state.order;
    }
  }
}
