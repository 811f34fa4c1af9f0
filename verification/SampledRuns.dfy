/** Maximal runs of equal categories along an ordered strength sequence. */
module SampledRuns {
  import opened Basics

  datatype Run = Run(category: int, count: nat, first: real, last: real, preceding: Option<real>,
                     following: Option<real>)

  /** Matched, nonempty and strictly ordered. */
  predicate Ordered(alphas: seq<real>, categories: seq<int>) {
    |alphas| == |categories| && alphas != [] && forall i :: 0 <= i < |alphas| - 1 ==> Precedes(alphas, i)
  }

  predicate Precedes(alphas: seq<real>, i: nat)
    requires i + 1 < |alphas|
  {
    alphas[i] < alphas[i + 1]
  }

  /** A run from start to stop that cannot be extended on either side. */
  predicate RunAt(alphas: seq<real>, categories: seq<int>, start: nat, stop: nat, run: Run)
    requires start < stop <= |alphas| == |categories|
  {
    && run.count == stop - start
    && (forall i :: start <= i < stop ==> categories[i] == run.category)
    && (start > 0 ==> categories[start - 1] != run.category)
    && (stop < |categories| ==> categories[stop] != run.category)
    && run.first == alphas[start] && run.last == alphas[stop - 1]
    && run.preceding == (if start == 0 then None else Some(alphas[start - 1]))
    && run.following == (if stop == |alphas| then None else Some(alphas[stop]))
  }

  /** The runs fill the samples up to stop. */
  predicate Fills(alphas: seq<real>, categories: seq<int>, runs: seq<Run>, stop: nat)
    requires stop <= |alphas| == |categories|
  {
    if runs == [] then stop == 0
    else
      var last := runs[|runs| - 1];
      && 0 < last.count <= stop && RunAt(alphas, categories, stop - last.count, stop, last)
      && Fills(alphas, categories, runs[..|runs| - 1], stop - last.count)
  }

  function Repeated(category: int, count: nat): seq<int> { seq(count, _ => category) }

  /** The categories that a list of runs stands for. */
  function Expand(runs: seq<Run>): seq<int> {
    if runs == [] then []
    else Expand(runs[..|runs| - 1]) + Repeated(runs[|runs| - 1].category, runs[|runs| - 1].count)
  }

  /** Expanding the runs gives the categories back. */
  lemma {:induction false} RunsExpand(alphas: seq<real>, categories: seq<int>, runs: seq<Run>, stop: nat)
    requires stop <= |alphas| == |categories| && Fills(alphas, categories, runs, stop)
    ensures Expand(runs) == categories[..stop]
  {
    if runs == [] {
    } else {
      var last := runs[|runs| - 1];
      RunsExpand(alphas, categories, runs[..|runs| - 1], stop - last.count);
      assert categories[..stop] == categories[..stop - last.count] + Repeated(last.category, last.count);
    }
  }

  /** A run ending at stop has only one possible start. */
  lemma SameStart(alphas: seq<real>, categories: seq<int>, stop: nat, a: Run, b: Run)
    requires stop <= |alphas| == |categories| && 0 < a.count <= stop && 0 < b.count <= stop
    requires RunAt(alphas, categories, stop - a.count, stop, a) && RunAt(alphas, categories, stop - b.count, stop, b)
    ensures a == b
  {
    assert categories[stop - 1] == a.category == b.category;
  }

  /** There is only one way to divide a sequence into maximal runs. */
  lemma {:induction false} RunsUnique(alphas: seq<real>, categories: seq<int>, a: seq<Run>, b: seq<Run>, stop: nat)
    requires stop <= |alphas| == |categories| && Fills(alphas, categories, a, stop)
      && Fills(alphas, categories, b, stop)
    ensures a == b
    decreases stop
  {
    if a == [] || b == [] {
    } else {
      var x, y := a[|a| - 1], b[|b| - 1];
      SameStart(alphas, categories, stop, x, y);
      RunsUnique(alphas, categories, a[..|a| - 1], b[..|b| - 1], stop - x.count);
      assert a == a[..|a| - 1] + [x] && b == b[..|b| - 1] + [x];
    }
  }

  lemma LastRunEnds(alphas: seq<real>, categories: seq<int>, runs: seq<Run>, stop: nat)
    requires stop <= |alphas| == |categories| && Fills(alphas, categories, runs, stop)
    ensures runs != [] ==> stop > 0 && runs[|runs| - 1].last == alphas[stop - 1]
    ensures runs == [] <==> stop == 0
  {
  }

  /** The first run starts at the first sample, and has none before it. */
  lemma {:induction false} FirstRunStarts(alphas: seq<real>, categories: seq<int>, runs: seq<Run>, stop: nat)
    requires stop <= |alphas| == |categories| && Fills(alphas, categories, runs, stop) && runs != []
    ensures stop > 0 && runs[0].first == alphas[0] && runs[0].preceding.None?
  {
    if |runs| == 1 {
      assert Fills(alphas, categories, runs[..0], stop - runs[0].count);
    } else {
      FirstRunStarts(alphas, categories, runs[..|runs| - 1], stop - runs[|runs| - 1].count);
    }
  }

  /** Each run has the last sample of the run before it and the first of the run after it as its neighbours. */
  lemma {:induction false} NeighbouringRuns(alphas: seq<real>, categories: seq<int>, runs: seq<Run>, stop: nat, i: nat)
    requires stop <= |alphas| == |categories| && Fills(alphas, categories, runs, stop) && i + 1 < |runs|
    ensures runs[i].following == Some(runs[i + 1].first) && runs[i + 1].preceding == Some(runs[i].last)
    ensures runs[i].category != runs[i + 1].category
  {
    var front, last := runs[..|runs| - 1], runs[|runs| - 1];
    if i + 2 < |runs| {
      NeighbouringRuns(alphas, categories, front, stop - last.count, i);
    } else {
      LastRunEnds(alphas, categories, front, stop - last.count);
      assert front[|front| - 1] == runs[i];
      assert categories[stop - last.count] == last.category;
    }
  }

  /** All maximal runs of an ordered sequence; anything else is refused. */
  method AllRuns(alphas: seq<real>, categories: seq<int>) returns (result: Option<seq<Run>>)
    ensures result.Some? <==> Ordered(alphas, categories)
    ensures result.Some? ==> Fills(alphas, categories, result.value, |alphas|)
  {
    if |alphas| != |categories| || alphas == [] || exists i :: 0 <= i < |alphas| - 1 && !Precedes(alphas, i) {
      return None;
    }
    var runs: seq<Run> := [];
    var start, stop := 0, 1;
    while stop <= |alphas|
      invariant 1 <= stop <= |alphas| + 1
      invariant if stop == |alphas| + 1 then start == |alphas| else start < stop
      invariant forall i :: start <= i < stop && i < |alphas| ==> categories[i] == categories[start]
      invariant 0 < start < |alphas| ==> categories[start - 1] != categories[start]
      invariant Fills(alphas, categories, runs, start)
    {
      if stop < |alphas| && categories[stop] == categories[start] {
        stop := stop + 1;
        continue;
      }
      var run := Run(categories[start], stop - start, alphas[start], alphas[stop - 1],
                     if start == 0 then None else Some(alphas[start - 1]),
                     if stop == |alphas| then None else Some(alphas[stop]));
      assert RunAt(alphas, categories, start, stop, run);
      assert (runs + [run])[..|runs|] == runs;
      runs := runs + [run];
      start := stop;
      stop := stop + 1;
    }
    result := Some(runs);
  }
}
