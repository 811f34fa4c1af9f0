/** The three sparse graph families, built in batches, against their all-pairs definitions. */
module SparseGraphs {
  import opened Basics
  import opened SparseNeighbours
  import opened SparseEdges

  const MAX_SHARED_PRODUCTS := 500_000_000
  const MAX_BATCH_SHARED_PRODUCTS := 2_000_000

  type Neighbours = seq<seq<int>>

  /** A directed neighbour table: every row names other rows, each once. */
  ghost predicate Table(neighbours: Neighbours) {
    forall row :: 0 <= row < |neighbours| ==> TableRow(|neighbours|, neighbours[row], row)
  }

  ghost predicate TableRow(count: nat, list: seq<int>, row: int) {
    && (forall t :: 0 <= t < |list| ==> 0 <= list[t] < count && list[t] != row)
    && (forall s, t :: 0 <= s < t < |list| ==> list[s] != list[t])
  }

  /** A stored row of the neighbour search is a row of a neighbour table. */
  lemma StoredRowIsTableRow(distance: Distance, count: nat, row: int, ids: set<int>, k: nat, stored: seq<int>,
                            fourth: real)
    requires RowOf(distance, row, ids, k, stored, fourth) && ids <= Others(count, row)
    ensures |stored| == k && TableRow(count, stored, row)
  {
    var list :|
      && RankedListOf(distance, row, list, ids) && |list| >= Max(k, 4)
      && stored == list[..k] && fourth == distance(row, list[3]);
    forall t | 0 <= t < |stored|
      ensures stored[t] in ids
    {
      assert list[t] in list;
    }
    forall s, t | 0 <= s < t < |stored|
      ensures stored[s] != stored[t]
    {
      assert Nearer(distance, row, list[s], list[t]);
    }
  }

  // ----- All-pairs definitions -----

  predicate Mutual(neighbours: Neighbours, i: int, j: int) {
    0 <= i < |neighbours| && 0 <= j < |neighbours| && j in neighbours[i] && i in neighbours[j]
  }

  function MutualPairs(neighbours: Neighbours): set<Edge> {
    set i, j | 0 <= i < |neighbours| && 0 <= j < |neighbours| && i < j && Mutual(neighbours, i, j) :: (i, j)
  }

  predicate Within(distance: Distance, radius: real, i: int, j: int) { distance(i, j) <= radius }

  /** Pairs at most the radius apart whose smaller row lies in the given range. */
  function RadiusPairs(distance: Distance, radius: real, count: nat, lo: int, hi: int): set<Edge> {
    set i, j | lo <= i < hi && 0 <= j < count && i < j && Within(distance, radius, i, j) :: (i, j)
  }

  /** The rows that both rows name. */
  function Common(neighbours: Neighbours, i: int, j: int): set<int> {
    set m | 0 <= i < |neighbours| && 0 <= j < |neighbours| && m in neighbours[i] && m in neighbours[j]
  }

  predicate Shares(neighbours: Neighbours, least: nat, i: int, j: int) { |Common(neighbours, i, j)| >= least }

  function SharedPairs(neighbours: Neighbours, least: nat, lo: int, hi: int): set<Edge> {
    set i, j | lo <= i < hi && 0 <= j < |neighbours| && i < j && Shares(neighbours, least, i, j) :: (i, j)
  }

  // ----- The directed table as a sparse matrix -----

  function Occurrences(list: seq<int>, m: int): nat {
    if list == [] then 0 else Occurrences(list[..|list| - 1], m) + Bit(list[|list| - 1] == m)
  }

  lemma {:induction false} OccursIffNamed(list: seq<int>, m: int)
    ensures Occurrences(list, m) > 0 <==> m in list
  {
    if list == [] {
    } else {
      var last := |list| - 1;
      OccursIffNamed(list[..last], m);
      assert list == list[..last] + [list[last]];
    }
  }

  lemma {:induction false} OccursOnce(list: seq<int>, m: int)
    requires forall s, t :: 0 <= s < t < |list| ==> list[s] != list[t]
    ensures Occurrences(list, m) == Bit(m in list)
  {
    if list == [] {
    } else {
      var last := |list| - 1;
      OccursOnce(list[..last], m);
      OccursIffNamed(list, m);
    }
  }

  /** The entry of the directed matrix: a one is stored each time the row names the column. */
  function Entry(neighbours: Neighbours, i: nat, j: int): nat
    requires i < |neighbours|
  {
    Occurrences(neighbours[i], j)
  }

  // ----- Mutual neighbours -----

  /** The entry of the matrix multiplied, entry by entry, by its transpose. */
  function SymmetricEntry(neighbours: Neighbours, i: nat, j: nat): nat
    requires i < |neighbours| && j < |neighbours|
  {
    Entry(neighbours, i, j) * Entry(neighbours, j, i)
  }

  /** Where that matrix is not zero above the diagonal. */
  function UpperEntries(neighbours: Neighbours): set<Edge> {
    set i: nat, j: nat | i < |neighbours| && j < |neighbours| && i < j
      && SymmetricEntry(neighbours, i, j) != 0 :: (i, j)
  }

  lemma ProductNonzero(a: nat, b: nat)
    ensures a * b != 0 <==> a > 0 && b > 0
  {
  }

  /** An entry survives the multiplication exactly when both rows name each other. */
  lemma SymmetricIffMutual(neighbours: Neighbours, i: nat, j: nat)
    requires i < |neighbours| && j < |neighbours|
    ensures SymmetricEntry(neighbours, i, j) != 0 <==> Mutual(neighbours, i, j)
  {
    OccursIffNamed(neighbours[i], j);
    OccursIffNamed(neighbours[j], i);
    ProductNonzero(Entry(neighbours, i, j), Entry(neighbours, j, i));
  }

  lemma UpperEntriesExact(neighbours: Neighbours)
    ensures UpperEntries(neighbours) == MutualPairs(neighbours)
  {
    forall i: nat, j: nat | i < |neighbours| && j < |neighbours|
      ensures SymmetricEntry(neighbours, i, j) != 0 <==> Mutual(neighbours, i, j)
    {
      SymmetricIffMutual(neighbours, i, j);
    }
  }

  /** The mutual family: the stored entries above the diagonal are exactly the pairs that name each other. */
  method MutualEdges(neighbours: Neighbours) returns (outcome: Outcome<seq<Edge>>)
    ensures outcome.Done? <==> 2 * |MutualPairs(neighbours)| <= MAX_GRAPH_NNZ
    ensures outcome.Done? ==> EdgeList(|neighbours|, outcome.value, MutualPairs(neighbours))
    ensures outcome.Failed? ==> outcome.error == Budget
  {
    var block := AnyOrder(UpperEntries(neighbours));
    UpperEntriesExact(neighbours);
    assert Flat([block]) == block by {
      AppendBlock([], block);
      assert [] + [block] == [block] && Flat([]) + block == block;
    }
    outcome := EdgeArrays([block], |neighbours|, MutualPairs(neighbours));
  }

  // ----- Fixed radius -----

  lemma RadiusPairsSplit(distance: Distance, radius: real, count: nat, lo: int, mid: int, hi: int)
    requires lo <= mid <= hi
    ensures RadiusPairs(distance, radius, count, lo, hi) ==
      RadiusPairs(distance, radius, count, lo, mid) + RadiusPairs(distance, radius, count, mid, hi)
    ensures RadiusPairs(distance, radius, count, lo, mid) !! RadiusPairs(distance, radius, count, mid, hi)
  {
  }

  /** The kept candidates of one row. */
  function Kept(distance: Distance, radius: real, row: int, proposed: set<int>): set<Edge> {
    set id | id in proposed && id > row && Within(distance, radius, row, id) :: (row, id)
  }

  /** Candidates of a row that lie in range and miss nothing within the radius. */
  ghost predicate Encloses(distance: Distance, radius: real, count: nat, row: int, proposed: set<int>) {
    && (forall id :: id in proposed ==> 0 <= id < count)
    && (forall id :: 0 <= id < count && Within(distance, radius, row, id) ==> id in proposed)
  }

  lemma KeptExact(distance: Distance, radius: real, count: nat, row: nat, proposed: set<int>)
    requires Encloses(distance, radius, count, row, proposed)
    ensures Kept(distance, radius, row, proposed) == RadiusPairs(distance, radius, count, row, row + 1)
  {
  }

  ghost predicate AllEnclose(distance: Distance, radius: real, candidates: seq<set<int>>) {
    forall row :: 0 <= row < |candidates| ==> Encloses(distance, radius, |candidates|, row, candidates[row])
  }

  /** The radius edges of one batch of rows. */
  method RadiusBatch(distance: Distance, radius: real, candidates: seq<set<int>>, start: nat, end: nat)
    returns (edges: seq<Edge>)
    requires AllEnclose(distance, radius, candidates) && start <= end <= |candidates|
    ensures Listed(edges, RadiusPairs(distance, radius, |candidates|, start, end))
  {
    edges := [];
    var row := start;
    while row < end
      invariant start <= row <= end
      invariant Listed(edges, RadiusPairs(distance, radius, |candidates|, start, row))
    {
      var found := AnyOrder(Kept(distance, radius, row, candidates[row]));
      KeptExact(distance, radius, |candidates|, row, candidates[row]);
      RadiusPairsSplit(distance, radius, |candidates|, start, row, row + 1);
      JoinListed(edges, found, RadiusPairs(distance, radius, |candidates|, start, row),
                 RadiusPairs(distance, radius, |candidates|, row, row + 1));
      edges := edges + found;
      row := row + 1;
    }
  }

  /** The blocks after a batch: an empty batch adds none. */
  function Appended(blocks: seq<seq<Edge>>, block: seq<Edge>): seq<seq<Edge>> {
    if block == [] then blocks else blocks + [block]
  }

  /** A batch of further edges is listed after the blocks so far. */
  lemma AddBlock(blocks: seq<seq<Edge>>, block: seq<Edge>, before: set<Edge>, here: set<Edge>)
    requires Listed(Flat(blocks), before) && Listed(block, here) && before !! here
    ensures Listed(Flat(Appended(blocks, block)), before + here)
    ensures |before + here| == |before| + |block|
  {
    AppendBlock(blocks, block);
    JoinListed(Flat(blocks), block, before, here);
    ListedSize(block, here);
    assert block == [] ==> Flat(blocks) + block == Flat(blocks);
  }

  lemma FewerEdges(some: set<Edge>, all: set<Edge>)
    requires some <= all
    ensures |some| <= |all|
  {
    assert all == some + (all - some);
  }

  lemma RadiusStep(distance: Distance, radius: real, count: nat, blocks: seq<seq<Edge>>, edges: seq<Edge>, start: nat,
                   end: nat)
    requires start <= end <= count
    requires Listed(Flat(blocks), RadiusPairs(distance, radius, count, 0, start))
    requires Listed(edges, RadiusPairs(distance, radius, count, start, end))
    ensures Listed(Flat(Appended(blocks, edges)), RadiusPairs(distance, radius, count, 0, end))
    ensures |RadiusPairs(distance, radius, count, 0, end)| == |RadiusPairs(distance, radius, count, 0, start)| + |edges|
    ensures |RadiusPairs(distance, radius, count, 0, end)| <= |RadiusPairs(distance, radius, count, 0, count)|
  {
    RadiusPairsSplit(distance, radius, count, 0, start, end);
    RadiusPairsSplit(distance, radius, count, 0, end, count);
    AddBlock(blocks, edges, RadiusPairs(distance, radius, count, 0, start),
             RadiusPairs(distance, radius, count, start, end));
    FewerEdges(RadiusPairs(distance, radius, count, 0, end), RadiusPairs(distance, radius, count, 0, count));
  }

  /** The fixed-radius family: all pairs at most the radius apart, for any batch size. */
  method RadiusEdges(distance: Distance, radius: real, candidates: seq<set<int>>, batch: nat)
    returns (outcome: Outcome<seq<Edge>>)
    requires batch >= 1 && AllEnclose(distance, radius, candidates)
    ensures var pairs := RadiusPairs(distance, radius, |candidates|, 0, |candidates|);
      && (outcome.Done? <==> WithinBudget(candidates, batch) && 2 * |pairs| <= MAX_GRAPH_NNZ)
      && (outcome.Done? ==> EdgeList(|candidates|, outcome.value, pairs))
      && (outcome.Failed? ==> outcome.error == Budget)
  {
    var count := |candidates|;
    if TotalCount(candidates, 0, count) > MAX_TOTAL_QUERY_CANDIDATES {
      return Failed(Budget);
    }
    ghost var pairs := RadiusPairs(distance, radius, count, 0, count);
    var blocks: seq<seq<Edge>> := [];
    var edgeCount := 0;
    var start := 0;
    while start < count
      invariant BatchesWithin(candidates, batch, 0) <==> BatchesWithin(candidates, batch, start)
      invariant Listed(Flat(blocks), RadiusPairs(distance, radius, count, 0, Min(start, count)))
      invariant edgeCount == |RadiusPairs(distance, radius, count, 0, Min(start, count))|
      decreases count - start
    {
      var end := Min(start + batch, count);
      if TotalCount(candidates, start, end) > MAX_BATCH_QUERY_CANDIDATES {
        return Failed(Budget);
      }
      var edges := RadiusBatch(distance, radius, candidates, start, end);
      RadiusStep(distance, radius, count, blocks, edges, start, end);
      edgeCount := edgeCount + |edges|;
      if edgeCount * 2 > MAX_GRAPH_NNZ {
        return Failed(Budget);
      }
      blocks := Appended(blocks, edges);
      start := start + batch;
    }
    outcome := EdgeArrays(blocks, count, pairs);
  }

  // ----- Shared neighbours -----

  /** One entry of the directed table times its transpose, summed over the first columns. */
  function ProductEntry(neighbours: Neighbours, i: nat, j: nat, columns: nat): nat
    requires i < |neighbours| && j < |neighbours|
  {
    if columns == 0 then 0
    else
      ProductEntry(neighbours, i, j, columns - 1)
      + Entry(neighbours, i, columns - 1) * Entry(neighbours, j, columns - 1)
  }

  ghost function CommonBelow(neighbours: Neighbours, i: nat, j: nat, columns: nat): set<int>
    requires i < |neighbours| && j < |neighbours|
  {
    set m | m in neighbours[i] && m in neighbours[j] && 0 <= m < columns
  }

  lemma CommonBelowNext(neighbours: Neighbours, i: nat, j: nat, m: nat)
    requires i < |neighbours| && j < |neighbours|
    ensures |CommonBelow(neighbours, i, j, m + 1)| ==
      |CommonBelow(neighbours, i, j, m)| + Bit(m in neighbours[i] && m in neighbours[j])
  {
    var before := CommonBelow(neighbours, i, j, m);
    if m in neighbours[i] && m in neighbours[j] {
      assert CommonBelow(neighbours, i, j, m + 1) == before + {m};
    } else {
      assert CommonBelow(neighbours, i, j, m + 1) == before;
    }
  }

  /** In a neighbour table a row names a column at most once, so a term of the product is one or zero. */
  lemma ProductTerm(neighbours: Neighbours, i: nat, j: nat, m: nat)
    requires Table(neighbours) && i < |neighbours| && j < |neighbours|
    ensures Entry(neighbours, i, m) * Entry(neighbours, j, m) == Bit(m in neighbours[i] && m in neighbours[j])
  {
    assert TableRow(|neighbours|, neighbours[i], i) && TableRow(|neighbours|, neighbours[j], j);
    OccursOnce(neighbours[i], m);
    OccursOnce(neighbours[j], m);
  }

  lemma {:induction false} ProductCountsBelow(neighbours: Neighbours, i: nat, j: nat, columns: nat)
    requires Table(neighbours) && i < |neighbours| && j < |neighbours|
    ensures ProductEntry(neighbours, i, j, columns) == |CommonBelow(neighbours, i, j, columns)|
  {
    if columns == 0 {
      assert CommonBelow(neighbours, i, j, 0) == {};
    } else {
      ProductCountsBelow(neighbours, i, j, columns - 1);
      ProductTerm(neighbours, i, j, columns - 1);
      CommonBelowNext(neighbours, i, j, columns - 1);
    }
  }

  /** The sparse product counts common neighbours. */
  lemma ProductCountsCommon(neighbours: Neighbours, i: nat, j: nat)
    requires Table(neighbours) && i < |neighbours| && j < |neighbours|
    ensures ProductEntry(neighbours, i, j, |neighbours|) == |Common(neighbours, i, j)|
  {
    ProductCountsBelow(neighbours, i, j, |neighbours|);
    assert TableRow(|neighbours|, neighbours[i], i);
    assert Common(neighbours, i, j) == CommonBelow(neighbours, i, j, |neighbours|);
  }

  /** The stored entries of a batch of the product that are kept: large enough and above the diagonal. */
  function KeptEntries(neighbours: Neighbours, least: nat, lo: nat, hi: nat): set<Edge>
    requires lo <= hi <= |neighbours|
  {
    set i: nat, j: nat | i < hi && j < |neighbours| && lo <= i && ProductEntry(neighbours, i, j, |neighbours|) != 0
      && ProductEntry(neighbours, i, j, |neighbours|) >= least && i < j :: (i, j)
  }

  /** Every pair with enough common neighbours has a stored entry. */
  lemma KeptEntriesExact(neighbours: Neighbours, least: nat, lo: nat, hi: nat)
    requires Table(neighbours) && lo <= hi <= |neighbours| && least >= 1
    ensures KeptEntries(neighbours, least, lo, hi) == SharedPairs(neighbours, least, lo, hi)
  {
    forall i, j | lo <= i < hi && 0 <= j < |neighbours|
      ensures ProductEntry(neighbours, i, j, |neighbours|) == |Common(neighbours, i, j)|
    {
      ProductCountsCommon(neighbours, i, j);
    }
  }

  lemma SharedStep(neighbours: Neighbours, least: nat, blocks: seq<seq<Edge>>, edges: seq<Edge>, start: nat, end: nat)
    requires start <= end <= |neighbours|
    requires Listed(Flat(blocks), SharedPairs(neighbours, least, 0, start))
    requires Listed(edges, SharedPairs(neighbours, least, start, end))
    ensures Listed(Flat(Appended(blocks, edges)), SharedPairs(neighbours, least, 0, end))
    ensures |SharedPairs(neighbours, least, 0, end)| == |SharedPairs(neighbours, least, 0, start)| + |edges|
    ensures |SharedPairs(neighbours, least, 0, end)| <= |SharedPairs(neighbours, least, 0, |neighbours|)|
  {
    SharedPairsSplit(neighbours, least, 0, start, end);
    SharedPairsSplit(neighbours, least, 0, end, |neighbours|);
    AddBlock(blocks, edges, SharedPairs(neighbours, least, 0, start), SharedPairs(neighbours, least, start, end));
    FewerEdges(SharedPairs(neighbours, least, 0, end), SharedPairs(neighbours, least, 0, |neighbours|));
  }

  /** The budgets of the shared-neighbour family: squared in-degrees in all, and products batch by batch. */
  predicate SharedBudget(neighbours: Neighbours, weight: seq<nat>, batch: nat)
    requires batch > 0
  {
    SquaresBelow(weight, |weight|) <= MAX_SHARED_PRODUCTS && ProductsWithin(neighbours, weight, batch, 0)
  }

  /** The shared-neighbour family: all pairs with enough common neighbours, for any batch size. */
  method SharedEdges(neighbours: Neighbours, weight: seq<nat>, least: nat, batch: nat)
    returns (outcome: Outcome<seq<Edge>>)
    requires batch >= 1 && least >= 1 && Table(neighbours) && IsIndegree(neighbours, weight)
    ensures var pairs := SharedPairs(neighbours, least, 0, |neighbours|);
      && (outcome.Done? <==> SharedBudget(neighbours, weight, batch) && 2 * |pairs| <= MAX_GRAPH_NNZ)
      && (outcome.Done? ==> EdgeList(|neighbours|, outcome.value, pairs))
      && (outcome.Failed? ==> outcome.error == Budget)
  {
    var count := |neighbours|;
    if SquaresBelow(weight, |weight|) > MAX_SHARED_PRODUCTS {
      return Failed(Budget);
    }
    var blocks: seq<seq<Edge>> := [];
    var edgeCount := 0;
    var start := 0;
    while start < count
      invariant ProductsWithin(neighbours, weight, batch, 0) <==> ProductsWithin(neighbours, weight, batch, start)
      invariant Listed(Flat(blocks), SharedPairs(neighbours, least, 0, Min(start, count)))
      invariant edgeCount == |SharedPairs(neighbours, least, 0, Min(start, count))|
      decreases count - start
    {
      var end := Min(start + batch, count);
      if ProductBound(neighbours, weight, start, end) > MAX_BATCH_SHARED_PRODUCTS {
        return Failed(Budget);
      }
      var edges := AnyOrder(KeptEntries(neighbours, least, start, end));
      KeptEntriesExact(neighbours, least, start, end);
      SharedStep(neighbours, least, blocks, edges, start, end);
      edgeCount := edgeCount + |edges|;
      if edgeCount * 2 > MAX_GRAPH_NNZ {
        return Failed(Budget);
      }
      blocks := Appended(blocks, edges);
      start := start + batch;
    }
    outcome := EdgeArrays(blocks, count, SharedPairs(neighbours, least, 0, count));
  }

  lemma SharedPairsSplit(neighbours: Neighbours, least: nat, lo: int, mid: int, hi: int)
    requires lo <= mid <= hi
    ensures SharedPairs(neighbours, least, lo, hi) ==
      SharedPairs(neighbours, least, lo, mid) + SharedPairs(neighbours, least, mid, hi)
    ensures SharedPairs(neighbours, least, lo, mid) !! SharedPairs(neighbours, least, mid, hi)
  {
  }

  // ----- Product bounds -----

  /** How many of the first rows name m, with repetition. */
  function Indegree(neighbours: Neighbours, m: int, rows: nat): nat
    requires rows <= |neighbours|
  {
    if rows == 0 then 0 else Indegree(neighbours, m, rows - 1) + Occurrences(neighbours[rows - 1], m)
  }

  /** The sum of the weights a list names. */
  function ListSum(list: seq<int>, weight: seq<nat>): nat {
    if list == [] then 0
    else ListSum(list[..|list| - 1], weight) +
         if 0 <= list[|list| - 1] < |weight| then weight[list[|list| - 1]] else 0
  }

  /** The product bound of a batch of rows. */
  function ProductBound(neighbours: Neighbours, weight: seq<nat>, lo: nat, hi: nat): nat
    requires lo <= hi <= |neighbours|
  {
    if lo == hi then 0 else ProductBound(neighbours, weight, lo, hi - 1) + ListSum(neighbours[hi - 1], weight)
  }

  predicate ProductsWithin(neighbours: Neighbours, weight: seq<nat>, batch: nat, start: nat)
    requires batch > 0
    decreases |neighbours| - start
  {
    start >= |neighbours|
    || (ProductBound(neighbours, weight, start, Min(start + batch, |neighbours|)) <= MAX_BATCH_SHARED_PRODUCTS
        && ProductsWithin(neighbours, weight, batch, start + batch))
  }

  /** The batch bounds from a row on, added up. */
  function BoundsTotal(neighbours: Neighbours, weight: seq<nat>, batch: nat, start: nat): nat
    requires batch > 0
    decreases |neighbours| - start
  {
    if start >= |neighbours| then 0
    else
      ProductBound(neighbours, weight, start, Min(start + batch, |neighbours|))
      + BoundsTotal(neighbours, weight, batch, start + batch)
  }

  function SquaresBelow(weight: seq<nat>, n: nat): nat
    requires n <= |weight|
  {
    if n == 0 then 0 else SquaresBelow(weight, n - 1) + weight[n - 1] * weight[n - 1]
  }

  /** Weights times the number of namings in the first rows. */
  function ColumnSum(neighbours: Neighbours, weight: seq<nat>, rows: nat, n: nat): nat
    requires rows <= |neighbours| && n <= |weight|
  {
    if n == 0 then 0 else ColumnSum(neighbours, weight, rows, n - 1) + weight[n - 1] * Indegree(neighbours, n - 1, rows)
  }

  function OccurrenceSum(list: seq<int>, weight: seq<nat>, n: nat): nat
    requires n <= |weight|
  {
    if n == 0 then 0 else OccurrenceSum(list, weight, n - 1) + weight[n - 1] * Occurrences(list, n - 1)
  }

  lemma {:induction false} OccurrenceSumAppend(list: seq<int>, x: int, weight: seq<nat>, n: nat)
    requires n <= |weight|
    ensures OccurrenceSum(list + [x], weight, n) == OccurrenceSum(list, weight, n) + if 0 <= x < n then weight[x] else 0
  {
    if n == 0 {
    } else {
      OccurrenceSumAppend(list, x, weight, n - 1);
      assert (list + [x])[..|list|] == list;
      assert Occurrences(list + [x], n - 1) == Occurrences(list, n - 1) + Bit(x == n - 1);
    }
  }

  lemma {:induction false} OccurrenceSumEmpty(weight: seq<nat>, n: nat)
    requires n <= |weight|
    ensures OccurrenceSum([], weight, n) == 0
  {
    if n == 0 {
    } else {
      OccurrenceSumEmpty(weight, n - 1);
    }
  }

  lemma {:induction false} ListSumByValue(list: seq<int>, weight: seq<nat>)
    ensures ListSum(list, weight) == OccurrenceSum(list, weight, |weight|)
  {
    if list == [] {
      OccurrenceSumEmpty(weight, |weight|);
    } else {
      var last := |list| - 1;
      ListSumByValue(list[..last], weight);
      OccurrenceSumAppend(list[..last], list[last], weight, |weight|);
      assert list == list[..last] + [list[last]];
    }
  }

  lemma {:induction false} ColumnSumNextRow(neighbours: Neighbours, weight: seq<nat>, rows: nat, n: nat)
    requires rows < |neighbours| && n <= |weight|
    ensures ColumnSum(neighbours, weight, rows + 1, n) ==
      ColumnSum(neighbours, weight, rows, n) + OccurrenceSum(neighbours[rows], weight, n)
  {
    if n == 0 {
    } else {
      ColumnSumNextRow(neighbours, weight, rows, n - 1);
      var before, here := Indegree(neighbours, n - 1, rows), Occurrences(neighbours[rows], n - 1);
      assert Indegree(neighbours, n - 1, rows + 1) == before + here;
      Distribute(weight[n - 1], before, here);
    }
  }

  lemma Distribute(w: int, a: int, b: int)
    ensures w * (a + b) == w * a + w * b
  {
  }

  lemma {:induction false} NoRows(neighbours: Neighbours, weight: seq<nat>, n: nat)
    requires n <= |weight|
    ensures ColumnSum(neighbours, weight, 0, n) == 0
  {
    if n == 0 {
    } else {
      NoRows(neighbours, weight, n - 1);
    }
  }

  lemma {:induction false} RowsByColumns(neighbours: Neighbours, weight: seq<nat>, rows: nat)
    requires rows <= |neighbours|
    ensures ProductBound(neighbours, weight, 0, rows) == ColumnSum(neighbours, weight, rows, |weight|)
  {
    if rows == 0 {
      NoRows(neighbours, weight, |weight|);
    } else {
      RowsByColumns(neighbours, weight, rows - 1);
      ColumnSumNextRow(neighbours, weight, rows - 1, |weight|);
      ListSumByValue(neighbours[rows - 1], weight);
    }
  }

  lemma {:induction false} ProductBoundSplit(neighbours: Neighbours, weight: seq<nat>, lo: nat, mid: nat, hi: nat)
    requires lo <= mid <= hi <= |neighbours|
    ensures ProductBound(neighbours, weight, lo, hi) ==
      ProductBound(neighbours, weight, lo, mid) + ProductBound(neighbours, weight, mid, hi)
    decreases hi - mid
  {
    if mid >= hi {
    } else {
      ProductBoundSplit(neighbours, weight, lo, mid, hi - 1);
    }
  }

  lemma {:induction false} BoundsAddUp(neighbours: Neighbours, weight: seq<nat>, batch: nat, start: nat)
    requires batch > 0 && start <= |neighbours|
    ensures BoundsTotal(neighbours, weight, batch, start) == ProductBound(neighbours, weight, start, |neighbours|)
    decreases |neighbours| - start
  {
    if start == |neighbours| {
    } else if start + batch >= |neighbours| {
      assert BoundsTotal(neighbours, weight, batch, start + batch) == 0;
    } else {
      BoundsAddUp(neighbours, weight, batch, start + batch);
      ProductBoundSplit(neighbours, weight, start, start + batch, |neighbours|);
    }
  }

  ghost predicate IsIndegree(neighbours: Neighbours, weight: seq<nat>) {
    |weight| == |neighbours| && forall m :: 0 <= m < |weight| ==> weight[m] == Indegree(neighbours, m, |neighbours|)
  }

  lemma {:induction false} ColumnsSquared(neighbours: Neighbours, weight: seq<nat>, n: nat)
    requires IsIndegree(neighbours, weight) && n <= |weight|
    ensures ColumnSum(neighbours, weight, |neighbours|, n) == SquaresBelow(weight, n)
  {
    if n == 0 {
    } else {
      ColumnsSquared(neighbours, weight, n - 1);
    }
  }

  /** For any batch size the batch bounds add up to the total of squared in-degrees that is checked in advance. */
  lemma BoundsTotalSquares(neighbours: Neighbours, weight: seq<nat>, batch: nat)
    requires batch > 0 && IsIndegree(neighbours, weight)
    ensures BoundsTotal(neighbours, weight, batch, 0) == SquaresBelow(weight, |weight|)
  {
    BoundsAddUp(neighbours, weight, batch, 0);
    RowsByColumns(neighbours, weight, |neighbours|);
    ColumnsSquared(neighbours, weight, |weight|);
  }
}
