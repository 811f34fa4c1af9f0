/** The three families together, from one neighbour search to edge lists, against the brute-force neighbour table. */
module SparseFamilies {
  import opened Basics
  import opened GraphReceipts
  import opened SortedSets
  import opened SparseNeighbours
  import opened SparseEdges
  import opened SparseGraphs

  // ----- The brute-force table -----

  /** A row's nearest other rows, and the distance of the fourth, with no search structure involved. */
  ghost predicate Nearest(distance: Distance, count: nat, k: nat, row: int, stored: seq<int>, fourth: real) {
    RowOf(distance, row, Others(count, row), k, stored, fourth)
  }

  /** The first rows of the brute-force table. */
  ghost predicate BruteRows(distance: Distance, count: nat, k: nat, table: Neighbours, fourth: seq<real>, rows: nat) {
    && |table| == |fourth| == rows
    && forall row :: 0 <= row < rows ==> Nearest(distance, count, k, row, table[row], fourth[row])
  }

  ghost predicate BruteForce(distance: Distance, count: nat, k: nat, table: Neighbours, fourth: seq<real>) {
    BruteRows(distance, count, k, table, fourth, count)
  }

  lemma BruteForceUnique(distance: Distance, count: nat, k: nat, a: Neighbours, fourthA: seq<real>, b: Neighbours,
                         fourthB: seq<real>)
    requires BruteForce(distance, count, k, a, fourthA) && BruteForce(distance, count, k, b, fourthB)
    ensures a == b && fourthA == fourthB
  {
    forall row | 0 <= row < count
      ensures a[row] == b[row] && fourthA[row] == fourthB[row]
    {
      assert Nearest(distance, count, k, row, a[row], fourthA[row])
        && Nearest(distance, count, k, row, b[row], fourthB[row]);
      RowDetermined(distance, row, Others(count, row), k, a[row], fourthA[row], b[row], fourthB[row]);
    }
  }

  lemma BruteForceIsTable(distance: Distance, count: nat, k: nat, table: Neighbours, fourth: seq<real>)
    requires BruteForce(distance, count, k, table, fourth)
    ensures Table(table)
  {
    forall row | 0 <= row < count
      ensures TableRow(count, table[row], row)
    {
      assert Nearest(distance, count, k, row, table[row], fourth[row]);
      StoredRowIsTableRow(distance, count, row, Others(count, row), k, table[row], fourth[row]);
    }
  }

  /** Candidates of every row are rows, and hold all within a radius that covers enough others. */
  ghost predicate AllCovering(distance: Distance, k: nat, candidates: seq<set<int>>) {
    forall row :: 0 <= row < |candidates| ==>
      && Covering(distance, |candidates|, row, candidates[row], Max(k, 4))
      && candidates[row] - {row} <= Others(|candidates|, row)
  }

  /** A table filled from covering candidates is the brute-force one. */
  lemma FilledIsBruteForce(distance: Distance, k: nat, candidates: seq<set<int>>, table: Neighbours, fourth: seq<real>)
    requires AllCovering(distance, k, candidates) && |table| == |fourth| == |candidates|
    requires Filled(distance, k, candidates, table, fourth, |candidates|)
    ensures BruteForce(distance, |candidates|, k, table, fourth)
  {
    forall row | 0 <= row < |candidates|
      ensures Nearest(distance, |candidates|, k, row, table[row], fourth[row])
    {
      assert RowFilled(distance, k, candidates, table, fourth, row);
      CoveredRowExact(distance, |candidates|, row, candidates[row], k, table[row], fourth[row]);
    }
  }

  lemma CoveringAreEnough(distance: Distance, k: nat, candidates: seq<set<int>>)
    requires AllCovering(distance, k, candidates)
    ensures AllEnough(candidates, k)
  {
    forall row | 0 <= row < |candidates|
      ensures EnoughCandidates(candidates, k, row)
    {
      CoveringIsEnough(distance, |candidates|, row, candidates[row], Max(k, 4));
    }
  }

  /** There are enough other rows. */
  ghost predicate HasRoom(count: nat, row: int, k: nat) { |Others(count, row)| >= Max(k, 4) }

  lemma NearestExists(distance: Distance, count: nat, k: nat, row: int) returns (stored: seq<int>, fourth: real)
    requires HasRoom(count, row, k)
    ensures Nearest(distance, count, k, row, stored, fourth)
  {
    var list := RankingExists(distance, row, Others(count, row));
    RankedSize(distance, row, list, Others(count, row));
    stored, fourth := list[..k], distance(row, list[3]);
  }

  lemma {:induction false} BruteRowsExist(distance: Distance, count: nat, k: nat, rows: nat)
    returns (table: Neighbours, fourth: seq<real>)
    requires forall row :: 0 <= row < rows ==> HasRoom(count, row, k)
    ensures BruteRows(distance, count, k, table, fourth, rows)
  {
    if rows == 0 {
      table, fourth := [], [];
    } else {
      table, fourth := BruteRowsExist(distance, count, k, rows - 1);
      table, fourth := NextRowExists(distance, count, k, table, fourth, rows - 1);
    }
  }

  lemma NextRow(distance: Distance, count: nat, k: nat, table: Neighbours, fourth: seq<real>, rows: nat,
                stored: seq<int>, fourthHere: real)
    requires BruteRows(distance, count, k, table, fourth, rows) && Nearest(distance, count, k, rows, stored, fourthHere)
    ensures BruteRows(distance, count, k, table + [stored], fourth + [fourthHere], rows + 1)
  {
    forall row | 0 <= row < rows + 1
      ensures Nearest(distance, count, k, row, (table + [stored])[row], (fourth + [fourthHere])[row])
    {
      assert row < rows ==> Nearest(distance, count, k, row, table[row], fourth[row]);
    }
  }

  lemma NextRowExists(distance: Distance, count: nat, k: nat, table: Neighbours, fourth: seq<real>, rows: nat)
    returns (table': Neighbours, fourth': seq<real>)
    requires BruteRows(distance, count, k, table, fourth, rows) && HasRoom(count, rows, k)
    ensures BruteRows(distance, count, k, table', fourth', rows + 1)
  {
    var stored, fourthHere := NearestExists(distance, count, k, rows);
    NextRow(distance, count, k, table, fourth, rows, stored, fourthHere);
    table', fourth' := table + [stored], fourth + [fourthHere];
  }

  /** Candidates that cover every row leave room for a brute-force table. */
  lemma CoveredTableExists(distance: Distance, k: nat, candidates: seq<set<int>>)
    returns (table: Neighbours, fourth: seq<real>)
    requires AllCovering(distance, k, candidates)
    ensures BruteForce(distance, |candidates|, k, table, fourth)
  {
    forall row | 0 <= row < |candidates|
      ensures HasRoom(|candidates|, row, k)
    {
      CoveringAreEnough(distance, k, candidates);
      assert EnoughCandidates(candidates, k, row);
      Subset(candidates[row] - {row}, Others(|candidates|, row));
    }
    table, fourth := BruteRowsExist(distance, |candidates|, k, |candidates|);
  }

  /** The neighbour search over covering candidates gives the brute-force table, unless a budget is exceeded. */
  method CoveredNeighbours(distance: Distance, k: nat, candidates: seq<set<int>>, batch: nat)
    returns (found: Outcome<(seq<seq<int>>, seq<real>)>)
    requires k >= 1 && batch >= 1 && AllCovering(distance, k, candidates)
    ensures found.Done? <==> WithinBudget(candidates, batch)
    ensures found.Done? ==>
      BruteForce(distance, |candidates|, k, found.value.0, found.value.1) && Table(found.value.0)
    ensures found.Failed? ==> found.error == Budget
  {
    CoveringAreEnough(distance, k, candidates);
    found := DirectedNeighbours(distance, k, candidates, batch);
    match found {
      case Done(value) =>
        FilledIsBruteForce(distance, k, candidates, value.0, value.1);
        BruteForceIsTable(distance, |candidates|, k, value.0, value.1);
      case Failed(error) =>
        assert error == Budget;
    }
  }

  // ----- The three families -----

  datatype Settings = Settings(k: nat, least: nat, multiplier: real, batch: nat)

  datatype Families = Families(mutual: seq<Edge>, radius: seq<Edge>, shared: seq<Edge>)

  datatype Built = Built(families: Families) | NoScale | OverBudget | NotCoveredRow

  function Indegrees(table: Neighbours): (weight: seq<nat>)
    ensures IsIndegree(table, weight)
  {
    seq(|table|, m requires 0 <= m < |table| => Indegree(table, m, |table|))
  }

  /** What the neighbour search and the radius search return, and the median of the fourth distances. */
  datatype Searches = Searches(nearest: seq<set<int>>, within: real -> seq<set<int>>, median: seq<real> -> real)

  /** The searches miss nothing they are asked for. */
  ghost predicate Complete(distance: Distance, settings: Settings, searches: Searches) {
    && AllCovering(distance, settings.k, searches.nearest)
    && forall radius ::
      && |searches.within(radius)| == |searches.nearest|
      && AllEnclose(distance, radius, searches.within(radius))
  }

  /** Every budget is kept. */
  ghost predicate Affordable(distance: Distance, settings: Settings, searches: Searches, table: Neighbours,
                             radius: real)
    requires settings.batch >= 1
  {
    && WithinBudget(searches.nearest, settings.batch) && WithinBudget(searches.within(radius), settings.batch)
    && SharedBudget(table, Indegrees(table), settings.batch)
    && 2 * |MutualPairs(table)| <= MAX_GRAPH_NNZ
    && 2 * |RadiusPairs(distance, radius, |table|, 0, |table|)| <= MAX_GRAPH_NNZ
    && 2 * |SharedPairs(table, settings.least, 0, |table|)| <= MAX_GRAPH_NNZ
  }

  /** The families of a neighbour table at a radius. */
  ghost predicate FamiliesOf(distance: Distance, settings: Settings, table: Neighbours, radius: real,
                             families: Families) {
    && EdgeList(|table|, families.mutual, MutualPairs(table))
    && EdgeList(|table|, families.radius, RadiusPairs(distance, radius, |table|, 0, |table|))
    && EdgeList(|table|, families.shared, SharedPairs(table, settings.least, 0, |table|))
  }

  /** The families of a neighbour table. */
  method BuildFrom(distance: Distance, settings: Settings, searches: Searches, neighbours: Neighbours, radius: real)
    returns (built: Built)
    requires settings.least >= 1 && settings.batch >= 1 && Complete(distance, settings, searches)
    requires Table(neighbours) && |neighbours| == |searches.nearest| && WithinBudget(searches.nearest, settings.batch)
    ensures built.Built? <==> Affordable(distance, settings, searches, neighbours, radius)
    ensures built.Built? ==> FamiliesOf(distance, settings, neighbours, radius, built.families)
    ensures built.Built? || built == OverBudget
  {
    var indegree := Indegrees(neighbours);
    if SquaresBelow(indegree, |indegree|) > MAX_SHARED_PRODUCTS {
      return OverBudget;
    }
    var mutual := MutualEdges(neighbours);
    if mutual.Failed? {
      return OverBudget;
    }
    var near := RadiusEdges(distance, radius, searches.within(radius), settings.batch);
    if near.Failed? {
      return OverBudget;
    }
    var shared := SharedEdges(neighbours, indegree, settings.least, settings.batch);
    if shared.Failed? {
      return OverBudget;
    }
    built := Built(Families(mutual.value, near.value, shared.value));
  }

  /** The radius: a multiple of the median distance of a row to its fourth neighbour. */
  function RadiusAt(settings: Settings, searches: Searches, fourth: seq<real>): real {
    settings.multiplier * searches.median(fourth)
  }

  /** What is built from a neighbour table with its fourth distances. */
  ghost predicate BuiltFrom(distance: Distance, settings: Settings, searches: Searches, table: Neighbours,
                            fourth: seq<real>, built: Built)
    requires settings.batch >= 1
  {
    var radius := RadiusAt(settings, searches, fourth);
    && (built.Built? <==> searches.median(fourth) > 0.0 && Affordable(distance, settings, searches, table, radius))
    && (built.Built? ==> FamiliesOf(distance, settings, table, radius, built.families))
    && (built == NoScale <==> WithinBudget(searches.nearest, settings.batch) && searches.median(fourth) <= 0.0)
  }

  /** There is one brute-force table, so what is built from it is built from every such table. */
  lemma BuiltFromEvery(distance: Distance, settings: Settings, searches: Searches, table: Neighbours,
                       fourth: seq<real>, built: Built)
    requires settings.batch >= 1 && BuiltFrom(distance, settings, searches, table, fourth, built)
    requires BruteForce(distance, |searches.nearest|, settings.k, table, fourth)
    ensures forall t, f :: BruteForce(distance, |searches.nearest|, settings.k, t, f) ==>
      BuiltFrom(distance, settings, searches, t, f, built)
  {
    forall t, f | BruteForce(distance, |searches.nearest|, settings.k, t, f)
      ensures BuiltFrom(distance, settings, searches, t, f, built)
    {
      BruteForceUnique(distance, |searches.nearest|, settings.k, t, f, table, fourth);
    }
  }

  /** Over the query budget nothing is built from any table. */
  lemma NothingAffordable(distance: Distance, settings: Settings, searches: Searches)
    requires settings.batch >= 1 && !WithinBudget(searches.nearest, settings.batch)
    ensures forall t, f :: BruteForce(distance, |searches.nearest|, settings.k, t, f) ==>
      BuiltFrom(distance, settings, searches, t, f, OverBudget)
  {
    forall t: Neighbours, radius: real
      ensures !Affordable(distance, settings, searches, t, radius)
    {
    }
  }

  /** The families of a table at the radius its fourth distances give. */
  method BuildAtScale(distance: Distance, settings: Settings, searches: Searches, table: Neighbours, fourth: seq<real>)
    returns (built: Built)
    requires settings.least >= 1 && settings.batch >= 1 && Complete(distance, settings, searches)
    requires Table(table) && |table| == |searches.nearest| && WithinBudget(searches.nearest, settings.batch)
    ensures BuiltFrom(distance, settings, searches, table, fourth, built) && built != NotCoveredRow
  {
    if searches.median(fourth) <= 0.0 {
      return NoScale;
    }
    built := BuildFrom(distance, settings, searches, table, RadiusAt(settings, searches, fourth));
  }

  /**
   All three families. When the searches miss nothing, whatever the batch size, they are those of the brute-force
   table at the radius given by the brute-force fourth distances; they are withheld exactly when that table has no
   positive scale or a budget is exceeded, and never for lack of candidates.
   */
  method BuildGraphs(distance: Distance, settings: Settings, searches: Searches) returns (built: Built)
    requires settings.k >= 1 && settings.least >= 1 && settings.batch >= 1 && Complete(distance, settings, searches)
    ensures forall table, fourth :: BruteForce(distance, |searches.nearest|, settings.k, table, fourth) ==>
      BuiltFrom(distance, settings, searches, table, fourth, built)
    ensures built != NotCoveredRow
  {
    var found := CoveredNeighbours(distance, settings.k, searches.nearest, settings.batch);
    match found {
      case Failed(error) =>
        built := if error == Budget then OverBudget else NotCoveredRow;
        NothingAffordable(distance, settings, searches);
      case Done(value) =>
        built := BuildAtScale(distance, settings, searches, value.0, value.1);
        BuiltFromEvery(distance, settings, searches, value.0, value.1, built);
    }
  }

  lemma ListIsCanonical(count: nat, list: seq<(int, int)>, edges: set<(int, int)>)
    requires EdgeList(count, list, edges) && forall e :: e in edges ==> InRange(count, e)
    ensures CanonicalRows(count, list)
  {
    forall i | 0 <= i < |list|
      ensures InRange(count, list[i])
    {
      assert list[i] in edges;
    }
    assert forall i, j :: 0 <= i < j < |list| ==> Code(count, list[i]) < Code(count, list[j]);
  }

  /** What is built are edge rows that a graph receipt accepts. */
  lemma FamiliesAreReceiptRows(distance: Distance, settings: Settings, table: Neighbours, radius: real,
                               families: Families)
    requires FamiliesOf(distance, settings, table, radius, families)
    ensures CanonicalRows(|table|, families.mutual)
    ensures CanonicalRows(|table|, families.radius)
    ensures CanonicalRows(|table|, families.shared)
  {
    ListIsCanonical(|table|, families.mutual, MutualPairs(table));
    ListIsCanonical(|table|, families.radius, RadiusPairs(distance, radius, |table|, 0, |table|));
    ListIsCanonical(|table|, families.shared, SharedPairs(table, settings.least, 0, |table|));
  }
}
