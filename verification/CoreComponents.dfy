/** Candidate cores: the connected groups of low-amplitude rows of a triangulated domain. */
module CoreComponents {
  import opened Basics
  import opened Graphs
  import opened NeighbourSets
  import opened Permutations
  import opened SortedSets

  const CORE_CUTOFF := 0.05

  type Face = (int, int, int)

  /** The three directed sides of a face, in order. */
  function Sides(face: Face): seq<(int, int)> { [(face.0, face.1), (face.1, face.2), (face.2, face.0)] }

  function Corner(face: Face, k: int): int { if k == 0 then face.0 else if k == 1 then face.1 else face.2 }

  /** Two rows are joined by a side exactly when they are different corners of one face. */
  ghost predicate CornersOf(face: Face, a: int, b: int) {
    exists k, l :: 0 <= k < 3 && 0 <= l < 3 && k != l && a == Corner(face, k) && b == Corner(face, l)
  }

  lemma SidesJoinCorners(face: Face, a: int, b: int)
    ensures (a, b) in Sides(face) || (b, a) in Sides(face) <==> CornersOf(face, a, b)
  {
    assert Corner(face, 0) == face.0 && Corner(face, 1) == face.1 && Corner(face, 2) == face.2;
  }

  predicate IsSide(faces: seq<Face>, a: int, b: int) { exists i :: 0 <= i < |faces| && (a, b) in Sides(faces[i]) }

  /** The face sides with both ends low. */
  ghost function LowSides(faces: seq<Face>, low: set<int>): Edges {
    set a, b | a in low && b in low && IsSide(faces, a, b) :: (a, b)
  }

  function LowRows(amplitude: seq<real>, cutoff: real): set<int> {
    set i | 0 <= i < |amplitude| && amplitude[i] <= cutoff
  }

  /** The low rows connected to a row through low sides. */
  ghost function ClassOf(low: set<int>, edges: Edges, v: int): set<int> { set w | w in low && Connected(edges, v, w) }

  ghost predicate ComponentAt(low: set<int>, edges: Edges, component: seq<int>) {
    component != [] && component[0] in low && SortedListOf(component, ClassOf(low, edges, component[0]))
  }

  /** Exactly the connected classes, each sorted, in order of their least members. */
  ghost predicate ComponentsOf(low: set<int>, edges: Edges, components: seq<seq<int>>) {
    && AllAt(low, edges, components) && HeadsIncrease(components)
    && (forall v {:trigger InSome(components, v)} :: v in low ==> InSome(components, v))
  }

  ghost predicate AllAt(low: set<int>, edges: Edges, components: seq<seq<int>>) {
    forall i :: 0 <= i < |components| ==> ComponentAt(low, edges, components[i])
  }

  predicate HeadsIncrease(components: seq<seq<int>>) {
    forall i, j :: 0 <= i < j < |components| ==>
      components[i] != [] && components[j] != [] && components[i][0] < components[j][0]
  }

  predicate InSome(components: seq<seq<int>>, v: int) { exists i :: 0 <= i < |components| && v in components[i] }

  // ----- Adjacency -----

  /** Adds the low sides of one face. */
  method AddFace(adjacent: Adjacency, ghost before: Edges, face: Face, low: set<int>) returns (adjacent': Adjacency)
    requires adjacent.Keys == low && Represents(adjacent, before)
    ensures adjacent'.Keys == low && Represents(adjacent', before + LowOf(Sides(face), low))
  {
    adjacent' := adjacent;
    ghost var sides: Edges := {};
    assert before + sides == before;
    var k := 0;
    while k < 3
      invariant k <= 3 && adjacent'.Keys == low
      invariant sides == LowOf(Sides(face)[..k], low) && Represents(adjacent', before + sides)
    {
      var (a, b) := Sides(face)[k];
      LowOfNext(Sides(face), low, k);
      if a in low && b in low {
        WithEdgeRepresents(adjacent', before + sides, a, b);
        adjacent' := WithEdge(adjacent', a, b);
        assert before + sides + {(a, b)} == before + (sides + {(a, b)});
        sides := sides + {(a, b)};
      }
      k := k + 1;
    }
    assert Sides(face)[..3] == Sides(face);
  }

  method LowAdjacency(faces: seq<Face>, low: set<int>) returns (adjacent: Adjacency)
    ensures adjacent.Keys == low && Represents(adjacent, LowSides(faces, low))
  {
    adjacent := map v | v in low :: {};
    assert LowSides(faces[..0], low) == {};
    var i := 0;
    while i < |faces|
      invariant i <= |faces| && adjacent.Keys == low
      invariant Represents(adjacent, LowSides(faces[..i], low))
    {
      adjacent := AddFace(adjacent, LowSides(faces[..i], low), faces[i], low);
      NextFace(faces, low, i);
      i := i + 1;
    }
    assert faces[..|faces|] == faces;
  }

  ghost function LowOf(sides: seq<(int, int)>, low: set<int>): Edges { set e | e in sides && e.0 in low && e.1 in low }

  lemma LowOfNext(sides: seq<(int, int)>, low: set<int>, k: nat)
    requires k < |sides|
    ensures LowOf(sides[..k + 1], low) ==
      LowOf(sides[..k], low) + if sides[k].0 in low && sides[k].1 in low then {sides[k]} else {}
  {
    assert sides[..k + 1] == sides[..k] + [sides[k]];
  }

  lemma NextFace(faces: seq<Face>, low: set<int>, i: nat)
    requires i < |faces|
    ensures LowSides(faces[..i + 1], low) == LowSides(faces[..i], low) + LowOf(Sides(faces[i]), low)
  {
    var longer := faces[..i + 1];
    forall a, b
      ensures IsSide(longer, a, b) <==> IsSide(faces[..i], a, b) || (a, b) in Sides(faces[i])
    {
      if j :| 0 <= j < |longer| && (a, b) in Sides(longer[j]) {
        assert j < i ==> faces[..i][j] == longer[j];
      }
      if j :| 0 <= j < i && (a, b) in Sides(faces[..i][j]) {
        assert longer[j] == faces[..i][j];
      }
      assert longer[i] == faces[i];
    }
    forall e: (int, int)
      ensures e in LowSides(longer, low) <==> e in LowSides(faces[..i], low) || e in LowOf(Sides(faces[i]), low)
    {
      InLowSides(longer, low, e.0, e.1);
      InLowSides(faces[..i], low, e.0, e.1);
      assert e == (e.0, e.1);
      assert IsSide(longer, e.0, e.1) <==> IsSide(faces[..i], e.0, e.1) || e in Sides(faces[i]);
    }
  }

  lemma InLowSides(faces: seq<Face>, low: set<int>, a: int, b: int)
    ensures (a, b) in LowSides(faces, low) <==> a in low && b in low && IsSide(faces, a, b)
  {
  }

  // ----- One search -----

  ghost predicate Known(edges: Edges, start: int, rows: set<int>) {
    forall v {:trigger Connected(edges, start, v)} :: v in rows ==> Connected(edges, start, v)
  }

  function Elements(todo: seq<int>): set<int> { set i | 0 <= i < |todo| :: todo[i] }

  /** Rows found have their neighbours found or on the work list. */
  ghost predicate Frontier(adjacent: Adjacency, found: set<int>, todo: seq<int>)
    requires found <= adjacent.Keys
  {
    forall v {:trigger adjacent[v]} :: v in found ==> adjacent[v] <= found + Elements(todo)
  }

  /** The elements of a set in no particular order. */
  method AnyOrder(s: set<int>) returns (list: seq<int>)
    ensures Elements(list) == s
  {
    list := [];
    var rest := s;
    while rest != {}
      invariant rest <= s && Elements(list) == s - rest
      decreases |rest|
    {
      NonEmpty(rest);
      var x :| x in rest;
      ElementsAfter(list, [x]);
      OneElement(x);
      rest := rest - {x};
      list := list + [x];
    }
  }

  lemma OneElement(x: int)
    ensures Elements([x]) == {x}
  {
    assert [x][0] == x;
  }

  lemma ElementsAfter(a: seq<int>, b: seq<int>)
    ensures Elements(a + b) == Elements(a) + Elements(b)
  {
    forall x | x in Elements(a) + Elements(b)
      ensures x in Elements(a + b)
    {
      if x in Elements(a) {
        var i :| 0 <= i < |a| && a[i] == x;
        assert (a + b)[i] == x;
      } else {
        var i :| 0 <= i < |b| && b[i] == x;
        assert (a + b)[|a| + i] == x;
      }
    }
  }

  /** Depth-first search from one row: it finds the row's whole class although the work list may repeat rows. */
  method Search(adjacent: Adjacency, ghost edges: Edges, start: int) returns (found: set<int>)
    requires Represents(adjacent, edges) && start in adjacent
    ensures found == ClassOf(adjacent.Keys, edges, start)
  {
    var todo := [start];
    found := {};
    ConnectedToItself(edges, start);
    OneElement(start);
    while todo != []
      invariant Searching(adjacent, edges, start, found, todo)
      decreases |adjacent.Keys - found|, |todo|
    {
      var row := todo[|todo| - 1];
      var rest := todo[..|todo| - 1];
      assert todo == rest + [row];
      TakeRow(adjacent, edges, start, found, rest, row);
      if row !in found {
        LeftOver(adjacent.Keys, found, found + {row});
        found := found + {row};
        var more := AnyOrder(adjacent[row] - found);
        ExpandRow(adjacent, edges, start, found, rest, row, more);
        rest := rest + more;
      }
      todo := rest;
    }
    FoundClass(adjacent, edges, start, found);
  }

  /** The state of one search. */
  ghost predicate Searching(adjacent: Adjacency, edges: Edges, start: int, found: set<int>, todo: seq<int>) {
    && found <= adjacent.Keys && Elements(todo) <= adjacent.Keys
    && start in found + Elements(todo)
    && Known(edges, start, found + Elements(todo))
    && Frontier(adjacent, found, todo)
  }

  lemma TakeRow(adjacent: Adjacency, edges: Edges, start: int, found: set<int>, rest: seq<int>, row: int)
    requires Searching(adjacent, edges, start, found, rest + [row])
    ensures row in adjacent && Connected(edges, start, row)
    ensures row in found ==> Searching(adjacent, edges, start, found, rest)
    ensures found <= adjacent.Keys && Elements(rest) <= adjacent.Keys
    ensures start in found + {row} + Elements(rest)
    ensures Known(edges, start, found + {row} + Elements(rest))
    ensures forall v :: v in found ==> adjacent[v] <= found + {row} + Elements(rest)
  {
    ElementsAfter(rest, [row]);
    OneElement(row);
    assert found + Elements(rest + [row]) == found + {row} + Elements(rest);
    assert row in found ==> found + {row} == found;
  }

  lemma ExpandRow(adjacent: Adjacency, edges: Edges, start: int, found: set<int>, rest: seq<int>, row: int,
                  more: seq<int>)
    requires Represents(adjacent, edges) && row in found && found <= adjacent.Keys && Elements(rest) <= adjacent.Keys
    requires start in found + Elements(rest) && Known(edges, start, found + Elements(rest))
    requires forall v :: v in found && v != row ==> adjacent[v] <= found + Elements(rest)
    requires Elements(more) == adjacent[row] - found
    ensures Searching(adjacent, edges, start, found, rest + more)
  {
    ElementsAfter(rest, more);
    NeighboursLow(adjacent, edges, row);
    assert Connected(edges, start, row);
    forall w | w in adjacent[row]
      ensures Connected(edges, start, w)
    {
      assert NeighbourSet(edges, adjacent[row], row);
      ConnectedExtends(edges, start, row, w);
    }
  }

  lemma NeighboursLow(adjacent: Adjacency, edges: Edges, row: int)
    requires Represents(adjacent, edges) && row in adjacent
    ensures adjacent[row] <= adjacent.Keys
  {
    assert NeighbourSet(edges, adjacent[row], row);
    forall w | w in adjacent[row]
      ensures w in adjacent
    {
      assert Adjacent(edges, row, w);
      assert (row, w) in edges || (w, row) in edges;
    }
  }

  lemma FoundClass(adjacent: Adjacency, edges: Edges, start: int, found: set<int>)
    requires Represents(adjacent, edges) && found <= adjacent.Keys && start in found
    requires Known(edges, start, found) && Frontier(adjacent, found, [])
    ensures found == ClassOf(adjacent.Keys, edges, start)
  {
    forall w | Connected(edges, start, w)
      ensures w in found
    {
      var p :| WalkBetween(edges, p, start, w);
      StaysFound(adjacent, edges, found, p);
    }
  }

  lemma {:induction false} StaysFound(adjacent: Adjacency, edges: Edges, found: set<int>, p: seq<int>)
    requires Represents(adjacent, edges) && found <= adjacent.Keys && Frontier(adjacent, found, [])
    requires Walk(edges, p) && p[0] in found
    ensures p[|p| - 1] in found
  {
    if |p| <= 1 {
    } else {
      PartOfWalk(edges, p, 0, |p| - 1);
      StaysFound(adjacent, edges, found, p[..|p| - 1]);
      var v, w := p[|p| - 2], p[|p| - 1];
      assert Hop(edges, p, |p| - 2);
      assert NeighbourSet(edges, adjacent[v], v) && w in adjacent[v];
    }
  }

  // ----- All components -----

  /** Whatever is connected to a remaining row remains. */
  ghost predicate Detached(low: set<int>, edges: Edges, remaining: set<int>) {
    forall u, v {:trigger Connected(edges, u, v)} :: u in remaining && v in low && Connected(edges, u, v) ==>
      v in remaining
  }

  lemma StillDetached(low: set<int>, edges: Edges, remaining: set<int>, start: int)
    requires remaining <= low && start in remaining && Detached(low, edges, remaining)
    ensures ClassOf(low, edges, start) <= remaining && start in ClassOf(low, edges, start)
    ensures Detached(low, edges, remaining - ClassOf(low, edges, start))
  {
    ConnectedToItself(edges, start);
    forall u, v | u in remaining && u !in ClassOf(low, edges, start) && v in low && Connected(edges, u, v)
      ensures v !in ClassOf(low, edges, start)
    {
      if Connected(edges, start, v) {
        ConnectedSymmetric(edges, u, v);
        ConnectedTransitive(edges, start, v, u);
      }
    }
  }

  lemma LeastFirst(list: seq<int>, s: set<int>, least: int)
    requires SortedListOf(list, s) && least in s && forall x :: x in s ==> least <= x
    ensures list != [] && list[0] == least
  {
    assert list[0] in list;
  }

  lemma MoreInSome(components: seq<seq<int>>, component: seq<int>, v: int)
    ensures InSome(components + [component], v) <==> InSome(components, v) || v in component
  {
    var more := components + [component];
    if i :| 0 <= i < |components| && v in components[i] {
      assert v in more[i];
    }
    assert more[|components|] == component;
  }

  /** Components found so far come before everything that remains. */
  ghost predicate Before(components: seq<seq<int>>, remaining: set<int>) {
    forall i :: 0 <= i < |components| ==> components[i] != [] && forall x :: x in remaining ==> components[i][0] < x
  }

  ghost predicate Covered(low: set<int>, components: seq<seq<int>>, remaining: set<int>) {
    forall v :: v in low ==> v in remaining || InSome(components, v)
  }

  /** The components found so far, and the rows that remain. */
  ghost predicate Collecting(low: set<int>, edges: Edges, components: seq<seq<int>>, remaining: set<int>) {
    && remaining <= low && Detached(low, edges, remaining)
    && AllAt(low, edges, components) && HeadsIncrease(components)
    && Before(components, remaining) && Covered(low, components, remaining)
  }

  lemma HeadsStillIncrease(components: seq<seq<int>>, remaining: set<int>, component: seq<int>)
    requires HeadsIncrease(components) && Before(components, remaining)
    requires component != [] && component[0] in remaining
    ensures HeadsIncrease(components + [component])
  {
  }

  lemma StillBefore(components: seq<seq<int>>, remaining: set<int>, component: seq<int>, found: set<int>)
    requires Before(components, remaining) && component != [] && component[0] in found
    requires forall x :: x in remaining ==> component[0] <= x
    ensures Before(components + [component], remaining - found)
  {
  }

  lemma StillCovered(low: set<int>, components: seq<seq<int>>, remaining: set<int>, component: seq<int>,
                     found: set<int>)
    requires Covered(low, components, remaining) && SortedListOf(component, found)
    ensures Covered(low, components + [component], remaining - found)
  {
    forall v | v in low
      ensures v in remaining - found || InSome(components + [component], v)
    {
      MoreInSome(components, component, v);
    }
  }

  lemma CollectNext(low: set<int>, edges: Edges, components: seq<seq<int>>, remaining: set<int>, start: int,
                    component: seq<int>)
    requires Collecting(low, edges, components, remaining) && start in remaining
    requires forall x :: x in remaining ==> start <= x
    requires SortedListOf(component, ClassOf(low, edges, start))
    ensures Collecting(low, edges, components + [component], remaining - ClassOf(low, edges, start))
    ensures start in ClassOf(low, edges, start)
  {
    var found := ClassOf(low, edges, start);
    StillDetached(low, edges, remaining, start);
    LeastFirst(component, found, start);
    assert ComponentAt(low, edges, component);
    HeadsStillIncrease(components, remaining, component);
    StillBefore(components, remaining, component, found);
    StillCovered(low, components, remaining, component, found);
  }

  /** All connected classes of the low rows, each sorted, in order of their least members. */
  method Components(adjacent: Adjacency, ghost edges: Edges) returns (components: seq<seq<int>>)
    requires Represents(adjacent, edges)
    ensures ComponentsOf(adjacent.Keys, edges, components)
  {
    components := [];
    var remaining := adjacent.Keys;
    while remaining != {}
      invariant Collecting(adjacent.Keys, edges, components, remaining)
      decreases |remaining|
    {
      var start := Least(remaining);
      var found := Search(adjacent, edges, start);
      var component := SortedList(found);
      CollectNext(adjacent.Keys, edges, components, remaining, start, component);
      Shrinks(remaining, found, start);
      remaining := remaining - found;
      components := components + [component];
    }
  }

  lemma Shrinks(remaining: set<int>, found: set<int>, start: int)
    requires start in remaining && start in found
    ensures |remaining - found| < |remaining|
  {
    Subset(remaining - found, remaining - {start});
  }

  datatype Classification = Unresolved | Zero | One | Many

  datatype Core = Core(classification: Classification, count: Option<nat>, components: seq<seq<int>>)

  predicate Resolved(amplitude: seq<real>, support: seq<bool>, atEdge: int -> bool, low: set<int>) {
    && (forall i :: 0 <= i < |support| ==> support[i])
    && |low| != |amplitude|
    && (forall v :: v in low ==> !atEdge(v))
  }

  predicate LowRow(amplitude: seq<real>, v: int) { 0 <= v < |amplitude| && amplitude[v] <= CORE_CUTOFF }

  /** The number is withheld when a row lacks support, when every row is low, or when a low row is at the edge. */
  ghost predicate Withheld(amplitude: seq<real>, support: seq<bool>, atEdge: int -> bool) {
    || (exists i :: 0 <= i < |support| && !support[i])
    || (forall v :: 0 <= v < |amplitude| ==> LowRow(amplitude, v))
    || (exists v :: LowRow(amplitude, v) && atEdge(v))
  }

  lemma ResolvedExact(amplitude: seq<real>, support: seq<bool>, atEdge: int -> bool)
    ensures Resolved(amplitude, support, atEdge, LowRows(amplitude, CORE_CUTOFF)) <==>
      !Withheld(amplitude, support, atEdge)
  {
    var low := LowRows(amplitude, CORE_CUTOFF);
    assert forall v :: v in low <==> LowRow(amplitude, v);
    AllLow(amplitude);
  }

  lemma AllLow(amplitude: seq<real>)
    ensures |LowRows(amplitude, CORE_CUTOFF)| == |amplitude| <==>
      forall v :: 0 <= v < |amplitude| ==> LowRow(amplitude, v)
  {
    var low, all := LowRows(amplitude, CORE_CUTOFF), Range(|amplitude|);
    RangeSize(|amplitude|);
    assert low <= all && forall v :: v in low <==> LowRow(amplitude, v);
    if forall v :: 0 <= v < |amplitude| ==> LowRow(amplitude, v) {
      assert forall v :: v in all ==> LowRow(amplitude, v);
      assert low == all;
    } else {
      var v :| 0 <= v < |amplitude| && !LowRow(amplitude, v);
      Subset(low, all - {v});
    }
  }

  /** There is no component exactly when no row is low. */
  lemma NoComponents(low: set<int>, edges: Edges, components: seq<seq<int>>)
    requires ComponentsOf(low, edges, components)
    ensures |components| == 0 <==> low == {}
  {
    if components != [] {
      assert ComponentAt(low, edges, components[0]);
    }
    if low != {} {
      NonEmpty(low);
      var v :| v in low;
      assert InSome(components, v);
    }
  }

  lemma MembersAreLow(amplitude: seq<real>, edges: Edges, components: seq<seq<int>>)
    requires ComponentsOf(LowRows(amplitude, CORE_CUTOFF), edges, components)
    ensures forall v {:trigger InSome(components, v)} :: InSome(components, v) <==> LowRow(amplitude, v)
  {
    var low := LowRows(amplitude, CORE_CUTOFF);
    forall v
      ensures InSome(components, v) <==> LowRow(amplitude, v)
    {
      assert v in low <==> LowRow(amplitude, v);
      if i :| 0 <= i < |components| && v in components[i] {
        assert ComponentAt(low, edges, components[i]);
      }
    }
  }

  /** The core reading of one field: its components, and their number unless support or localisation fails. */
  method ReadCore(amplitude: seq<real>, support: seq<bool>, atEdge: int -> bool, faces: seq<Face>) returns (core: Core)
    ensures forall v {:trigger InSome(core.components, v)} ::
      InSome(core.components, v) <==> LowRow(amplitude, v)
    ensures core.count.None? <==> Withheld(amplitude, support, atEdge)
    ensures var low := LowRows(amplitude, CORE_CUTOFF);
      && ComponentsOf(low, LowSides(faces, low), core.components)
      && (core.count.None? <==> !Resolved(amplitude, support, atEdge, low))
      && (core.count.None? <==> core.classification == Unresolved)
      && (core.count.Some? ==> core.count.value == |core.components|)
      && (core.classification == Zero <==> core.count == Some(0))
      && (core.classification == Zero <==> Resolved(amplitude, support, atEdge, low) && low == {})
      && (core.classification == One <==> core.count == Some(1))
  {
    var low := LowRows(amplitude, CORE_CUTOFF);
    var adjacent := LowAdjacency(faces, low);
    var components := Components(adjacent, LowSides(faces, low));
    NoComponents(low, LowSides(faces, low), components);
    MembersAreLow(amplitude, LowSides(faces, low), components);
    ResolvedExact(amplitude, support, atEdge);
    var unresolved := !Resolved(amplitude, support, atEdge, low);
    var count := if unresolved then None else Some(|components|);
    var classification :=
      if unresolved then Unresolved else if |components| == 0 then Zero else if |components| == 1 then One else Many;
    core := Core(classification, count, components);
  }

  /** Two low rows are in the same component exactly when they are connected through low sides. */
  lemma SameComponentIffConnected(low: set<int>, edges: Edges, components: seq<seq<int>>, i: nat, j: nat, u: int,
                                  v: int)
    requires ComponentsOf(low, edges, components)
    requires i < |components| && j < |components| && u in components[i] && v in components[j]
    ensures i == j <==> Connected(edges, u, v)
  {
    assert ComponentAt(low, edges, components[i]) && ComponentAt(low, edges, components[j]);
    var a, b := components[i][0], components[j][0];
    assert i != j ==> a != b;
    ConnectedSymmetric(edges, a, u);
    if i == j {
      ConnectedTransitive(edges, u, a, v);
    } else if Connected(edges, u, v) {
      ConnectedTransitive(edges, a, u, v);
      ConnectedSymmetric(edges, b, v);
      ConnectedTransitive(edges, a, v, b);
      ConnectedSymmetric(edges, a, b);
      HeadLeast(low, edges, components[i], b);
      HeadLeast(low, edges, components[j], a);
    }
  }

  lemma HeadLeast(low: set<int>, edges: Edges, component: seq<int>, x: int)
    requires ComponentAt(low, edges, component) && x in low && Connected(edges, component[0], x)
    ensures component[0] <= x
  {
    assert x in component;
  }

  /** There is at most one component exactly when all low rows are connected. */
  lemma OneComponent(low: set<int>, edges: Edges, components: seq<seq<int>>)
    requires ComponentsOf(low, edges, components)
    ensures |components| <= 1 <==> forall u, v :: u in low && v in low ==> Connected(edges, u, v)
  {
    if |components| > 1 {
      assert ComponentAt(low, edges, components[0]) && ComponentAt(low, edges, components[1]);
      ConnectedToItself(edges, components[0][0]);
      ConnectedToItself(edges, components[1][0]);
      SameComponentIffConnected(low, edges, components, 0, 1, components[0][0], components[1][0]);
    } else {
      forall u, v | u in low && v in low
        ensures Connected(edges, u, v)
      {
        assert InSome(components, u) && InSome(components, v);
        SameComponentIffConnected(low, edges, components, 0, 0, u, v);
      }
    }
  }

  // ----- Uniqueness -----

  ghost function Heads(components: seq<seq<int>>): seq<int>
    requires forall i :: 0 <= i < |components| ==> components[i] != []
  {
    seq(|components|, i requires 0 <= i < |components| => components[i][0])
  }

  ghost predicate LeastOfClass(low: set<int>, edges: Edges, v: int) {
    v in low && forall w :: w in ClassOf(low, edges, v) ==> v <= w
  }

  ghost function LeastRows(low: set<int>, edges: Edges): set<int> { set v | v in low && LeastOfClass(low, edges, v) }

  lemma HeadIsLeast(low: set<int>, edges: Edges, component: seq<int>)
    requires ComponentAt(low, edges, component)
    ensures LeastOfClass(low, edges, component[0])
  {
    forall w | w in ClassOf(low, edges, component[0])
      ensures component[0] <= w
    {
      HeadLeast(low, edges, component, w);
    }
  }

  /** The head of the component of a least row is that row. */
  lemma LeastIsHead(low: set<int>, edges: Edges, component: seq<int>, v: int)
    requires ComponentAt(low, edges, component) && LeastOfClass(low, edges, v) && v in component
    ensures component[0] == v
  {
    ConnectedSymmetric(edges, component[0], v);
    assert component[0] in ClassOf(low, edges, v);
    HeadLeast(low, edges, component, v);
  }

  lemma HeadOfLeast(low: set<int>, edges: Edges, components: seq<seq<int>>, v: int) returns (i: nat)
    requires ComponentsOf(low, edges, components) && LeastOfClass(low, edges, v)
    ensures i < |components| && components[i] != [] && components[i][0] == v
  {
    assert InSome(components, v);
    i :| 0 <= i < |components| && v in components[i];
    assert ComponentAt(low, edges, components[i]);
    LeastIsHead(low, edges, components[i], v);
  }

  lemma AllHaveHeads(low: set<int>, edges: Edges, components: seq<seq<int>>)
    requires AllAt(low, edges, components)
    ensures forall i :: 0 <= i < |components| ==> components[i] != [] && LeastOfClass(low, edges, components[i][0])
  {
    forall i | 0 <= i < |components|
      ensures components[i] != [] && LeastOfClass(low, edges, components[i][0])
    {
      assert ComponentAt(low, edges, components[i]);
      HeadIsLeast(low, edges, components[i]);
    }
  }

  lemma HeadsSorted(low: set<int>, edges: Edges, components: seq<seq<int>>)
    requires ComponentsOf(low, edges, components)
    ensures forall i :: 0 <= i < |components| ==> components[i] != []
    ensures SortedListOf(Heads(components), LeastRows(low, edges))
  {
    AllHaveHeads(low, edges, components);
    var heads := Heads(components);
    forall v
      ensures v in LeastRows(low, edges) <==> v in heads
    {
      if LeastOfClass(low, edges, v) {
        var i := HeadOfLeast(low, edges, components, v);
        assert heads[i] == v;
      }
    }
  }

  lemma SameHeads(low: set<int>, edges: Edges, a: seq<seq<int>>, b: seq<seq<int>>)
    requires ComponentsOf(low, edges, a) && ComponentsOf(low, edges, b)
    ensures |a| == |b|
    ensures forall i :: 0 <= i < |a| ==> a[i] != [] && b[i] != [] && a[i][0] == b[i][0]
  {
    HeadsSorted(low, edges, a);
    HeadsSorted(low, edges, b);
    SortedListUnique(Heads(a), Heads(b), LeastRows(low, edges));
    assert |Heads(a)| == |a| && |Heads(b)| == |b|;
    forall i | 0 <= i < |a|
      ensures a[i][0] == b[i][0]
    {
      assert Heads(a)[i] == Heads(b)[i];
    }
  }

  lemma SameComponent(low: set<int>, edges: Edges, a: seq<int>, b: seq<int>)
    requires ComponentAt(low, edges, a) && ComponentAt(low, edges, b) && a[0] == b[0]
    ensures a == b
  {
    SortedListUnique(a, b, ClassOf(low, edges, a[0]));
  }

  /** The component list is determined by the low rows and their sides: no choice made in the search shows in it. */
  lemma ComponentsUnique(low: set<int>, edges: Edges, a: seq<seq<int>>, b: seq<seq<int>>)
    requires ComponentsOf(low, edges, a) && ComponentsOf(low, edges, b)
    ensures a == b
  {
    SameHeads(low, edges, a, b);
    forall i | 0 <= i < |a|
      ensures a[i] == b[i]
    {
      SameComponent(low, edges, a[i], b[i]);
    }
  }
}
